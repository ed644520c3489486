/** String helpers that the Newick code takes from Go's standard library:
    strings.ReplaceAll, strings.IndexAny, strings.Join, strconv.Itoa and
    sort.Strings, each written out with the properties the tree code relies on. */
module Text {

  /** strings.ReplaceAll for a non-empty pattern: every leftmost,
      non-overlapping occurrence of `pat` is replaced by `rep`. */
  function ReplaceAll(s: string, pat: string, rep: string): (r: string)
    requires pat != []
    decreases |s|
  {
    if |s| < |pat| then s
    else if s[..|pat|] == pat then rep + ReplaceAll(s[|pat|..], pat, rep)
    else [s[0]] + ReplaceAll(s[1..], pat, rep)
  }

  /** ReplaceAll introduces no character that is neither in the input nor
      in the replacement. */
  lemma {:induction false} ReplaceAllNoNewChar(s: string, pat: string, rep: string, c: char)
    requires pat != [] && c !in s && c !in rep
    ensures c !in ReplaceAll(s, pat, rep)
    decreases |s|
  {
    if |s| >= |pat| {
      if s[..|pat|] == pat {
        ReplaceAllNoNewChar(s[|pat|..], pat, rep, c);
      } else {
        ReplaceAllNoNewChar(s[1..], pat, rep, c);
      }
    }
  }

  /** Replacing one character by another works character by character. */
  lemma {:induction false} ReplaceCharAt(s: string, c: char, d: char)
    ensures |ReplaceAll(s, [c], [d])| == |s|
    ensures forall i :: 0 <= i < |s| ==>
      ReplaceAll(s, [c], [d])[i] == if s[i] == c then d else s[i]
    decreases |s|
  {
    if |s| >= 1 {
      ReplaceCharAt(s[1..], c, d);
      var r := ReplaceAll(s, [c], [d]);
      assert s[..1] == [s[0]];
      assert r == [if s[0] == c then d else s[0]] + ReplaceAll(s[1..], [c], [d]);
    }
  }

  /** After replacing every `c` by a string that does not contain `c`,
      no `c` is left. */
  lemma {:induction false} ReplaceCharRemoves(s: string, c: char, rep: string)
    requires c !in rep
    ensures c !in ReplaceAll(s, [c], rep)
    decreases |s|
  {
    if |s| >= 1 {
      ReplaceCharRemoves(s[1..], c, rep);
      assert s[..1] == [s[0]];
    }
  }

  /** One step of ReplaceAll at an occurrence of the pattern. */
  lemma ReplaceHit(s: string, pat: string, rep: string, t: string)
    requires pat != [] && s == pat + t
    ensures ReplaceAll(s, pat, rep) == rep + ReplaceAll(t, pat, rep)
  {
    assert s[..|pat|] == pat && s[|pat|..] == t;
  }

  /** One step of ReplaceAll at a character that cannot start the pattern. */
  lemma ReplaceMiss(x: char, t: string, pat: string, rep: string)
    requires pat != [] && 1 + |t| >= |pat| && x != pat[0]
    ensures ReplaceAll([x] + t, pat, rep) == [x] + ReplaceAll(t, pat, rep)
  {
    var s := [x] + t;
    assert s[..|pat|][0] == x;
    assert s[1..] == t;
  }

  /** A pattern whose first character does not occur is never replaced. */
  lemma {:induction false} ReplaceAllAbsent(s: string, pat: string, rep: string)
    requires pat != [] && pat[0] !in s
    ensures ReplaceAll(s, pat, rep) == s
    decreases |s|
  {
    if |s| >= |pat| {
      assert s[..|pat|][0] == s[0] != pat[0];
      ReplaceAllAbsent(s[1..], pat, rep);
      assert [s[0]] + s[1..] == s;
    }
  }

  /** Replacing a single character distributes over concatenation. */
  lemma {:induction false} ReplaceCharConcat(a: string, b: string, c: char, rep: string)
    ensures ReplaceAll(a + b, [c], rep) == ReplaceAll(a, [c], rep) + ReplaceAll(b, [c], rep)
    decreases |a|
  {
    if a == [] {
      assert a + b == b;
    } else {
      assert (a + b)[..1] == a[..1] == [a[0]];
      assert (a + b)[1..] == a[1..] + b;
      ReplaceCharConcat(a[1..], b, c, rep);
    }
  }

  /** Exchanging `c` for `d` and back is the identity when `d` did not occur
      (the underscore/space convention of unquoted Newick labels). */
  lemma CharSwapRoundTrip(s: string, c: char, d: char)
    requires d !in s
    ensures ReplaceAll(ReplaceAll(s, [c], [d]), [d], [c]) == s
  {
    var r := ReplaceAll(s, [c], [d]);
    ReplaceCharAt(s, c, d);
    ReplaceCharAt(r, d, c);
    var q := ReplaceAll(r, [d], [c]);
    assert |q| == |s|;
    forall i | 0 <= i < |s| ensures q[i] == s[i] {
      assert s[i] != d;
    }
  }

  /** strings.IndexAny(s, chars) != -1: some character of `s` is in `chars`. */
  predicate ContainsAny(s: string, chars: string) {
    exists i :: 0 <= i < |s| && s[i] in chars
  }

  /** The number of occurrences of `c` in `s`. */
  function Count(c: char, s: string): (n: nat)
    ensures n <= |s|
    ensures n == 0 <==> c !in s
  {
    if s == [] then 0 else (if s[0] == c then 1 else 0) + Count(c, s[1..])
  }

  lemma {:induction false} CountConcat(c: char, a: string, b: string)
    ensures Count(c, a + b) == Count(c, a) + Count(c, b)
  {
    if a != [] {
      assert (a + b)[0] == a[0];
      assert (a + b)[1..] == a[1..] + b;
      CountConcat(c, a[1..], b);
      assert Count(c, a + b) == (if a[0] == c then 1 else 0) + Count(c, a[1..] + b);
    } else {
      assert a + b == b;
    }
  }

  /** strings.Join. */
  function Join(parts: seq<string>, sep: string): string {
    if parts == [] then ""
    else if |parts| == 1 then parts[0]
    else parts[0] + sep + Join(parts[1..], sep)
  }

  /** The decimal digit for 0 <= d < 10. */
  function DigitChar(d: nat): (c: char)
    requires d < 10
    ensures '0' <= c <= '9' && c as int - '0' as int == d
  {
    (d + '0' as int) as char
  }

  /** The decimal rendering of a natural number, without leading zeros. */
  function Decimal(n: nat): (r: string)
    ensures r != []
    ensures forall i :: 0 <= i < |r| ==> '0' <= r[i] <= '9'
    ensures r[0] == '0' ==> n == 0
    decreases n
  {
    if n < 10 then [DigitChar(n)] else Decimal(n / 10) + [DigitChar(n % 10)]
  }

  /** strconv.Itoa: a minus sign for negative numbers, then the digits. */
  function Itoa(n: int): string {
    if n < 0 then "-" + Decimal(-n) else Decimal(n)
  }

  /** The value of a string of decimal digits. */
  function DigitsValue(s: string): nat
    requires forall i :: 0 <= i < |s| ==> '0' <= s[i] <= '9'
  {
    if s == [] then 0
    else 10 * DigitsValue(s[..|s| - 1]) + (s[|s| - 1] as int - '0' as int)
  }

  /** Reading the decimal rendering back gives the number. */
  lemma {:induction false} DecimalValue(n: nat)
    ensures DigitsValue(Decimal(n)) == n
    decreases n
  {
    if n >= 10 {
      DecimalValue(n / 10);
      var r := Decimal(n);
      assert r[..|r| - 1] == Decimal(n / 10);
    }
  }

  /** Different numbers have different decimal renderings. */
  lemma DecimalInjective(m: nat, n: nat)
    requires Decimal(m) == Decimal(n)
    ensures m == n
  {
    DecimalValue(m);
    DecimalValue(n);
  }

  /** Itoa is injective, so a uniform prefix-plus-id labelling gives
      distinct nodes distinct labels. */
  lemma ItoaInjective(m: int, n: int)
    requires Itoa(m) == Itoa(n)
    ensures m == n
  {
    if m < 0 && n < 0 {
      assert Itoa(m)[1..] == Decimal(-m) && Itoa(n)[1..] == Decimal(-n);
      DecimalInjective(-m, -n);
    } else if m >= 0 && n >= 0 {
      DecimalInjective(m, n);
    }
  }

  /** Go's string ordering (byte-wise on UTF-8, which orders like code
      points): `a` comes no later than `b`. */
  predicate AtMost(a: string, b: string) {
    a == [] || (b != [] && (a[0] < b[0] || (a[0] == b[0] && AtMost(a[1..], b[1..]))))
  }

  lemma {:induction false} AtMostAntisymmetric(a: string, b: string)
    requires AtMost(a, b) && AtMost(b, a)
    ensures a == b
  {
    if a != [] && b != [] {
      AtMostAntisymmetric(a[1..], b[1..]);
      assert a == [a[0]] + a[1..] && b == [b[0]] + b[1..];
    }
  }

  lemma {:induction false} AtMostTransitive(a: string, b: string, c: string)
    requires AtMost(a, b) && AtMost(b, c)
    ensures AtMost(a, c)
  {
    if a != [] && b != [] && c != [] && a[0] == b[0] == c[0] {
      AtMostTransitive(a[1..], b[1..], c[1..]);
    }
  }

  lemma {:induction false} AtMostTotal(a: string, b: string)
    ensures AtMost(a, b) || AtMost(b, a)
  {
    if a != [] && b != [] && a[0] == b[0] {
      AtMostTotal(a[1..], b[1..]);
    }
  }

  /** Every finite non-empty set of strings has a least element. */
  lemma {:induction false} LeastExists(s: set<string>)
    requires s != {}
    ensures exists m :: m in s && forall y :: y in s ==> AtMost(m, y)
    decreases s
  {
    var x :| x in s;
    if s == {x} {
      AtMostTotal(x, x);
    } else {
      LeastExists(s - {x});
      var m :| m in s - {x} && forall y :: y in s - {x} ==> AtMost(m, y);
      AtMostTotal(m, x);
      if AtMost(m, x) {
        forall y | y in s ensures AtMost(m, y) {
          if y != x { assert y in s - {x}; }
        }
      } else {
        forall y | y in s ensures AtMost(x, y) {
          if y != x { AtMostTransitive(x, m, y); } else { AtMostTotal(x, x); }
        }
      }
    }
  }

  lemma LeastUnique()
    ensures forall s: set<string>, m, m' ::
      m in s && m' in s && (forall y :: y in s ==> AtMost(m, y)) && (forall y :: y in s ==> AtMost(m', y))
      ==> m == m'
  {
    forall s: set<string>, m, m' |
      m in s && m' in s && (forall y :: y in s ==> AtMost(m, y)) && (forall y :: y in s ==> AtMost(m', y))
      ensures m == m'
    {
      AtMostAntisymmetric(m, m');
    }
  }

  /** The least member of a non-empty set of strings. */
  function Least(s: set<string>): (m: string)
    requires s != {}
    ensures m in s && forall y :: y in s ==> AtMost(m, y)
  {
    LeastExists(s);
    LeastUnique();
    var m :| m in s && forall y :: y in s ==> AtMost(m, y);
    m
  }

  /** No element occurs twice. */
  predicate Distinct<T(==)>(s: seq<T>) {
    forall i, j :: 0 <= i < j < |s| ==> s[i] != s[j]
  }

  lemma AppendDistinct<T>(s: seq<T>, x: T)
    requires Distinct(s) && x !in s
    ensures Distinct(s + [x])
  {
    forall i, j | 0 <= i < j < |s + [x]| ensures (s + [x])[i] != (s + [x])[j] {
      assert (s + [x])[i] == s[i];
    }
  }

  lemma RemoveDistinct<T>(s: seq<T>, i: int)
    requires Distinct(s) && 0 <= i < |s|
    ensures Distinct(s[..i] + s[i + 1..])
    ensures forall x :: x in s[..i] + s[i + 1..] <==> x in s && x != s[i]
  {
    var t := s[..i] + s[i + 1..];
    forall j, l | 0 <= j < l < |t| ensures t[j] != t[l] {
      var j' := if j < i then j else j + 1;
      var l' := if l < i then l else l + 1;
      assert t[j] == s[j'] && t[l] == s[l'];
    }
    forall x ensures x in t <==> x in s && x != s[i] {
      if x in s && x != s[i] {
        var j :| 0 <= j < |s| && s[j] == x;
        if j < i {
          assert t[j] == x;
        } else {
          assert t[j - 1] == x;
        }
      }
    }
  }

  /** A sequence without repeats drawn from a set is no longer than the set. */
  lemma {:induction false} DistinctWithin<T>(s: seq<T>, d: set<T>)
    requires Distinct(s) && forall x :: x in s ==> x in d
    ensures |s| <= |d|
    decreases |s|
  {
    if s != [] {
      var t := s[1..];
      assert Distinct(t) by {
        forall i, j | 0 <= i < j < |t| ensures t[i] != t[j] {
          assert t[i] == s[i + 1] && t[j] == s[j + 1];
        }
      }
      forall x | x in t ensures x in d - {s[0]} {
        var i :| 0 <= i < |t| && t[i] == x;
        assert s[i + 1] == x;
      }
      assert s[0] in d;
      DistinctWithin(t, d - {s[0]});
    }
  }

  /** Strictly increasing in Go's string order (so also free of duplicates). */
  predicate StrictlySorted(r: seq<string>) {
    forall i, j :: 0 <= i < j < |r| ==> AtMost(r[i], r[j]) && r[i] != r[j]
  }

  /** A listing stays strictly sorted when a string below all of its
      members is put in front. */
  lemma PrependSorted(m: string, rest: seq<string>, s: set<string>)
    requires StrictlySorted(rest) && forall x :: x in rest <==> x in s
    requires m !in s && forall y :: y in s ==> AtMost(m, y)
    ensures StrictlySorted([m] + rest)
  {
    var r := [m] + rest;
    forall i, j | 0 <= i < j < |r| ensures AtMost(r[i], r[j]) && r[i] != r[j] {
      if i == 0 {
        assert r[j] == rest[j - 1] && rest[j - 1] in s;
      } else {
        assert r[i] == rest[i - 1] && r[j] == rest[j - 1];
      }
    }
  }

  /** The members of a set of strings in ascending order, as sort.Strings
      leaves the keys of the Go map. */
  function SortedMembers(s: set<string>): (r: seq<string>)
    ensures |r| == |s|
    ensures forall x :: x in r <==> x in s
    ensures StrictlySorted(r)
    decreases s
  {
    if s == {} then []
    else
      var m := Least(s);
      var rest := SortedMembers(s - {m});
      PrependSorted(m, rest, s - {m});
      [m] + rest
  }
  /** A strictly sorted listing of a set starts with its least member. */
  lemma SortedHeadIsLeast(s: set<string>, r: seq<string>)
    requires StrictlySorted(r) && forall x :: x in r <==> x in s
    requires s != {}
    ensures r != [] && r[0] == Least(s)
  {
    var m := Least(s);
    assert m in r;
    var i :| 0 <= i < |r| && r[i] == m;
    if i > 0 {
      assert AtMost(r[0], r[i]);
    } else {
      AtMostTotal(m, m);
    }
    AtMostAntisymmetric(r[0], m);
  }

  /** Dropping the head of a strictly sorted listing lists the rest of the set. */
  lemma SortedTail(s: set<string>, r: seq<string>)
    requires StrictlySorted(r) && forall x :: x in r <==> x in s
    requires r != []
    ensures StrictlySorted(r[1..])
    ensures forall x :: x in r[1..] <==> x in s - {r[0]}
  {
    forall x ensures x in r[1..] <==> x in s - {r[0]} {
      if x in r[1..] {
        var i :| 0 <= i < |r[1..]| && r[1..][i] == x;
        assert r[i + 1] == x;
      }
      if x in s - {r[0]} {
        var i :| 0 <= i < |r| && r[i] == x;
        assert r[1..][i - 1] == x;
      }
    }
  }

  lemma SortedMembersStep(s: set<string>)
    requires s != {}
    ensures SortedMembers(s) == [Least(s)] + SortedMembers(s - {Least(s)})
  {
  }

  /** A strictly sorted listing of a set is the one SortedMembers gives, so
      sorting the members of a set has exactly one possible outcome. */
  lemma {:induction false} SortedMembersUnique(s: set<string>, r: seq<string>)
    requires StrictlySorted(r) && forall x :: x in r <==> x in s
    ensures r == SortedMembers(s)
    decreases s
  {
    if s == {} {
      DistinctWithin(r, s);
    } else {
      SortedHeadIsLeast(s, r);
      SortedTail(s, r);
      SortedMembersUnique(s - {r[0]}, r[1..]);
      SortedMembersStep(s);
      assert r == [r[0]] + r[1..];
    }
  }
}
