/** The record normalizer at the start of Scanner.Tree (nwk.go:152-171)
    and the underscore convention applied to unquoted tokens (nwk.go:183).
    The normalizer turns comment brackets into Go comment markers, Newick
    apostrophe quotes into Go double quotes, and wraps every branch length
    (from its `:` to the next `,`, `;`, blank or `)`) in double quotes so
    that the Go tokenizer returns it as one string token. */
module Normalizer {
  import opened Text
  import opened NewickTree

  // ---------------------------------------------------------------------
  // The four replacements (nwk.go:153-156)
  // ---------------------------------------------------------------------

  /** `[` becomes `/*`, `]` becomes `*/`, every `'` becomes `"`, and then
      every doubled `""` (scanned left to right) becomes a single `'`. */
  function Rewrite(tree: string): string {
    var s1 := ReplaceAll(tree, "[", "/*");
    var s2 := ReplaceAll(s1, "]", "*/");
    var s3 := ReplaceAll(s2, "'", "\"");
    ReplaceAll(s3, "\"\"", "'")
  }

  /** No comment bracket survives the rewrite. */
  lemma RewriteRemovesBrackets(tree: string)
    ensures '[' !in Rewrite(tree) && ']' !in Rewrite(tree)
  {
    var s1 := ReplaceAll(tree, "[", "/*");
    ReplaceCharRemoves(tree, '[', "/*");
    var s2 := ReplaceAll(s1, "]", "*/");
    ReplaceAllNoNewChar(s1, "]", "*/", '[');
    ReplaceCharRemoves(s1, ']', "*/");
    var s3 := ReplaceAll(s2, "'", "\"");
    ReplaceAllNoNewChar(s2, "'", "\"", '[');
    ReplaceAllNoNewChar(s2, "'", "\"", ']');
    ReplaceAllNoNewChar(s3, "\"\"", "'", '[');
    ReplaceAllNoNewChar(s3, "\"\"", "'", ']');
  }

  /** Text without brackets and quotes of either kind passes unchanged. */
  lemma RewritePlain(tree: string)
    requires '[' !in tree && ']' !in tree && '\'' !in tree && '"' !in tree
    ensures Rewrite(tree) == tree
  {
    ReplaceAllAbsent(tree, "[", "/*");
    ReplaceAllAbsent(tree, "]", "*/");
    ReplaceAllAbsent(tree, "'", "\"");
    ReplaceAllAbsent(tree, "\"\"", "'");
  }

  /** Doubling apostrophes and then turning each into a double quote is
      the same as turning each apostrophe into two double quotes. */
  lemma {:induction false} DoubleThenSwap(name: string)
    ensures ReplaceAll(ReplaceAll(name, "'", "''"), "'", "\"") == ReplaceAll(name, "'", "\"\"")
    decreases |name|
  {
    if name != [] {
      var x, tail := name[0], name[1..];
      assert name == [x] + tail;
      var dt := ReplaceAll(tail, "'", "''");
      DoubleThenSwap(tail);
      if x == '\'' {
        ReplaceHit(name, "'", "''", tail);
        ReplaceHit(name, "'", "\"\"", tail);
        assert "''" + dt == "'" + ("'" + dt);
        ReplaceHit("''" + dt, "'", "\"", "'" + dt);
        ReplaceHit("'" + dt, "'", "\"", dt);
      } else {
        ReplaceMiss(x, tail, "'", "''");
        ReplaceMiss(x, dt, "'", "\"");
        ReplaceMiss(x, tail, "'", "\"\"");
      }
    }
  }

  /** Collapsing doubled quotes undoes the doubling of the label's
      apostrophes, up to and including the closing quote. */
  lemma {:induction false} CollapseDoubled(name: string)
    requires '"' !in name
    ensures ReplaceAll(ReplaceAll(name, "'", "\"\"") + "\"", "\"\"", "'") == name + "\""
    decreases |name|
  {
    if name == [] {
      assert ReplaceAll(name, "'", "\"\"") + "\"" == "\"";
    } else {
      var x, tail := name[0], name[1..];
      assert name == [x] + tail;
      var et := ReplaceAll(tail, "'", "\"\"");
      CollapseDoubled(tail);
      if x == '\'' {
        ReplaceHit(name, "'", "\"\"", tail);
        assert "\"\"" + et + "\"" == "\"\"" + (et + "\"");
        ReplaceHit("\"\"" + (et + "\""), "\"\"", "'", et + "\"");
      } else {
        ReplaceMiss(x, tail, "'", "\"\"");
        assert [x] + et + "\"" == [x] + (et + "\"");
        ReplaceMiss(x, et + "\"", "\"\"", "'");
      }
    }
  }

  /** A label that printLabel quotes, read back through the rewrite,
      becomes the Go string literal of the label, provided it contains no
      double quote, no bracket, and does not begin with an apostrophe. */
  lemma QuotedLabelRewrite(name: string)
    requires ContainsAny(name, "(),")
    requires '"' !in name && '[' !in name && ']' !in name
    requires name[0] != '\''
    ensures Rewrite(LabelText(name)) == "\"" + name + "\""
  {
    var d := ReplaceAll(name, "'", "''");
    var l := "'" + d + "'";
    assert LabelText(name) == l;
    ReplaceAllNoNewChar(name, "'", "''", '[');
    ReplaceAllNoNewChar(name, "'", "''", ']');
    ReplaceAllAbsent(l, "[", "/*");
    ReplaceAllAbsent(l, "]", "*/");
    SwapQuoted(d);
    DoubleThenSwap(name);
    CollapseQuoted(name);
  }

  /** The apostrophes around a quoted label become double quotes. */
  lemma SwapQuoted(d: string)
    ensures ReplaceAll("'" + d + "'", "'", "\"") == "\"" + ReplaceAll(d, "'", "\"") + "\""
  {
    ReplaceCharConcat("'" + d, "'", '\'', "\"");
    ReplaceCharConcat("'", d, '\'', "\"");
    ReplaceHit("'", "'", "\"", []);
  }

  /** The collapse of doubled quotes leaves the opening quote alone when
      the label does not begin with an apostrophe. */
  lemma CollapseQuoted(name: string)
    requires name != [] && '"' !in name && name[0] != '\''
    ensures ReplaceAll("\"" + ReplaceAll(name, "'", "\"\"") + "\"", "\"\"", "'") == "\"" + name + "\""
  {
    var e := ReplaceAll(name, "'", "\"\"");
    var x, tail := name[0], name[1..];
    assert name == [x] + tail;
    ReplaceMiss(x, tail, "'", "\"\"");
    var s := "\"" + e + "\"";
    assert s[..2] == ['"', x];
    assert s[1..] == e + "\"";
    assert ReplaceAll(s, "\"\"", "'") == "\"" + ReplaceAll(e + "\"", "\"\"", "'");
    CollapseDoubled(name);
  }

  /** The rewrite as written loses a label that begins with an apostrophe:
      the label `'(` is printed as `'''('` and rewritten to `'"("`, not to
      the literal `"'("`. */
  lemma LeadingApostropheBreaks()
    ensures LabelText("'(") == "'''('"
    ensures Rewrite(LabelText("'(")) == "'\"(\"" != "\"'(\""
  {
    ExampleLabel();
    var l := "'''('";
    ReplaceAllAbsent(l, "[", "/*");
    ReplaceAllAbsent(l, "]", "*/");
    ExampleSwap();
    ExampleCollapse();
  }

  lemma ExampleLabel()
    ensures LabelText("'(") == "'''('"
  {
    assert "'("[1] in "(),";
    assert "'(" == "'" + "(";
    ReplaceHit("'(", "'", "''", "(");
    ReplaceMiss('(', [], "'", "''");
  }

  lemma ExampleSwap()
    ensures ReplaceAll("'''('", "'", "\"") == "\"\"\"(\""
  {
    assert "'''('" == "'" + "''('";
    ReplaceHit("'''('", "'", "\"", "''('");
    assert "''('" == "'" + "'('";
    ReplaceHit("''('", "'", "\"", "'('");
    assert "'('" == "'" + "('";
    ReplaceHit("'('", "'", "\"", "('");
    assert "('" == ['('] + "'";
    ReplaceMiss('(', "'", "'", "\"");
    ReplaceHit("'", "'", "\"", []);
  }

  lemma ExampleCollapse()
    ensures ReplaceAll("\"\"\"(\"", "\"\"", "'") == "'\"(\""
  {
    assert "\"\"\"(\"" == "\"\"" + "\"(\"";
    ReplaceHit("\"\"\"(\"", "\"\"", "'", "\"(\"");
    var t := "\"(\"";
    assert t[..2] == "\"(" && t[1..] == "(\"";
    assert "(\"" == ['('] + "\"";
    ReplaceMiss('(', "\"", "\"\"", "'");
  }

  // ---------------------------------------------------------------------
  // The corrected quote translation
  // ---------------------------------------------------------------------

  /** Newick quoting read as intended: outside a label an apostrophe opens
      a quoted label (written as `"`); inside one, `''` stands for one
      apostrophe and a single `'` closes the label (written as `"`). */
  function TranslateQuotes(s: string, inLabel: bool): string
    decreases |s|
  {
    if s == [] then []
    else if s[0] != '\'' then [s[0]] + TranslateQuotes(s[1..], inLabel)
    else if !inLabel then "\"" + TranslateQuotes(s[1..], true)
    else if |s| > 1 && s[1] == '\'' then "'" + TranslateQuotes(s[2..], true)
    else "\"" + TranslateQuotes(s[1..], false)
  }

  /** The corrected rewrite: the two bracket replacements, then the quote
      translation. */
  function RewriteFixed(tree: string): string {
    TranslateQuotes(ReplaceAll(ReplaceAll(tree, "[", "/*"), "]", "*/"), false)
  }

  /** Inside a quoted label, the doubled form of `name` followed by the
      closing apostrophe reads back as `name` and a closing `"`. */
  lemma {:induction false} TranslateLabelBody(name: string, rest: string)
    requires rest == [] || rest[0] != '\''
    ensures TranslateQuotes(ReplaceAll(name, "'", "''") + ("'" + rest), true)
         == name + "\"" + TranslateQuotes(rest, false)
    decreases |name|
  {
    var d := ReplaceAll(name, "'", "''");
    var t := TranslateQuotes(rest, false);
    if name == [] {
      assert d + ("'" + rest) == "'" + rest;
      TranslateClose(rest);
    } else {
      var x, tail := name[0], name[1..];
      assert name == [x] + tail;
      var dt := ReplaceAll(tail, "'", "''");
      var u := dt + ("'" + rest);
      TranslateLabelBody(tail, rest);
      if x == '\'' {
        ReplaceHit(name, "'", "''", tail);
        Assoc("''", dt, "'" + rest);
        TranslateDoubled(u);
      } else {
        ReplaceMiss(x, tail, "'", "''");
        Assoc([x], dt, "'" + rest);
        TranslateOther(x, u, true);
      }
      Assoc([x], tail, "\"");
      Assoc([x], tail + "\"", t);
    }
  }

  lemma Assoc(a: string, b: string, c: string)
    ensures a + b + c == a + (b + c)
  {
  }

  lemma TranslateClose(rest: string)
    requires rest == [] || rest[0] != '\''
    ensures TranslateQuotes("'" + rest, true) == "\"" + TranslateQuotes(rest, false)
  {
    assert ("'" + rest)[1..] == rest;
  }

  lemma TranslateDoubled(u: string)
    ensures TranslateQuotes("''" + u, true) == "'" + TranslateQuotes(u, true)
  {
    assert ("''" + u)[2..] == u;
  }

  lemma TranslateOther(x: char, u: string, inLabel: bool)
    requires x != '\''
    ensures TranslateQuotes([x] + u, inLabel) == [x] + TranslateQuotes(u, inLabel)
  {
    assert ([x] + u)[1..] == u;
  }

  /** With the corrected translation every label printLabel quotes that has
      no double quote or bracket becomes its Go string literal, whatever
      its first character. */
  lemma QuotedLabelRewriteFixed(name: string)
    requires ContainsAny(name, "(),")
    requires '"' !in name && '[' !in name && ']' !in name
    ensures RewriteFixed(LabelText(name)) == "\"" + name + "\""
  {
    var d := ReplaceAll(name, "'", "''");
    var l := "'" + d + "'";
    assert LabelText(name) == l;
    ReplaceAllNoNewChar(name, "'", "''", '[');
    ReplaceAllNoNewChar(name, "'", "''", ']');
    ReplaceAllAbsent(l, "[", "/*");
    ReplaceAllAbsent(l, "]", "*/");
    assert l[1..] == d + ("'" + []);
    TranslateLabelBody(name, []);
  }

  /** Text without brackets or apostrophes passes the corrected rewrite
      unchanged, as it passes the rewrite of nwk.go. */
  lemma {:induction false} RewriteFixedPlain(tree: string)
    requires '[' !in tree && ']' !in tree && '\'' !in tree
    ensures RewriteFixed(tree) == tree
  {
    ReplaceAllAbsent(tree, "[", "/*");
    ReplaceAllAbsent(tree, "]", "*/");
    TranslatePlain(tree, false);
  }

  lemma {:induction false} TranslatePlain(s: string, inLabel: bool)
    requires '\'' !in s
    ensures TranslateQuotes(s, inLabel) == s
    decreases |s|
  {
    if s != [] {
      TranslatePlain(s[1..], inLabel);
      assert [s[0]] + s[1..] == s;
    }
  }

  // ---------------------------------------------------------------------
  // Quoting the branch lengths (nwk.go:157-171)
  // ---------------------------------------------------------------------

  /** The characters that end a branch length. */
  predicate EndsLength(r: char) {
    r == ',' || r == ';' || r == ' ' || r == ')'
  }

  /** The scan of nwk.go:160-169 from flag `isNum` on: a `"` goes before
      every `:` (which sets the flag) and before the first `,`, `;`, blank
      or `)` while the flag is set (which clears it); every character of
      the input is kept. */
  function Quote(s: string, isNum: bool): string
    decreases |s|
  {
    if s == [] then [] else Emit(s[0], isNum) + Quote(s[1..], After(s[0], isNum))
  }

  /** What the scan appends for the character `r` with flag `isNum`. */
  function Emit(r: char, isNum: bool): string {
    var num := isNum || r == ':';
    (if r == ':' then "\"" else "") + (if num && EndsLength(r) then "\"" else "") + [r]
  }

  /** The flag after the character `r`. */
  function After(r: char, isNum: bool): bool {
    (isNum || r == ':') && !EndsLength(r)
  }

  /** The flag after scanning `p` from flag `isNum`. */
  function Flag(p: string, isNum: bool): bool
    decreases |p|
  {
    if p == [] then isNum else Flag(p[1..], After(p[0], isNum))
  }

  /** The scan splits at any point: the second part is scanned from the
      flag the first part leaves. */
  lemma {:induction false} QuoteConcat(p: string, s: string, isNum: bool)
    ensures Quote(p + s, isNum) == Quote(p, isNum) + Quote(s, Flag(p, isNum))
    decreases |p|
  {
    if p != [] {
      assert (p + s)[0] == p[0] && (p + s)[1..] == p[1..] + s;
      var f := After(p[0], isNum);
      QuoteConcat(p[1..], s, f);
      assert Quote(p + s, isNum) == Emit(p[0], isNum) + Quote(p[1..] + s, f);
      assert Quote(p, isNum) == Emit(p[0], isNum) + Quote(p[1..], f);
      assert Flag(p, isNum) == Flag(p[1..], f);
    } else {
      assert p + s == s;
    }
  }

  /** The loop of nwk.go:157-170 appending to c2. */
  method QuoteNumbers(c1: string) returns (c2: string)
    ensures c2 == Quote(c1, false)
  {
    c2 := [];
    var isNum := false;
    for i := 0 to |c1|
      invariant c2 + Quote(c1[i..], isNum) == Quote(c1, false)
    {
      ghost var before, flag := c2, isNum;
      assert c1[i..][1..] == c1[i + 1..];
      var r := c1[i];
      if r == ':' {
        isNum := true;
        c2 := c2 + ['"'];
      }
      if isNum && EndsLength(r) {
        isNum := false;
        c2 := c2 + ['"'];
      }
      c2 := c2 + [r];
      assert c2 == before + Emit(r, flag) && isNum == After(r, flag);
      QuoteAdvance(c1[i..], before, flag);
    }
    assert c1[|c1|..] == [];
  }

  /** Appending what the scan emits for the first character and then the
      scan of the rest is appending the scan of the whole. */
  lemma QuoteAdvance(s: string, pre: string, b: bool)
    requires s != []
    ensures pre + Emit(s[0], b) + Quote(s[1..], After(s[0], b)) == pre + Quote(s, b)
  {
  }

  /** `s` with every double quote removed. */
  function Unquoted(s: string): (r: string)
    ensures '"' !in r
    decreases |s|
  {
    if s == [] then [] else (if s[0] == '"' then [] else [s[0]]) + Unquoted(s[1..])
  }

  lemma {:induction false} UnquotedConcat(a: string, b: string)
    ensures Unquoted(a + b) == Unquoted(a) + Unquoted(b)
    decreases |a|
  {
    if a != [] {
      assert (a + b)[0] == a[0];
      assert (a + b)[1..] == a[1..] + b;
      UnquotedConcat(a[1..], b);
    } else {
      assert a + b == b;
    }
  }

  /** The scan only inserts double quotes: removing them gives back the
      input without its own double quotes. */
  lemma {:induction false} QuoteOnlyInserts(s: string, isNum: bool)
    ensures Unquoted(Quote(s, isNum)) == Unquoted(s)
    decreases |s|
  {
    if s != [] {
      var r := s[0];
      UnquotedConcat(Emit(r, isNum), Quote(s[1..], After(r, isNum)));
      EmitUnquoted(r, isNum);
      QuoteOnlyInserts(s[1..], After(r, isNum));
      assert s == [r] + s[1..];
      UnquotedConcat([r], s[1..]);
    }
  }

  lemma EmitUnquoted(r: char, isNum: bool)
    ensures Unquoted(Emit(r, isNum)) == Unquoted([r])
  {
    var num := isNum || r == ':';
    var p: string := if r == ':' then "\"" else "";
    var q: string := if num && EndsLength(r) then "\"" else "";
    assert Emit(r, isNum) == p + q + [r];
    UnquotedConcat(p + q, [r]);
    UnquotedConcat(p, q);
    assert Unquoted(p) == [] && Unquoted(q) == [];
  }

  /** A record without a colon is not changed by the scan. */
  lemma {:induction false} QuoteNoColon(s: string)
    requires ':' !in s
    ensures Quote(s, false) == s
    decreases |s|
  {
    if s != [] {
      QuoteNoColon(s[1..]);
      assert [s[0]] + s[1..] == s;
    }
  }

  /** Inside a length, characters that neither start nor end one are
      copied. */
  lemma {:induction false} QuoteSpan(num: string, x: string)
    requires forall i :: 0 <= i < |num| ==> num[i] != ':' && !EndsLength(num[i])
    ensures Quote(num + x, true) == num + Quote(x, true)
    decreases |num|
  {
    if num == [] {
      assert num + x == x;
    } else {
      assert (num + x)[0] == num[0];
      assert (num + x)[1..] == num[1..] + x;
      QuoteSpan(num[1..], x);
    }
  }

  /** A length `:num` followed by a character that ends it is wrapped in
      double quotes, so the tokenizer sees the single string `":num"`. */
  lemma QuoteLength(num: string, t: char, rest: string)
    requires forall i :: 0 <= i < |num| ==> num[i] != ':' && !EndsLength(num[i])
    requires EndsLength(t)
    ensures Quote(":" + num + [t] + rest, false) == "\":" + num + "\"" + [t] + Quote(rest, false)
  {
    var s := ":" + num + [t] + rest;
    assert s[0] == ':' && s[1..] == num + ([t] + rest);
    QuoteSpan(num, [t] + rest);
    var u := [t] + rest;
    assert u[0] == t && u[1..] == rest;
  }

  /** A length anywhere in the text: after a prefix that does not end
      inside a length, ":num" followed by a terminator is wrapped in double
      quotes and the rest is scanned afresh. */
  lemma QuoteLengthAfter(p: string, num: string, t: char, rest: string)
    requires !Flag(p, false)
    requires forall i :: 0 <= i < |num| ==> num[i] != ':' && !EndsLength(num[i])
    requires EndsLength(t)
    ensures Quote(p + (":" + num + [t] + rest), false)
         == Quote(p, false) + "\":" + num + "\"" + [t] + Quote(rest, false)
  {
    QuoteConcat(p, ":" + num + [t] + rest, false);
    QuoteLength(num, t, rest);
  }

  /** The whole normalizer: the four replacements, then the scan. */
  method Normalize(tree: string) returns (out: string)
    ensures out == Quote(Rewrite(tree), false)
  {
    var t := ReplaceAll(tree, "[", "/*");
    t := ReplaceAll(t, "]", "*/");
    t := ReplaceAll(t, "'", "\"");
    t := ReplaceAll(t, "\"\"", "'");
    out := QuoteNumbers(t);
  }

  /** A label that printLabel quotes and that has no colon, double quote or
      bracket, and does not begin with an apostrophe (see
      LeadingApostropheBreaks), leaves the normalizer as its Go string
      literal. */
  lemma NormalizedQuotedLabel(name: string)
    requires ContainsAny(name, "(),")
    requires '"' !in name && '[' !in name && ']' !in name && ':' !in name
    requires name[0] != '\''
    ensures Quote(Rewrite(LabelText(name)), false) == "\"" + name + "\""
  {
    QuotedLabelRewrite(name);
    QuoteNoColon("\"" + name + "\"");
  }

  // ---------------------------------------------------------------------
  // Unquoted tokens (nwk.go:182-184)
  // ---------------------------------------------------------------------

  /** An unquoted token with every underscore read as a blank. */
  function UnquotedToken(text: string): (r: string)
    ensures '_' !in r
  {
    ReplaceCharRemoves(text, '_', " ");
    ReplaceAll(text, "_", " ")
  }

  /** On a label that printLabel does not quote, the underscore rule undoes
      printLabel's blank-to-underscore exactly when the label has no
      underscore of its own (an underscore comes back as a blank). */
  lemma PlainLabelRoundTrip(name: string)
    requires !ContainsAny(name, "(),")
    ensures '_' !in name ==> UnquotedToken(LabelText(name)) == name
    ensures '_' in name ==> UnquotedToken(LabelText(name)) != name
  {
    if '_' !in name {
      CharSwapRoundTrip(name, ' ', '_');
    }
  }

  /** The same through the normalizer: a label that printLabel does not
      quote and that has no apostrophe, double quote, bracket or colon
      passes the four replacements and the length scan unchanged, and the
      underscore rule then gives it back exactly when it has no underscore.
      That the text is a single token is left to the tokenizer. */
  lemma NormalizedPlainLabel(name: string)
    requires !ContainsAny(name, "(),")
    requires '\'' !in name && '"' !in name && '[' !in name && ']' !in name && ':' !in name
    ensures Quote(Rewrite(LabelText(name)), false) == LabelText(name)
    ensures '_' !in name ==> UnquotedToken(Quote(Rewrite(LabelText(name)), false)) == name
    ensures '_' in name ==> UnquotedToken(Quote(Rewrite(LabelText(name)), false)) != name
  {
    var w := LabelText(name);
    assert w == ReplaceAll(name, " ", "_");
    ReplaceAllNoNewChar(name, " ", "_", '\'');
    ReplaceAllNoNewChar(name, " ", "_", '"');
    ReplaceAllNoNewChar(name, " ", "_", '[');
    ReplaceAllNoNewChar(name, " ", "_", ']');
    ReplaceAllNoNewChar(name, " ", "_", ':');
    RewritePlain(w);
    QuoteNoColon(w);
    PlainLabelRoundTrip(name);
  }
}
