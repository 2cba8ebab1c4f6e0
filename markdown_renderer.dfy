/** The Markdown renderer (`markdown-renderer.tsx`): `escapeHtml`, the line rewrites
    that turn `#`/`##`/`###` headings and `-`/`N.` list items into HTML elements, and
    the paragraph pass that splits the text at blank lines and wraps each chunk. */
module MarkdownRenderer {
  import opened Seqs
  import opened Text

  /* ---------------- escapeHtml ---------------- */

  /** `replace(/c/g, rep)` for one literal character `c`. */
  function ReplaceChar(s: string, c: char, rep: string): (r: string)
    ensures c !in rep ==> c !in r
    ensures forall x :: x in r ==> x in s || x in rep
    ensures |rep| >= 1 ==> |r| >= |s|
  {
    if s == [] then [] else (if s[0] == c then rep else [s[0]]) + ReplaceChar(s[1..], c, rep)
  }

  /** `escapeHtml`: `&` first, then `<`, `>`, `"` and `'`. */
  function EscapeHtml(text: string): (r: string)
    ensures '<' !in r && '>' !in r && '"' !in r && '\'' !in r
    ensures |r| >= |text|
  {
    ReplaceChar(ReplaceChar(ReplaceChar(ReplaceChar(ReplaceChar(
      text, '&', "&amp;"), '<', "&lt;"), '>', "&gt;"), '"', "&quot;"), '\'', "&#039;")
  }

  /** The escape of one character: its entity, or the character itself. */
  function EscapeChar(c: char): string {
    if c == '&' then "&amp;"
    else if c == '<' then "&lt;"
    else if c == '>' then "&gt;"
    else if c == '"' then "&quot;"
    else if c == '\'' then "&#039;"
    else [c]
  }

  /** Escaping character by character: a reference for the chain of replacements. */
  function EscapeEach(t: string): string {
    if t == [] then [] else EscapeChar(t[0]) + EscapeEach(t[1..])
  }

  lemma {:induction false} ReplaceCharAppend(a: string, b: string, c: char, rep: string)
    ensures ReplaceChar(a + b, c, rep) == ReplaceChar(a, c, rep) + ReplaceChar(b, c, rep)
  {
    if a != [] {
      var h := if a[0] == c then rep else [a[0]];
      assert (a + b)[0] == a[0] && (a + b)[1..] == a[1..] + b;
      assert ReplaceChar(a + b, c, rep) == h + ReplaceChar(a[1..] + b, c, rep);
      assert ReplaceChar(a, c, rep) == h + ReplaceChar(a[1..], c, rep);
      ReplaceCharAppend(a[1..], b, c, rep);
      AppendAssoc(h, ReplaceChar(a[1..], c, rep), ReplaceChar(b, c, rep));
    } else {
      assert a + b == b;
    }
  }

  lemma EscapeHtmlAppend(a: string, b: string)
    ensures EscapeHtml(a + b) == EscapeHtml(a) + EscapeHtml(b)
  {
    var a1, b1 := ReplaceChar(a, '&', "&amp;"), ReplaceChar(b, '&', "&amp;");
    ReplaceCharAppend(a, b, '&', "&amp;");
    var a2, b2 := ReplaceChar(a1, '<', "&lt;"), ReplaceChar(b1, '<', "&lt;");
    ReplaceCharAppend(a1, b1, '<', "&lt;");
    var a3, b3 := ReplaceChar(a2, '>', "&gt;"), ReplaceChar(b2, '>', "&gt;");
    ReplaceCharAppend(a2, b2, '>', "&gt;");
    var a4, b4 := ReplaceChar(a3, '"', "&quot;"), ReplaceChar(b3, '"', "&quot;");
    ReplaceCharAppend(a3, b3, '"', "&quot;");
    ReplaceCharAppend(a4, b4, '\'', "&#039;");
  }

  /** Replacing a character that does not occur changes nothing. */
  lemma {:induction false} ReplaceCharAbsent(s: string, c: char, rep: string)
    requires c !in s
    ensures ReplaceChar(s, c, rep) == s
  {
    if s != [] {
      assert c !in s[1..];
      ReplaceCharAbsent(s[1..], c, rep);
      assert s == [s[0]] + s[1..];
    }
  }

  lemma ReplaceCharOne(x: char, c: char, rep: string)
    ensures ReplaceChar([x], c, rep) == if x == c then rep else [x]
  {
    assert [x][1..] == [];
  }

  /** Once `&` is replaced, a text free of the four other characters is left alone. */
  lemma AfterAmp(s: string)
    requires '<' !in s && '>' !in s && '"' !in s && '\'' !in s
    ensures ReplaceChar(ReplaceChar(ReplaceChar(ReplaceChar(s, '<', "&lt;"), '>', "&gt;"), '"', "&quot;"), '\'', "&#039;") == s
  {
    ReplaceCharAbsent(s, '<', "&lt;");
    AfterLt(s);
  }

  lemma AfterLt(s: string)
    requires '>' !in s && '"' !in s && '\'' !in s
    ensures ReplaceChar(ReplaceChar(ReplaceChar(s, '>', "&gt;"), '"', "&quot;"), '\'', "&#039;") == s
  {
    ReplaceCharAbsent(s, '>', "&gt;");
    AfterGt(s);
  }

  lemma AfterGt(s: string)
    requires '"' !in s && '\'' !in s
    ensures ReplaceChar(ReplaceChar(s, '"', "&quot;"), '\'', "&#039;") == s
  {
    ReplaceCharAbsent(s, '"', "&quot;");
    ReplaceCharAbsent(s, '\'', "&#039;");
  }

  lemma EscapeHtmlChar(c: char)
    ensures EscapeHtml([c]) == EscapeChar(c)
  {
    ReplaceCharOne(c, '&', "&amp;");
    if c == '&' {
      assert '<' !in "&amp;" && '>' !in "&amp;" && '"' !in "&amp;" && '\'' !in "&amp;";
      AfterAmp("&amp;");
    } else {
      ReplaceCharOne(c, '<', "&lt;");
      if c == '<' {
        assert '>' !in "&lt;" && '"' !in "&lt;" && '\'' !in "&lt;";
        AfterLt("&lt;");
      } else {
        ReplaceCharOne(c, '>', "&gt;");
        if c == '>' {
          assert '"' !in "&gt;" && '\'' !in "&gt;";
          AfterGt("&gt;");
        } else {
          ReplaceCharOne(c, '"', "&quot;");
          if c == '"' {
            assert '\'' !in "&quot;";
            ReplaceCharAbsent("&quot;", '\'', "&#039;");
          } else {
            ReplaceCharOne(c, '\'', "&#039;");
          }
        }
      }
    }
  }

  /** The five replacements act on each character separately, and every character
      other than the five is left as it is. */
  lemma {:induction false} EscapeHtmlPerChar(t: string)
    ensures EscapeHtml(t) == EscapeEach(t)
  {
    if t != [] {
      assert t == [t[0]] + t[1..];
      EscapeHtmlAppend([t[0]], t[1..]);
      EscapeHtmlChar(t[0]);
      EscapeHtmlPerChar(t[1..]);
    }
  }

  /** Decoding the five entities, left to right. */
  function Unescape(s: string): string
    decreases |s|
  {
    if s == [] then []
    else if StartsWith(s, "&amp;") then "&" + Unescape(s[5..])
    else if StartsWith(s, "&lt;") then "<" + Unescape(s[4..])
    else if StartsWith(s, "&gt;") then ">" + Unescape(s[4..])
    else if StartsWith(s, "&quot;") then "\"" + Unescape(s[6..])
    else if StartsWith(s, "&#039;") then "'" + Unescape(s[6..])
    else [s[0]] + Unescape(s[1..])
  }

  lemma NotStartsWith(s: string, prefix: string, k: nat)
    requires k < |prefix| && (k >= |s| || s[k] != prefix[k])
    ensures !StartsWith(s, prefix)
  {
    if |prefix| <= |s| {
      assert s[..|prefix|][k] == s[k];
    }
  }

  lemma StartsWithAppend(prefix: string, e: string)
    ensures StartsWith(prefix + e, prefix) && (prefix + e)[|prefix|..] == e
  {
    assert (prefix + e)[..|prefix|] == prefix;
  }

  lemma UnescapeAmp(e: string)
    ensures Unescape("&amp;" + e) == "&" + Unescape(e)
  {
    StartsWithAppend("&amp;", e);
  }

  lemma UnescapeLt(e: string)
    ensures Unescape("&lt;" + e) == "<" + Unescape(e)
  {
    var s := "&lt;" + e;
    assert s[1] == 'l' && "&amp;"[1] == 'a';
    NotStartsWith(s, "&amp;", 1);
    StartsWithAppend("&lt;", e);
  }

  lemma UnescapeGt(e: string)
    ensures Unescape("&gt;" + e) == ">" + Unescape(e)
  {
    var s := "&gt;" + e;
    assert s[1] == 'g' && "&amp;"[1] == 'a' && "&lt;"[1] == 'l';
    NotStartsWith(s, "&amp;", 1);
    NotStartsWith(s, "&lt;", 1);
    StartsWithAppend("&gt;", e);
  }

  lemma UnescapeQuot(e: string)
    ensures Unescape("&quot;" + e) == "\"" + Unescape(e)
  {
    var s := "&quot;" + e;
    assert s[1] == 'q' && "&amp;"[1] == 'a' && "&lt;"[1] == 'l' && "&gt;"[1] == 'g';
    NotStartsWith(s, "&amp;", 1);
    NotStartsWith(s, "&lt;", 1);
    NotStartsWith(s, "&gt;", 1);
    StartsWithAppend("&quot;", e);
  }

  lemma UnescapeApos(e: string)
    ensures Unescape("&#039;" + e) == "'" + Unescape(e)
  {
    var s := "&#039;" + e;
    assert s[1] == '#' && "&amp;"[1] == 'a' && "&lt;"[1] == 'l' && "&gt;"[1] == 'g' && "&quot;"[1] == 'q';
    NotStartsWith(s, "&amp;", 1);
    NotStartsWith(s, "&lt;", 1);
    NotStartsWith(s, "&gt;", 1);
    NotStartsWith(s, "&quot;", 1);
    StartsWithAppend("&#039;", e);
  }

  /** A character other than `&` is read back as itself. */
  lemma UnescapePlain(c: char, e: string)
    requires c != '&'
    ensures Unescape([c] + e) == [c] + Unescape(e)
  {
    var s := [c] + e;
    assert s[0] == c && "&amp;"[0] == '&' && "&lt;"[0] == '&' && "&gt;"[0] == '&';
    assert "&quot;"[0] == '&' && "&#039;"[0] == '&';
    NotStartsWith(s, "&amp;", 0);
    NotStartsWith(s, "&lt;", 0);
    NotStartsWith(s, "&gt;", 0);
    NotStartsWith(s, "&quot;", 0);
    NotStartsWith(s, "&#039;", 0);
    assert s[1..] == e;
  }

  /** Decoding reads back one escaped character and goes on after it. */
  lemma UnescapeEscapeChar(c: char, e: string)
    ensures Unescape(EscapeChar(c) + e) == [c] + Unescape(e)
  {
    if c == '&' {
      UnescapeAmp(e);
    } else if c == '<' {
      UnescapeLt(e);
    } else if c == '>' {
      UnescapeGt(e);
    } else if c == '"' {
      UnescapeQuot(e);
    } else if c == '\'' {
      UnescapeApos(e);
    } else {
      UnescapePlain(c, e);
    }
  }

  lemma {:induction false} UnescapeEscapeEach(t: string)
    ensures Unescape(EscapeEach(t)) == t
  {
    if t != [] {
      UnescapeEscapeEach(t[1..]);
      UnescapeEscapeChar(t[0], EscapeEach(t[1..]));
      assert t == [t[0]] + t[1..];
    }
  }

  /** Because `&` is escaped first, decoding the entities gives the text back. */
  lemma UnescapeEscapeHtml(t: string)
    ensures Unescape(EscapeHtml(t)) == t
  {
    EscapeHtmlPerChar(t);
    UnescapeEscapeEach(t);
  }

  /* ---------------- line rewrites ---------------- */

  /** `replace(/^…$/gm, …)` for a pattern whose match always spans a whole line:
      each line (text between line terminators) is replaced by `f` of it. */
  function MapLines(s: string, f: string -> string): string
    decreases |s|
  {
    var e := RunEnd(s, 0, NotLineTerminator);
    if e == |s| then f(s) else f(s[..e]) + [s[e]] + MapLines(s[e + 1..], f)
  }

  lemma OneLineRun(x: string)
    requires OneLine(x)
    ensures forall k :: 0 <= k < |x| ==> NotLineTerminator(x[k])
  {
    forall k | 0 <= k < |x| ensures NotLineTerminator(x[k]) {
      assert x[k] in x;
    }
  }

  /** The text before a run of non-terminators ends is one line. */
  lemma RunOneLine(s: string, e: nat)
    requires e <= |s| && forall k :: 0 <= k < e ==> NotLineTerminator(s[k])
    ensures OneLine(s[..e])
  {
    var line := s[..e];
    forall c | c in line ensures NotLineTerminator(c) {
      var k :| 0 <= k < e && line[k] == c;
    }
  }

  /** A single line is rewritten as a whole. */
  lemma MapLinesOneLine(x: string, g: string -> string)
    requires OneLine(x)
    ensures MapLines(x, g) == g(x)
  {
    OneLineRun(x);
    RunEndUnique(x, 0, NotLineTerminator, |x|);
  }

  /** A line, a terminator, and the rest: the line is rewritten and the rest follows. */
  lemma MapLinesSplit(x: string, c: char, rest: string, g: string -> string)
    requires OneLine(x) && !NotLineTerminator(c)
    ensures MapLines(x + [c] + rest, g) == g(x) + [c] + MapLines(rest, g)
  {
    var t := x + [c] + rest;
    OneLineRun(x);
    assert t[|x|] == c;
    forall k | 0 <= k < |x| ensures NotLineTerminator(t[k]) {
      assert t[k] == x[k];
    }
    RunEndUnique(t, 0, NotLineTerminator, |x|);
    assert t[..|x|] == x && t[|x| + 1..] == rest;
  }

  /** Two line rewrites in a row are one line rewrite, when the first one keeps
      every line on one line. */
  lemma {:induction false} MapLinesCompose(s: string, f: string -> string, g: string -> string, h: string -> string)
    requires forall x :: OneLine(x) ==> OneLine(f(x)) && h(x) == g(f(x))
    ensures MapLines(MapLines(s, f), g) == MapLines(s, h)
    decreases |s|
  {
    var e := RunEnd(s, 0, NotLineTerminator);
    RunOneLine(s, e);
    var line := s[..e];
    if e == |s| {
      assert line == s;
      MapLinesOneLine(f(line), g);
    } else {
      MapLinesSplit(f(line), s[e], MapLines(s[e + 1..], f), g);
      MapLinesCompose(s[e + 1..], f, g, h);
    }
  }

  /** An opening tag with a class attribute: `<name class="c1 c2 …">`. */
  function OpenTag(name: string, classes: seq<string>): string {
    "<" + name + " class=\"" + Join(classes, " ") + "\">"
  }

  lemma {:induction false} JoinOneLine(parts: seq<string>, sep: string)
    requires OneLine(sep) && forall i :: 0 <= i < |parts| ==> OneLine(parts[i])
    ensures OneLine(Join(parts, sep))
  {
    if |parts| > 1 {
      JoinOneLine(parts[1..], sep);
    }
  }

  /** An opening tag built from one-line pieces is one line and opens with `<`. */
  lemma OpenTagShape(name: string, classes: seq<string>)
    requires OneLine(name) && forall i :: 0 <= i < |classes| ==> OneLine(classes[i])
    ensures OneLine(OpenTag(name, classes))
    ensures OpenTag(name, classes) != [] && OpenTag(name, classes)[0] == '<'
  {
    JoinOneLine(classes, " ");
  }

  const H3Open: string := OpenTag("h3", ["text-lg", "font-semibold", "mt-6", "mb-2"])
  const H2Open: string := OpenTag("h2", ["text-xl", "font-semibold", "mt-8", "mb-3"])
  const H1Open: string := OpenTag("h1", ["text-2xl", "font-bold", "mt-8", "mb-4"])
  const DiscOpen: string := OpenTag("li", ["ml-4", "list-disc"])
  const DecimalOpen: string := OpenTag("li", ["ml-4", "list-decimal"])

  lemma H3OpenShape()
    ensures OneLine(H3Open) && H3Open != [] && H3Open[0] == '<'
  {
    var classes := ["text-lg", "font-semibold", "mt-6", "mb-2"];
    assert OneLine("text-lg") && OneLine("font-semibold") && OneLine("mt-6") && OneLine("mb-2");
    OpenTagShape("h3", classes);
  }

  lemma H2OpenShape()
    ensures OneLine(H2Open) && H2Open != [] && H2Open[0] == '<'
  {
    var classes := ["text-xl", "font-semibold", "mt-8", "mb-3"];
    assert OneLine("text-xl") && OneLine("font-semibold") && OneLine("mt-8") && OneLine("mb-3");
    OpenTagShape("h2", classes);
  }

  lemma H1OpenShape()
    ensures OneLine(H1Open) && H1Open != [] && H1Open[0] == '<'
  {
    var classes := ["text-2xl", "font-bold", "mt-8", "mb-4"];
    assert OneLine("text-2xl") && OneLine("font-bold") && OneLine("mt-8") && OneLine("mb-4");
    OpenTagShape("h1", classes);
  }

  lemma DiscOpenShape()
    ensures OneLine(DiscOpen) && DiscOpen != [] && DiscOpen[0] == '<'
  {
    assert OneLine("ml-4") && OneLine("list-disc");
    OpenTagShape("li", ["ml-4", "list-disc"]);
  }

  lemma DecimalOpenShape()
    ensures OneLine(DecimalOpen) && DecimalOpen != [] && DecimalOpen[0] == '<'
  {
    assert OneLine("ml-4") && OneLine("list-decimal");
    OpenTagShape("li", ["ml-4", "list-decimal"]);
  }

  /** A line `prefix` + at least one more character becomes `open` + the rest + `close`. */
  function PrefixRule(line: string, prefix: string, open: string, close: string): (r: string)
    ensures OneLine(line) && OneLine(open) && OneLine(close) ==> OneLine(r)
  {
    if StartsWith(line, prefix) && |line| > |prefix| then
      assert forall x :: x in line[|prefix|..] ==> x in line;
      open + line[|prefix|..] + close
    else line
  }

  /** A line that is `prefix` and at least one more character is rewritten. */
  lemma PrefixRuleHit(prefix: string, rest: string, open: string, close: string)
    requires rest != []
    ensures PrefixRule(prefix + rest, prefix, open, close) == open + rest + close
  {
    var line := prefix + rest;
    assert line[..|prefix|] == prefix && line[|prefix|..] == rest;
  }

  /** A line that differs from `prefix` at position `k` is left alone. */
  lemma PrefixRuleMiss(line: string, prefix: string, open: string, close: string, k: nat)
    requires k < |prefix| && (k >= |line| || line[k] != prefix[k])
    ensures PrefixRule(line, prefix, open, close) == line
  {
    if |line| > |prefix| {
      assert line[..|prefix|][k] == line[k];
    }
  }

  /** `/^### (.+)$/gm`. */
  function H3Rule(line: string): string { PrefixRule(line, "### ", H3Open, "</h3>") }

  /** `/^## (.+)$/gm`. */
  function H2Rule(line: string): string { PrefixRule(line, "## ", H2Open, "</h2>") }

  /** `/^# (.+)$/gm`. */
  function H1Rule(line: string): string { PrefixRule(line, "# ", H1Open, "</h1>") }

  /** `/^- (.+)$/gm`. */
  function DiscRule(line: string): string { PrefixRule(line, "- ", DiscOpen, "</li>") }

  predicate IsDigit(c: char) { '0' <= c <= '9' }

  /** `/^(\d+)\. (.+)$/gm`: the digits must be followed by `. ` and at least one
      more character; the number itself is dropped. */
  function DecimalRule(line: string): string {
    var d := RunEnd(line, 0, IsDigit);
    if d >= 1 && d + 2 < |line| && line[d] == '.' && line[d + 1] == ' ' then
      DecimalOpen + line[d + 2..] + "</li>"
    else line
  }

  /** No rule ever breaks a line in two. */
  lemma RulesKeepOneLine(line: string)
    requires OneLine(line)
    ensures OneLine(H3Rule(line)) && OneLine(H2Rule(line)) && OneLine(H1Rule(line))
    ensures OneLine(DiscRule(line)) && OneLine(DecimalRule(line))
  {
    H3OpenShape();
    H2OpenShape();
    H1OpenShape();
    DiscOpenShape();
    DecimalOpenShape();
    assert OneLine("</h3>") && OneLine("</h2>") && OneLine("</h1>") && OneLine("</li>");
    var d := RunEnd(line, 0, IsDigit);
    if d >= 1 && d + 2 < |line| && line[d] == '.' && line[d + 1] == ' ' {
      assert forall x :: x in line[d + 2..] ==> x in line;
    }
  }

  /** The heading replacements, in the source's order. */
  function HeadingPass(s: string): string {
    MapLines(MapLines(MapLines(s, H3Rule), H2Rule), H1Rule)
  }

  /** The list replacements, in the source's order. */
  function ListPass(s: string): string {
    MapLines(MapLines(s, DiscRule), DecimalRule)
  }

  function ThroughH2(line: string): string { H2Rule(H3Rule(line)) }
  function ThroughHeadings(line: string): string { H1Rule(ThroughH2(line)) }
  function ThroughDisc(line: string): string { DiscRule(ThroughHeadings(line)) }

  /** What the five replacements together do to one line. */
  function RewriteLine(line: string): string { DecimalRule(ThroughDisc(line)) }

  /** The five passes over the text rewrite it line by line. */
  lemma LinePasses(s: string)
    ensures ListPass(HeadingPass(s)) == MapLines(s, RewriteLine)
  {
    forall x | OneLine(x) ensures OneLine(H3Rule(x)) && OneLine(ThroughH2(x)) && OneLine(ThroughHeadings(x)) && OneLine(ThroughDisc(x)) {
      RulesKeepOneLine(x);
      RulesKeepOneLine(H3Rule(x));
      RulesKeepOneLine(ThroughH2(x));
      RulesKeepOneLine(ThroughHeadings(x));
    }
    MapLinesCompose(s, H3Rule, H2Rule, ThroughH2);
    MapLinesCompose(s, ThroughH2, H1Rule, ThroughHeadings);
    MapLinesCompose(s, ThroughHeadings, DiscRule, ThroughDisc);
    MapLinesCompose(s, ThroughDisc, DecimalRule, RewriteLine);
  }

  /** A line that starts with `<` is left alone by every rule. */
  lemma TagLineUnchanged(line: string)
    requires line != [] && line[0] == '<'
    ensures H2Rule(line) == line && H1Rule(line) == line
    ensures DiscRule(line) == line && DecimalRule(line) == line
  {
    PrefixRuleMiss(line, "## ", H2Open, "</h2>", 0);
    PrefixRuleMiss(line, "# ", H1Open, "</h1>", 0);
    PrefixRuleMiss(line, "- ", DiscOpen, "</li>", 0);
    assert !IsDigit(line[0]);
  }

  /** `### x` becomes an `h3`, and never an `h2` or an `h1`. */
  lemma H3Line(x: string)
    requires x != []
    ensures RewriteLine("### " + x) == H3Open + x + "</h3>"
  {
    H3OpenShape();
    PrefixRuleHit("### ", x, H3Open, "</h3>");
    TagLineUnchanged(H3Open + x + "</h3>");
  }

  /** `## x` becomes an `h2`. */
  lemma H2Line(x: string)
    requires x != []
    ensures RewriteLine("## " + x) == H2Open + x + "</h2>"
  {
    H2OpenShape();
    var line := "## " + x;
    PrefixRuleMiss(line, "### ", H3Open, "</h3>", 2);
    PrefixRuleHit("## ", x, H2Open, "</h2>");
    TagLineUnchanged(H2Open + x + "</h2>");
  }

  /** `# x` becomes an `h1`. */
  lemma H1Line(x: string)
    requires x != []
    ensures RewriteLine("# " + x) == H1Open + x + "</h1>"
  {
    H1OpenShape();
    var line := "# " + x;
    PrefixRuleMiss(line, "### ", H3Open, "</h3>", 1);
    PrefixRuleMiss(line, "## ", H2Open, "</h2>", 1);
    PrefixRuleHit("# ", x, H1Open, "</h1>");
    TagLineUnchanged(H1Open + x + "</h1>");
  }

  /** `- x` becomes a disc list item. */
  lemma DiscLine(x: string)
    requires x != []
    ensures RewriteLine("- " + x) == DiscOpen + x + "</li>"
  {
    DiscOpenShape();
    var line := "- " + x;
    PrefixRuleMiss(line, "### ", H3Open, "</h3>", 0);
    PrefixRuleMiss(line, "## ", H2Open, "</h2>", 0);
    PrefixRuleMiss(line, "# ", H1Open, "</h1>", 0);
    PrefixRuleHit("- ", x, DiscOpen, "</li>");
    TagLineUnchanged(DiscOpen + x + "</li>");
  }

  /** `N. x` becomes a decimal list item. */
  lemma DecimalLine(digits: string, x: string)
    requires digits != [] && forall k :: 0 <= k < |digits| ==> IsDigit(digits[k])
    requires x != []
    ensures RewriteLine(digits + ". " + x) == DecimalOpen + x + "</li>"
  {
    var line := digits + ". " + x;
    assert line[0] == digits[0] && IsDigit(line[0]);
    PrefixRuleMiss(line, "### ", H3Open, "</h3>", 0);
    PrefixRuleMiss(line, "## ", H2Open, "</h2>", 0);
    PrefixRuleMiss(line, "# ", H1Open, "</h1>", 0);
    PrefixRuleMiss(line, "- ", DiscOpen, "</li>", 0);
    assert line[|digits|] == '.' && line[|digits| + 1] == ' ';
    forall k | 0 <= k < |digits| ensures IsDigit(line[k]) {
      assert line[k] == digits[k];
    }
    RunEndUnique(line, 0, IsDigit, |digits|);
    assert line[|digits| + 2..] == x;
  }

  /** A line opening with four or more `#` is not a heading: it is left as it is. */
  lemma DeepHeadingUnchanged(line: string)
    requires StartsWith(line, "####")
    ensures RewriteLine(line) == line
  {
    assert line[..4] == "####";
    assert line[0] == '#' && line[1] == '#' && line[2] == '#' && line[3] == '#';
    PrefixRuleMiss(line, "### ", H3Open, "</h3>", 3);
    PrefixRuleMiss(line, "## ", H2Open, "</h2>", 2);
    PrefixRuleMiss(line, "# ", H1Open, "</h1>", 1);
    PrefixRuleMiss(line, "- ", DiscOpen, "</li>", 0);
    assert !IsDigit(line[0]);
  }

  /* ---------------- paragraphs ---------------- */

  const UlOpen: string := OpenTag("ul", ["my-4", "space-y-1"])
  const POpen: string := OpenTag("p", ["text-muted-foreground", "leading-relaxed", "my-4"])

  lemma UlOpenShape()
    ensures OneLine(UlOpen) && UlOpen != [] && UlOpen[0] == '<'
  {
    assert OneLine("my-4") && OneLine("space-y-1");
    OpenTagShape("ul", ["my-4", "space-y-1"]);
  }

  lemma POpenShape()
    ensures OneLine(POpen) && POpen != [] && POpen[0] == '<'
  {
    assert OneLine("text-muted-foreground") && OneLine("leading-relaxed") && OneLine("my-4");
    OpenTagShape("p", ["text-muted-foreground", "leading-relaxed", "my-4"]);
  }

  /** The chunk already opens an element the paragraph pass leaves alone. */
  predicate OpensBlock(chunk: string) {
    StartsWith(chunk, "<h") || StartsWith(chunk, "<pre") || StartsWith(chunk, "<li") ||
    StartsWith(chunk, "<ul") || StartsWith(chunk, "<ol")
  }

  /** The `map` callback of the paragraph pass. */
  function WrapChunk(chunk: string): (r: string)
    ensures OpensBlock(chunk) ==> r == chunk
    ensures !OpensBlock(chunk) && StartsWith(Trim(chunk), "<li") ==> r == UlOpen + chunk + "</ul>"
    ensures !OpensBlock(chunk) && !StartsWith(Trim(chunk), "<li") ==> r == POpen + chunk + "</p>"
  {
    if OpensBlock(chunk) then chunk
    else if StartsWith(Trim(chunk), "<li") then UlOpen + chunk + "</ul>"
    else POpen + chunk + "</p>"
  }

  /** The chunks between blank lines (`split("\n\n")`), each wrapped. */
  function Blocks(s: string): (bs: seq<string>)
    ensures |bs| == |SplitOn(s, "\n\n")|
  {
    var cs := SplitOn(s, "\n\n");
    seq(|cs|, i requires 0 <= i < |cs| => WrapChunk(cs[i]))
  }

  /** The paragraph pass: the wrapped chunks, joined with nothing between them. */
  function ParagraphPass(s: string): string {
    Join(Blocks(s), "")
  }

  /** The whole rewrite after the code passes: headings, lists, paragraphs. */
  function RenderBlocks(afterCode: string): string {
    ParagraphPass(ListPass(HeadingPass(afterCode)))
  }

  /** No two newlines in a row. */
  predicate NoBlankLine(x: string) {
    forall i :: 0 <= i < |x| - 1 ==> !(x[i] == '\n' && x[i + 1] == '\n')
  }

  lemma NotInfixNoBlankLine(x: string)
    requires !IsInfix("\n\n", x)
    ensures NoBlankLine(x)
  {
    NotInfixNoOccurrence("\n\n", x);
    forall i | 0 <= i < |x| - 1 ensures !(x[i] == '\n' && x[i + 1] == '\n') {
      assert !OccursAt(x, "\n\n", i);
      assert x[i..i + 2] == [x[i], x[i + 1]];
    }
  }

  lemma OneLineNoBlankLine(x: string)
    requires OneLine(x)
    ensures NoBlankLine(x)
  {
    forall i | 0 <= i < |x| - 1 ensures x[i] != '\n' {
      assert x[i] in x;
    }
  }

  lemma ConcatNoBlankLine(a: string, b: string)
    requires NoBlankLine(a) && NoBlankLine(b)
    requires a == [] || b == [] || a[|a| - 1] != '\n' || b[0] != '\n'
    ensures NoBlankLine(a + b)
  {
    var ab := a + b;
    forall i | 0 <= i < |ab| - 1 ensures !(ab[i] == '\n' && ab[i + 1] == '\n') {
      if i + 1 < |a| {
        assert ab[i] == a[i] && ab[i + 1] == a[i + 1];
      } else if i >= |a| {
        assert ab[i] == b[i - |a|] && ab[i + 1] == b[i - |a| + 1];
      }
    }
  }

  /** A chunk free of blank lines stays free of them once wrapped, and the wrapped
      block opens with `<`. */
  lemma WrapChunkNoBlankLine(chunk: string)
    requires NoBlankLine(chunk)
    requires OpensBlock(chunk) ==> chunk != [] && chunk[0] == '<'
    ensures NoBlankLine(WrapChunk(chunk))
    ensures WrapChunk(chunk) != [] && WrapChunk(chunk)[0] == '<'
  {
    if !OpensBlock(chunk) {
      UlOpenShape();
      POpenShape();
      var open := if StartsWith(Trim(chunk), "<li") then UlOpen else POpen;
      var close := if StartsWith(Trim(chunk), "<li") then "</ul>" else "</p>";
      OneLineNoBlankLine(open);
      OneLineNoBlankLine(close);
      ConcatNoBlankLine(open, chunk);
      ConcatNoBlankLine(open + chunk, close);
      assert (open + chunk + close)[0] == open[0];
    }
  }

  lemma {:induction false} JoinNoBlankLine(bs: seq<string>)
    requires forall i :: 0 <= i < |bs| ==> NoBlankLine(bs[i]) && bs[i] != [] && bs[i][0] == '<'
    ensures NoBlankLine(Join(bs, ""))
    ensures bs != [] ==> Join(bs, "") != [] && Join(bs, "")[0] == '<'
  {
    if |bs| > 1 {
      JoinNoBlankLine(bs[1..]);
      var rest := Join(bs[1..], "");
      assert Join(bs, "") == bs[0] + rest;
      ConcatNoBlankLine(bs[0], rest);
    }
  }

  /** After the paragraph pass no blank line is left: every `\n\n` separator has
      been consumed and every block opens with a tag. */
  lemma ParagraphPassNoBlankLine(s: string)
    ensures NoBlankLine(ParagraphPass(s))
    ensures ParagraphPass(s) != [] && ParagraphPass(s)[0] == '<'
  {
    var cs := SplitOn(s, "\n\n");
    var bs := Blocks(s);
    forall i | 0 <= i < |bs| ensures NoBlankLine(bs[i]) && bs[i] != [] && bs[i][0] == '<' {
      NotInfixNoBlankLine(cs[i]);
      WrapChunkNoBlankLine(cs[i]);
    }
    JoinNoBlankLine(bs);
  }

  /** Every chunk comes back out of its block: the blocks, unwrapped and joined with
      blank lines, give back the text. */
  function Unwrap(chunk: string, block: string): string {
    if OpensBlock(chunk) then block
    else if StartsWith(Trim(chunk), "<li") then
      if |UlOpen| + |"</ul>"| <= |block| then block[|UlOpen|..|block| - |"</ul>"|] else block
    else if |POpen| + |"</p>"| <= |block| then block[|POpen|..|block| - |"</p>"|] else block
  }

  lemma UnwrapWrapChunk(chunk: string)
    ensures Unwrap(chunk, WrapChunk(chunk)) == chunk
  {
    var b := WrapChunk(chunk);
    if !OpensBlock(chunk) {
      if StartsWith(Trim(chunk), "<li") {
        assert b[|UlOpen|..|b| - |"</ul>"|] == chunk;
      } else {
        assert b[|POpen|..|b| - |"</p>"|] == chunk;
      }
    }
  }

  /** The blocks, each unwrapped against the chunk it came from. */
  function Unwrapped(s: string): (us: seq<string>)
    ensures |us| == |SplitOn(s, "\n\n")|
  {
    var cs := SplitOn(s, "\n\n");
    var bs := Blocks(s);
    seq(|bs|, i requires 0 <= i < |bs| => Unwrap(cs[i], bs[i]))
  }

  /** The paragraph pass keeps every chunk: there is one block per chunk, and
      unwrapping the blocks and joining them with blank lines restores the text. */
  lemma ParagraphPassKeepsText(s: string)
    ensures |Blocks(s)| == |SplitOn(s, "\n\n")|
    ensures Join(Unwrapped(s), "\n\n") == s
  {
    var cs := SplitOn(s, "\n\n");
    var us := Unwrapped(s);
    forall i | 0 <= i < |us| ensures us[i] == cs[i] {
      UnwrapWrapChunk(cs[i]);
    }
    assert us == cs;
  }
}
