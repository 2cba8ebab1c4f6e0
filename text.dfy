/** String operations of the JavaScript runtime that the components rely on:
    `toLowerCase`, `includes`, `startsWith`, `trim`, `split`, `join` and the default
    `Array.prototype.sort` order on strings. Strings are sequences of characters. */
module Text {
  import opened Wrappers
  import opened Seqs

  /** JavaScript truthiness of an optional string: `null` and `""` are falsy. */
  predicate Truthy(s: Option<string>) {
    s.Some? && s.value != ""
  }

  predicate IsAsciiUpper(c: char) { 'A' <= c <= 'Z' }

  /** `toLowerCase` on one character, restricted to ASCII letters. */
  function LowerChar(c: char): (d: char)
    ensures !IsAsciiUpper(d)
    ensures !IsAsciiUpper(c) ==> d == c
  {
    if IsAsciiUpper(c) then (c as int - 'A' as int + 'a' as int) as char else c
  }

  /** `String.prototype.toLowerCase`, restricted to ASCII letters. */
  function Lower(s: string): (r: string)
    ensures |r| == |s|
    ensures forall i :: 0 <= i < |s| ==> r[i] == LowerChar(s[i])
    ensures forall i :: 0 <= i < |r| ==> !IsAsciiUpper(r[i])
  {
    seq(|s|, i requires 0 <= i < |s| => LowerChar(s[i]))
  }

  /** `s.startsWith(prefix)`. */
  predicate StartsWith(s: string, prefix: string) {
    |prefix| <= |s| && s[..|prefix|] == prefix
  }

  /** `hay.includes(needle)`: `needle` occurs at some position of `hay`. */
  predicate IsInfix(needle: string, hay: string)
    decreases |hay|
  {
    StartsWith(hay, needle) || (hay != [] && IsInfix(needle, hay[1..]))
  }

  /** The characters that JavaScript's `\s` and `trim` treat as white space
      (WhiteSpace and LineTerminator of ECMA-262). */
  predicate IsJsSpace(c: char) {
    c == ' ' || c == '\t' || c == '\n' || c == '\r' || c == '\U{000B}' || c == '\U{000C}' ||
    c == '\U{00A0}' || c == '\U{1680}' || ('\U{2000}' <= c <= '\U{200A}') ||
    c == '\U{2028}' || c == '\U{2029}' || c == '\U{202F}' || c == '\U{205F}' ||
    c == '\U{3000}' || c == '\U{FEFF}'
  }

  /** The characters at which a multi-line regular expression's `^` and `$` match
      and which `.` does not match. */
  predicate IsLineTerminator(c: char) {
    c == '\n' || c == '\r' || c == '\U{2028}' || c == '\U{2029}'
  }

  predicate NotLineTerminator(c: char) { !IsLineTerminator(c) }

  /** `s` holds no line terminator. */
  predicate OneLine(s: string) {
    '\n' !in s && '\r' !in s && '\U{2028}' !in s && '\U{2029}' !in s
  }

  function TrimStart(s: string): (r: string)
    ensures |r| <= |s| && r == s[|s| - |r|..]
    ensures r != [] ==> !IsJsSpace(r[0])
    ensures forall i :: 0 <= i < |s| - |r| ==> IsJsSpace(s[i])
  {
    if s != [] && IsJsSpace(s[0]) then TrimStart(s[1..]) else s
  }

  function TrimEnd(s: string): (r: string)
    ensures |r| <= |s| && r == s[..|r|]
    ensures r != [] ==> !IsJsSpace(r[|r| - 1])
    ensures forall i :: |r| <= i < |s| ==> IsJsSpace(s[i])
  {
    if s != [] && IsJsSpace(s[|s| - 1]) then TrimEnd(s[..|s| - 1]) else s
  }

  /** `String.prototype.trim`: white space removed at both ends. */
  function Trim(s: string): (r: string)
    ensures r != [] ==> !IsJsSpace(r[0]) && !IsJsSpace(r[|r| - 1])
    ensures IsInfix(r, s)
  {
    var t := TrimStart(s);
    var r := TrimEnd(t);
    InfixAt(s, |s| - |t|, r);
    r
  }

  /** A slice of `hay` is an infix of it. */
  lemma {:induction false} InfixAt(hay: string, i: nat, needle: string)
    requires i + |needle| <= |hay| && hay[i..i + |needle|] == needle
    ensures IsInfix(needle, hay)
    decreases i
  {
    if i > 0 {
      assert hay[1..][i - 1..i - 1 + |needle|] == hay[i..i + |needle|];
      InfixAt(hay[1..], i - 1, needle);
    }
  }

  /** A text that does not include `needle` has no occurrence of it anywhere. */
  lemma {:induction false} NotInfixNoOccurrence(needle: string, hay: string)
    requires !IsInfix(needle, hay)
    ensures forall j :: 0 <= j ==> !OccursAt(hay, needle, j)
    decreases |hay|
  {
    forall j | 0 <= j ensures !OccursAt(hay, needle, j) {
      if j > 0 && hay != [] {
        NotInfixNoOccurrence(needle, hay[1..]);
        assert !OccursAt(hay[1..], needle, j - 1);
        if j + |needle| <= |hay| {
          assert hay[1..][j - 1..j - 1 + |needle|] == hay[j..j + |needle|];
        }
      }
    }
  }

  /** `parts.join(sep)`. */
  function Join(parts: seq<string>, sep: string): string {
    if |parts| == 0 then ""
    else if |parts| == 1 then parts[0]
    else parts[0] + sep + Join(parts[1..], sep)
  }

  /** The first piece of a join over one separator character that no piece contains:
      it is the text up to the first separator, and the rest is the join of the rest. */
  lemma {:induction false} JoinHead(p: seq<string>, c: char)
    requires |p| >= 1 && forall i :: 0 <= i < |p| ==> c !in p[i]
    ensures |p[0]| <= |Join(p, [c])| && Join(p, [c])[..|p[0]|] == p[0]
    ensures forall k :: 0 <= k < |p[0]| ==> Join(p, [c])[k] != c
    ensures |p| == 1 <==> |Join(p, [c])| == |p[0]|
    ensures |p| > 1 ==> Join(p, [c])[|p[0]|] == c && Join(p, [c])[|p[0]| + 1..] == Join(p[1..], [c])
  {
    assert p[0] == p[0];
    if |p| > 1 {
      var s := Join(p, [c]);
      assert s == p[0] + [c] + Join(p[1..], [c]);
      assert s[..|p[0]|] == p[0];
      assert s[|p[0]| + 1..] == Join(p[1..], [c]);
    }
  }

  /** Pieces free of the separator character can be read back from their join. */
  lemma {:induction false} JoinInjective(p: seq<string>, q: seq<string>, c: char)
    requires |p| >= 1 && |q| >= 1
    requires forall i :: 0 <= i < |p| ==> c !in p[i]
    requires forall i :: 0 <= i < |q| ==> c !in q[i]
    requires Join(p, [c]) == Join(q, [c])
    ensures p == q
    decreases |p|
  {
    var s := Join(p, [c]);
    JoinHead(p, c);
    JoinHead(q, c);
    assert |p[0]| == |q[0]|;
    assert p[0] == q[0];
    if |p| > 1 {
      JoinInjective(p[1..], q[1..], c);
      assert p == [p[0]] + p[1..];
      assert q == [q[0]] + q[1..];
    }
  }

  /** `needle` occurs in `hay` starting at position `j`. */
  predicate OccursAt(hay: string, needle: string, j: nat) {
    j + |needle| <= |hay| && hay[j..j + |needle|] == needle
  }

  /** The position of the first occurrence of `sep` in `s`, or `|s|` if there is none. */
  function IndexOf(s: string, sep: string): (r: nat)
    requires sep != []
    ensures r <= |s|
    ensures r < |s| ==> OccursAt(s, sep, r)
    ensures forall j :: 0 <= j < r ==> !OccursAt(s, sep, j)
    ensures r == |s| ==> forall j :: 0 <= j <= |s| ==> !OccursAt(s, sep, j)
  {
    if |s| < |sep| then |s|
    else if s[..|sep|] == sep then 0
    else
      var k := IndexOf(s[1..], sep);
      forall j | 1 <= j <= |s| ensures OccursAt(s, sep, j) == OccursAt(s[1..], sep, j - 1) {
        if j + |sep| <= |s| {
          assert s[j..j + |sep|] == s[1..][j - 1..j - 1 + |sep|];
        }
      }
      1 + k
  }

  /** A text in which `needle` occurs at no position does not include it. */
  lemma {:induction false} NoOccurrenceNoInfix(needle: string, hay: string)
    requires forall j :: 0 <= j <= |hay| ==> !OccursAt(hay, needle, j)
    ensures !IsInfix(needle, hay)
    decreases |hay|
  {
    assert !OccursAt(hay, needle, 0);
    if hay != [] {
      forall j | 0 <= j <= |hay[1..]| ensures !OccursAt(hay[1..], needle, j) {
        assert !OccursAt(hay, needle, j + 1);
        if j + |needle| <= |hay[1..]| {
          assert hay[1..][j..j + |needle|] == hay[j + 1..j + 1 + |needle|];
        }
      }
      NoOccurrenceNoInfix(needle, hay[1..]);
    }
  }

  /** A text that does not include a one-character string holds no copy of that character. */
  lemma {:induction false} NotInfixNotMember(c: char, x: string)
    requires !IsInfix([c], x)
    ensures c !in x
    decreases |x|
  {
    if x != [] {
      assert x[..1] != [c];
      NotInfixNotMember(c, x[1..]);
      assert x == [x[0]] + x[1..];
    }
  }

  /** `s.split(sep)` for a non-empty separator string: the pieces between the
      non-overlapping occurrences of `sep`, scanning from the left. */
  function SplitOn(s: string, sep: string): (parts: seq<string>)
    requires sep != []
    ensures |parts| >= 1
    ensures Join(parts, sep) == s
    ensures forall k :: 0 <= k < |parts| ==> !IsInfix(sep, parts[k])
    decreases |s|
  {
    var i := IndexOf(s, sep);
    if i == |s| then
      NoOccurrenceNoInfix(sep, s);
      [s]
    else
      var rest := SplitOn(s[i + |sep|..], sep);
      var head := s[..i];
      forall j | 0 <= j <= |head| ensures !OccursAt(head, sep, j) {
        if j + |sep| <= |head| {
          assert head[j..j + |sep|] == s[j..j + |sep|];
          assert !OccursAt(s, sep, j);
        }
      }
      NoOccurrenceNoInfix(sep, head);
      assert s == head + sep + s[i + |sep|..];
      [head] + rest
  }

  /** The order `Array.prototype.sort` uses without a comparator, taken over
      characters (code points) rather than UTF-16 code units: a proper prefix comes
      first, otherwise the first differing character decides. */
  predicate LexLeq(a: string, b: string) {
    a == [] || (b != [] && (a[0] < b[0] || (a[0] == b[0] && LexLeq(a[1..], b[1..]))))
  }

  lemma {:induction false} LexLeqTotal(a: string, b: string)
    ensures LexLeq(a, b) || LexLeq(b, a)
  {
    if a != [] && b != [] && a[0] == b[0] {
      LexLeqTotal(a[1..], b[1..]);
    }
  }

  lemma {:induction false} LexLeqAntisymmetric(a: string, b: string)
    requires LexLeq(a, b) && LexLeq(b, a)
    ensures a == b
  {
    if a != [] && b != [] {
      LexLeqAntisymmetric(a[1..], b[1..]);
      assert a == [a[0]] + a[1..] && b == [b[0]] + b[1..];
    }
  }

  lemma {:induction false} LexLeqTransitive(a: string, b: string, c: string)
    requires LexLeq(a, b) && LexLeq(b, c)
    ensures LexLeq(a, c)
  {
    if a != [] && b != [] && c != [] && a[0] == b[0] && b[0] == c[0] {
      LexLeqTransitive(a[1..], b[1..], c[1..]);
    }
  }

  predicate SortedLex(s: seq<string>) {
    forall i, j :: 0 <= i < j < |s| ==> LexLeq(s[i], s[j])
  }

  /** Insert `x` into a sorted sequence before the first element not below it. */
  function InsertLex(x: string, s: seq<string>): (r: seq<string>)
    requires SortedLex(s)
    ensures multiset(r) == multiset(s) + multiset{x}
    ensures SortedLex(r)
  {
    if s == [] then [x]
    else if LexLeq(x, s[0]) then
      forall j | 0 <= j < |s| ensures LexLeq(x, s[j]) {
        if j > 0 { LexLeqTransitive(x, s[0], s[j]); }
      }
      [x] + s
    else
      LexLeqTotal(x, s[0]);
      var t := InsertLex(x, s[1..]);
      assert s == [s[0]] + s[1..];
      forall j | 0 <= j < |t| ensures LexLeq(s[0], t[j]) {
        assert t[j] in multiset(t);
        assert t[j] == x || t[j] in s[1..];
      }
      [s[0]] + t
  }

  /** `Array.prototype.sort()` on strings, as an insertion sort. */
  function SortLex(s: seq<string>): (r: seq<string>)
    ensures multiset(r) == multiset(s)
    ensures SortedLex(r)
  {
    if s == [] then []
    else
      assert s == [s[0]] + s[1..];
      InsertLex(s[0], SortLex(s[1..]))
  }
}
