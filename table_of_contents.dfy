/** The table of contents of a note (`table-of-contents.tsx`): the note text has its
    escaped newlines restored, the multi-line pattern `^(#{1,3})\s+(.+)$` is run over
    it with `exec` until it finds no more matches, and every match becomes an entry
    whose anchor id is a slug of the heading text. */
module TableOfContents {
  import opened Wrappers
  import opened Seqs
  import opened Text

  /** One entry: anchor id, heading text and heading level. */
  datatype TocItem = TocItem(id: string, text: string, level: nat)

  /* ---------------- escaped newlines ---------------- */

  /** No backslash is directly followed by `n`. */
  predicate NoEscapedNewline(s: string) {
    forall i :: 0 <= i < |s| - 1 ==> !(s[i] == '\\' && s[i + 1] == 'n')
  }

  /** `replace(/\\n/g, '\n')`: every two-character sequence backslash, `n` becomes a
      newline, scanning from the left. */
  function Normalize(s: string): (r: string)
    ensures |r| <= |s|
    ensures s != [] ==> r != [] && (r[0] == '\n' || r[0] == s[0])
    ensures NoEscapedNewline(r)
    decreases |s|
  {
    if |s| >= 2 && s[0] == '\\' && s[1] == 'n' then "\n" + Normalize(s[2..])
    else if s == [] then []
    else
      var rest := Normalize(s[1..]);
      assert s[0] == '\\' && rest != [] ==> rest[0] != 'n';
      [s[0]] + rest
  }

  /** Writing every newline as backslash, `n`: what `Normalize` undoes. */
  function EscapeNewlines(t: string): (r: string)
    ensures t != [] ==> r != [] && r[0] == (if t[0] == '\n' then '\\' else t[0])
  {
    if t == [] then [] else (if t[0] == '\n' then "\\n" else [t[0]]) + EscapeNewlines(t[1..])
  }

  /** Text with real newlines survives being escaped and normalised, unless it
      already held a backslash followed by `n`. */
  lemma {:induction false} NormalizeUndoesEscape(t: string)
    requires NoEscapedNewline(t)
    ensures Normalize(EscapeNewlines(t)) == t
  {
    if t != [] {
      var rest := t[1..];
      assert NoEscapedNewline(rest) by {
        forall i | 0 <= i < |rest| - 1 ensures !(rest[i] == '\\' && rest[i + 1] == 'n') {
          assert rest[i] == t[i + 1] && rest[i + 1] == t[i + 2];
        }
      }
      NormalizeUndoesEscape(rest);
      var e := EscapeNewlines(rest);
      if t[0] == '\n' {
        assert EscapeNewlines(t) == "\\n" + e;
        assert ("\\n" + e)[2..] == e;
      } else {
        assert EscapeNewlines(t) == [t[0]] + e;
        if t[0] == '\\' && e != [] {
          assert rest[0] == t[1];
        }
        assert ([t[0]] + e)[1..] == e;
      }
      assert t == [t[0]] + rest;
    }
  }

  /** Text without a backslash is left as it is. */
  lemma {:induction false} NormalizeNoBackslash(s: string)
    requires '\\' !in s
    ensures Normalize(s) == s
  {
    if s != [] {
      assert '\\' !in s[1..];
      NormalizeNoBackslash(s[1..]);
      assert s == [s[0]] + s[1..];
    }
  }

  /* ---------------- the heading pattern ---------------- */

  predicate IsHash(c: char) { c == '#' }

  /** `^` of a multi-line pattern holds at `p`. */
  predicate LineStart(s: string, p: nat) {
    p == 0 || (0 < p <= |s| && IsLineTerminator(s[p - 1]))
  }

  /** A match of the pattern: it starts at `start`, group 1 is `level` hashes, and
      group 2 is `s[textStart..textEnd]`. */
  datatype Match = Match(start: nat, level: nat, textStart: nat, textEnd: nat)

  /** `^(#{1,3})\s+(.+)$` with the `m` flag matches `s` as `m` says: a line start, one
      to three hashes, at least one white-space character (line terminators
      included), at least one character other than a line terminator, and then the
      end of the text or a line terminator. */
  predicate IsMatch(s: string, m: Match) {
    LineStart(s, m.start) && 1 <= m.level <= 3 &&
    m.start + m.level < m.textStart < m.textEnd <= |s| &&
    (forall i :: m.start <= i < m.start + m.level ==> s[i] == '#') &&
    (forall i :: m.start + m.level <= i < m.textStart ==> IsJsSpace(s[i])) &&
    (forall i :: m.textStart <= i < m.textEnd ==> !IsLineTerminator(s[i])) &&
    (m.textEnd == |s| || IsLineTerminator(s[m.textEnd]))
  }

  /** The last position in `(lo, q]` where group 2 can start: before the end and not
      at a line terminator. */
  function LastTextStart(s: string, lo: nat, q: nat): (r: Option<nat>)
    requires q <= |s|
    ensures r.Some? ==> lo < r.value <= q && r.value < |s| && !IsLineTerminator(s[r.value])
    ensures forall j :: lo < j <= q && j < |s| && (r.None? || r.value < j) ==> IsLineTerminator(s[j])
    decreases q
  {
    if q <= lo then None
    else if q < |s| && !IsLineTerminator(s[q]) then Some(q)
    else LastTextStart(s, lo, q - 1)
  }

  /** The match the regular-expression engine finds at `p`, with its backtracking:
      the hash run must have length one to three and be followed by white space;
      `\s+` then gives back characters until `.+` can take at least one. */
  function MatchAt(s: string, p: nat): (r: Option<Match>)
    requires p <= |s|
    ensures r.Some? ==> r.value.start == p && IsMatch(s, r.value)
  {
    if !LineStart(s, p) then None
    else
      var h := RunEnd(s, p, IsHash) - p;
      if h < 1 || h > 3 then None
      else
        var e := RunEnd(s, p + h, IsJsSpace);
        match LastTextStart(s, p + h, e)
        case None => None
        case Some(q) => Some(Match(p, h, q, RunEnd(s, q, NotLineTerminator)))
  }

  /** Whenever the pattern matches at `p`, `MatchAt` finds a match there, with the
      same level, the greediest `\s+` and the rest of that line as group 2. */
  lemma MatchAtComplete(s: string, m: Match)
    requires m.start <= |s| && IsMatch(s, m)
    ensures MatchAt(s, m.start).Some?
    ensures MatchAt(s, m.start).value.level == m.level
    ensures m.textStart <= MatchAt(s, m.start).value.textStart
    ensures m.textStart == MatchAt(s, m.start).value.textStart ==> MatchAt(s, m.start).value == m
  {
    var p := m.start;
    assert !IsHash(s[p + m.level]) by {
      assert IsJsSpace(s[p + m.level]);
    }
    RunEndUnique(s, p, IsHash, p + m.level);
    var h := m.level;
    var e := RunEnd(s, p + h, IsJsSpace);
    assert m.textStart <= e;
    var r := LastTextStart(s, p + h, e);
    assert r.Some? && m.textStart <= r.value by {
      assert !IsLineTerminator(s[m.textStart]);
    }
    if m.textStart == r.value {
      RunEndUnique(s, m.textStart, NotLineTerminator, m.textEnd);
    }
  }

  /** A line that starts with four or more hashes is never a heading. */
  lemma FourHashesNeverMatch(s: string, m: Match)
    requires m.start + 4 <= |s| && forall i :: m.start <= i < m.start + 4 ==> s[i] == '#'
    ensures !IsMatch(s, m)
  {
    if m.level <= 3 {
      assert !IsJsSpace(s[m.start + m.level]);
    }
  }

  /** The level of a match is the whole run of hashes that starts its line. */
  lemma LevelCountsHashes(s: string, m: Match)
    requires IsMatch(s, m)
    ensures RunEnd(s, m.start, IsHash) == m.start + m.level
  {
    assert IsJsSpace(s[m.start + m.level]);
    RunEndUnique(s, m.start, IsHash, m.start + m.level);
  }

  /** `regex.exec(s)` with `lastIndex == from`: the first match at or after `from`. */
  function Exec(s: string, from: nat): (r: Option<Match>)
    requires from <= |s|
    ensures r.Some? ==> from <= r.value.start <= |s| && MatchAt(s, r.value.start) == r
    ensures forall p :: from <= p <= |s| && (r.None? || p < r.value.start) ==> MatchAt(s, p).None?
    decreases |s| - from
  {
    match MatchAt(s, from)
    case Some(m) => Some(m)
    case None => if from == |s| then None else Exec(s, from + 1)
  }

  /** Every match the `exec` loop visits when `lastIndex` starts at `from`: each
      search resumes where the previous match ended. */
  function MatchesFrom(s: string, from: nat): (ms: seq<Match>)
    requires from <= |s|
    ensures forall i :: 0 <= i < |ms| ==> from <= ms[i].start && IsMatch(s, ms[i])
    ensures forall i :: 0 <= i < |ms| - 1 ==> ms[i].textEnd <= ms[i + 1].start
    decreases |s| - from
  {
    match Exec(s, from)
    case None => []
    case Some(m) =>
      var rest := MatchesFrom(s, m.textEnd);
      MatchesCons(s, from, m, rest);
      [m] + rest
  }

  /** A match followed by the matches after its end is again an ordered run of matches. */
  lemma MatchesCons(s: string, from: nat, m: Match, rest: seq<Match>)
    requires from <= m.start && IsMatch(s, m)
    requires forall i :: 0 <= i < |rest| ==> m.textEnd <= rest[i].start && IsMatch(s, rest[i])
    requires forall i :: 0 <= i < |rest| - 1 ==> rest[i].textEnd <= rest[i + 1].start
    ensures forall i :: 0 <= i < |[m] + rest| ==> from <= ([m] + rest)[i].start && IsMatch(s, ([m] + rest)[i])
    ensures forall i :: 0 <= i < |[m] + rest| - 1 ==> ([m] + rest)[i].textEnd <= ([m] + rest)[i + 1].start
  {
    var ms := [m] + rest;
    forall i | 1 <= i < |ms| ensures ms[i] == rest[i - 1] {
    }
  }

  /** No heading is skipped: every place after `from` where the pattern matches lies
      inside one of the visited matches. */
  lemma MatchesFromComplete(s: string, from: nat, m: Match)
    requires from <= m.start <= |s| && IsMatch(s, m)
    ensures exists i ::
      0 <= i < |MatchesFrom(s, from)| &&
      MatchesFrom(s, from)[i].start <= m.start < MatchesFrom(s, from)[i].textEnd
  {
    var i := CoveringMatch(s, from, m);
  }

  /** The index of the visited match that covers the match `m`. */
  lemma {:induction false} CoveringMatch(s: string, from: nat, m: Match) returns (i: nat)
    requires from <= m.start <= |s| && IsMatch(s, m)
    ensures i < |MatchesFrom(s, from)|
    ensures MatchesFrom(s, from)[i].start <= m.start < MatchesFrom(s, from)[i].textEnd
    decreases |s| - from
  {
    ExecFinds(s, from, m);
    var x := Exec(s, from).value;
    var rest := MatchesFrom(s, x.textEnd);
    assert MatchesFrom(s, from) == [x] + rest;
    if x.textEnd <= m.start {
      var j := CoveringMatch(s, x.textEnd, m);
      i := j + 1;
    } else {
      i := 0;
    }
  }

  /** A search from `from` finds a match no later than any match at or after `from`. */
  lemma ExecFinds(s: string, from: nat, m: Match)
    requires from <= m.start <= |s| && IsMatch(s, m)
    ensures Exec(s, from).Some? && Exec(s, from).value.start <= m.start
  {
    MatchAtComplete(s, m);
  }

  /* ---------------- anchor ids ---------------- */

  /** The characters an id keeps: `a-z`, `0-9`, hiragana, katakana and the CJK
      unified ideographs up to U+9FAF. */
  predicate IsIdChar(c: char) {
    ('a' <= c <= 'z') || ('0' <= c <= '9') || ('\U{3040}' <= c <= '\U{309F}') ||
    ('\U{30A0}' <= c <= '\U{30FF}') || ('\U{4E00}' <= c <= '\U{9FAF}')
  }

  predicate NotIdChar(c: char) { !IsIdChar(c) }

  /** Only id characters and `-`, and never two `-` in a row. */
  predicate DashSeparated(r: string) {
    (forall i :: 0 <= i < |r| ==> IsIdChar(r[i]) || r[i] == '-') &&
    (forall i :: 0 <= i < |r| - 1 ==> !(r[i] == '-' && r[i + 1] == '-'))
  }

  /** A well-formed id: dash-separated, with no `-` at either end. */
  predicate IsSlug(r: string) {
    DashSeparated(r) && (r != [] ==> r[0] != '-' && r[|r| - 1] != '-')
  }

  /** `replace(/[^…]+/g, '-')`: every maximal run of other characters becomes one `-`. */
  function CollapseRuns(s: string): (r: string)
    ensures DashSeparated(r)
    ensures s == [] <==> r == []
    ensures s != [] ==> (r[0] == '-' <==> !IsIdChar(s[0]))
    decreases |s|
  {
    if s == [] then []
    else if IsIdChar(s[0]) then [s[0]] + CollapseRuns(s[1..])
    else
      var j := RunEnd(s, 0, NotIdChar);
      var rest := CollapseRuns(s[j..]);
      assert rest != [] ==> rest[0] != '-' by {
        if rest != [] {
          assert IsIdChar(s[j]);
        }
      }
      "-" + rest
  }

  /** `replace(/^-|-$/g, '')`: one leading and one trailing `-` are dropped. */
  function StripDashes(t: string): (r: string)
    ensures |r| <= |t|
  {
    var a := if |t| > 0 && t[0] == '-' then t[1..] else t;
    if |a| > 0 && a[|a| - 1] == '-' then a[..|a| - 1] else a
  }

  /** The anchor id of a heading. */
  function Slug(text: string): string {
    StripDashes(CollapseRuns(Lower(text)))
  }

  lemma DashSeparatedSlice(t: string, i: nat, j: nat)
    requires DashSeparated(t) && i <= j <= |t|
    ensures DashSeparated(t[i..j])
  {
    var u := t[i..j];
    forall k | 0 <= k < |u| - 1 ensures !(u[k] == '-' && u[k + 1] == '-') {
      assert u[k] == t[i + k] && u[k + 1] == t[i + k + 1];
    }
  }

  /** Stripping the ends of a dash-separated text leaves a well-formed id. */
  lemma StripDashesWellFormed(t: string)
    requires DashSeparated(t)
    ensures IsSlug(StripDashes(t))
  {
    var a := if |t| > 0 && t[0] == '-' then t[1..] else t;
    DashSeparatedSlice(t, if |t| > 0 && t[0] == '-' then 1 else 0, |t|);
    assert a != [] ==> a[0] != '-' by {
      if a != [] && |t| > 0 && t[0] == '-' {
        assert a[0] == t[1];
      }
    }
    if |a| > 0 && a[|a| - 1] == '-' {
      var b := a[..|a| - 1];
      DashSeparatedSlice(a, 0, |a| - 1);
      if b != [] {
        assert b[0] == a[0];
        assert b[|b| - 1] == a[|a| - 2];
      }
    }
  }

  /** Stripping the ends loses no id character. */
  lemma StripDashesKeepsIdChars(t: string)
    ensures Filter(StripDashes(t), IsIdChar) == Filter(t, IsIdChar)
  {
    assert !IsIdChar('-');
    var a := if |t| > 0 && t[0] == '-' then t[1..] else t;
    assert Filter(a, IsIdChar) == Filter(t, IsIdChar) by {
      if |t| > 0 && t[0] == '-' {
        FilterDropFirst(t, IsIdChar);
      }
    }
    if |a| > 0 && a[|a| - 1] == '-' {
      assert StripDashes(t) == a[..|a| - 1];
      FilterDropLast(a, IsIdChar);
    } else {
      assert StripDashes(t) == a;
    }
  }

  /** Collapsing keeps every id character, in order. */
  lemma {:induction false} CollapseKeepsIdChars(s: string)
    ensures Filter(CollapseRuns(s), IsIdChar) == Filter(s, IsIdChar)
    decreases |s|
  {
    if s != [] {
      if IsIdChar(s[0]) {
        CollapseKeepsIdChars(s[1..]);
        CollapseIdStep(s);
      } else {
        CollapseKeepsIdChars(s[RunEnd(s, 0, NotIdChar)..]);
        CollapseRunStep(s);
      }
    }
  }

  /** An id character is copied through, in front of the collapsed rest. */
  lemma CollapseIdStep(s: string)
    requires s != [] && IsIdChar(s[0])
    requires Filter(CollapseRuns(s[1..]), IsIdChar) == Filter(s[1..], IsIdChar)
    ensures Filter(CollapseRuns(s), IsIdChar) == Filter(s, IsIdChar)
  {
    assert s == [s[0]] + s[1..];
    FilterCons(s[0], s[1..], IsIdChar);
    FilterCons(s[0], CollapseRuns(s[1..]), IsIdChar);
  }

  /** A run of other characters becomes a `-`, which no id keeps. */
  lemma CollapseRunStep(s: string)
    requires s != [] && !IsIdChar(s[0])
    requires Filter(CollapseRuns(s[RunEnd(s, 0, NotIdChar)..]), IsIdChar) == Filter(s[RunEnd(s, 0, NotIdChar)..], IsIdChar)
    ensures Filter(CollapseRuns(s), IsIdChar) == Filter(s, IsIdChar)
  {
    var j := RunEnd(s, 0, NotIdChar);
    var t := "-" + CollapseRuns(s[j..]);
    assert CollapseRuns(s) == t;
    FilterDropFirst(t, IsIdChar);
    assert t[1..] == CollapseRuns(s[j..]);
    forall k | 0 <= k < j ensures !IsIdChar(s[k]) {
      assert NotIdChar(s[k]);
    }
    FilterDropPrefix(s, j, IsIdChar);
  }

  /** Every id is well formed and keeps every id character of the lower-cased
      heading text, in order: only the other characters are lost. */
  lemma SlugWellFormed(text: string)
    ensures IsSlug(Slug(text))
    ensures Filter(Slug(text), IsIdChar) == Filter(Lower(text), IsIdChar)
  {
    var t := CollapseRuns(Lower(text));
    CollapseKeepsIdChars(Lower(text));
    StripDashesWellFormed(t);
    StripDashesKeepsIdChars(t);
  }

  /** A well-formed id is its own id. */
  lemma {:induction false} CollapseFixesSlugs(r: string)
    requires DashSeparated(r)
    requires r != [] ==> r[|r| - 1] != '-'
    ensures CollapseRuns(r) == r
    decreases |r|
  {
    if r != [] {
      if !IsIdChar(r[0]) {
        assert |r| > 1;
        assert r[1] != '-';
        RunEndUnique(r, 0, NotIdChar, 1);
      }
      DashSeparatedSlice(r, 1, |r|);
      CollapseFixesSlugs(r[1..]);
      assert r == [r[0]] + r[1..];
    }
  }

  lemma SlugOfSlug(r: string)
    requires IsSlug(r)
    ensures Slug(r) == r
  {
    assert Lower(r) == r;
    CollapseFixesSlugs(r);
  }

  /** Computing the id of an id changes nothing. */
  lemma SlugIdempotent(text: string)
    ensures Slug(Slug(text)) == Slug(text)
  {
    SlugWellFormed(text);
    SlugOfSlug(Slug(text));
  }

  /* ---------------- the entries ---------------- */

  function ItemOf(s: string, m: Match): TocItem
    requires IsMatch(s, m)
  {
    var text := s[m.textStart..m.textEnd];
    TocItem(Slug(text), text, m.level)
  }

  /** The text the pattern runs over: the note body (`""` when absent) with its
      escaped newlines restored. */
  function Source(content: Option<string>): string {
    Normalize(content.GetOr(""))
  }

  /** The entry of each match, in order. */
  function ItemsOf(s: string, ms: seq<Match>): seq<TocItem>
    requires forall i :: 0 <= i < |ms| ==> IsMatch(s, ms[i])
  {
    seq(|ms|, i requires 0 <= i < |ms| => ItemOf(s, ms[i]))
  }

  /** The entries, one per visited match, in document order. */
  function Headings(content: Option<string>): (items: seq<TocItem>) {
    var s := Source(content);
    ItemsOf(s, MatchesFrom(s, 0))
  }

  /** `items` holds the entries of the matches `done`, one for one. */
  ghost predicate Tracks(s: string, items: seq<TocItem>, done: seq<Match>) {
    |items| == |done| &&
    forall i :: 0 <= i < |done| ==> IsMatch(s, done[i]) && items[i] == ItemOf(s, done[i])
  }

  lemma TracksSnoc(s: string, items: seq<TocItem>, done: seq<Match>, m: Match)
    requires Tracks(s, items, done) && IsMatch(s, m)
    ensures Tracks(s, items + [ItemOf(s, m)], done + [m])
  {
  }

  lemma TracksAll(s: string, items: seq<TocItem>, ms: seq<Match>)
    requires Tracks(s, items, ms)
    ensures items == ItemsOf(s, ms)
  {
  }

  /** The matches `done` are those the loop visited before resuming at `lastIndex`. */
  ghost predicate Resumes(s: string, done: seq<Match>, lastIndex: nat) {
    lastIndex <= |s| && done + MatchesFrom(s, lastIndex) == MatchesFrom(s, 0)
  }

  /** One round of the loop: `exec` found `m`, and the search goes on after it. */
  lemma ResumesStep(s: string, done: seq<Match>, lastIndex: nat, m: Match)
    requires Resumes(s, done, lastIndex) && Exec(s, lastIndex) == Some(m)
    ensures IsMatch(s, m) && lastIndex < m.textEnd
    ensures Resumes(s, done + [m], m.textEnd)
  {
    assert MatchesFrom(s, lastIndex) == [m] + MatchesFrom(s, m.textEnd);
    AppendAssoc(done, [m], MatchesFrom(s, m.textEnd));
  }

  /** The last round: `exec` found nothing, so every match has been visited. */
  lemma ResumesDone(s: string, done: seq<Match>, lastIndex: nat)
    requires Resumes(s, done, lastIndex) && Exec(s, lastIndex).None?
    ensures done == MatchesFrom(s, 0)
  {
    assert MatchesFrom(s, lastIndex) == [];
  }

  /** The `useMemo` callback: restore the newlines, then scan. */
  method ExtractHeadings(content: Option<string>) returns (items: seq<TocItem>)
    ensures items == Headings(content)
  {
    var normalized := Normalize(content.GetOr(""));
    items := ScanHeadings(normalized);
  }

  /** The `exec` loop, pushing one entry per match. */
  method ScanHeadings(normalized: string) returns (items: seq<TocItem>)
    ensures items == ItemsOf(normalized, MatchesFrom(normalized, 0))
  {
    items := [];
    var lastIndex := 0;
    ghost var done: seq<Match> := [];
    while true
      invariant Resumes(normalized, done, lastIndex)
      invariant Tracks(normalized, items, done)
      decreases |normalized| - lastIndex
    {
      var found := Exec(normalized, lastIndex);
      if found.None? {
        ResumesDone(normalized, done, lastIndex);
        break;
      }
      var m := found.value;
      ResumesStep(normalized, done, lastIndex, m);
      TracksSnoc(normalized, items, done, m);
      var text := normalized[m.textStart..m.textEnd];
      items := items + [TocItem(Slug(text), text, m.level)];
      done := done + [m];
      lastIndex := m.textEnd;
    }
    TracksAll(normalized, items, done);
  }

  /** The entry of one match: level one to three, a non-empty one-line text and a
      well-formed id computed from that text. */
  lemma ItemWellFormed(s: string, m: Match)
    requires IsMatch(s, m)
    ensures 1 <= ItemOf(s, m).level <= 3 && ItemOf(s, m).text != []
    ensures forall k :: 0 <= k < |ItemOf(s, m).text| ==> !IsLineTerminator(ItemOf(s, m).text[k])
    ensures IsSlug(ItemOf(s, m).id) && ItemOf(s, m).id == Slug(ItemOf(s, m).text)
  {
    SlugWellFormed(s[m.textStart..m.textEnd]);
  }

  /** Every entry has level one to three, a non-empty one-line text and a
      well-formed id; the ids are those of their texts. */
  lemma HeadingsWellFormed(content: Option<string>)
    ensures forall i :: 0 <= i < |Headings(content)| ==>
      1 <= Headings(content)[i].level <= 3 && Headings(content)[i].text != [] &&
      (forall k :: 0 <= k < |Headings(content)[i].text| ==> !IsLineTerminator(Headings(content)[i].text[k])) &&
      IsSlug(Headings(content)[i].id) && Headings(content)[i].id == Slug(Headings(content)[i].text)
  {
    var s := Source(content);
    var ms := MatchesFrom(s, 0);
    forall i | 0 <= i < |ms| ensures IsMatch(s, ms[i]) {
    }
    forall i | 0 <= i < |ms| {
      ItemWellFormed(s, ms[i]);
    }
  }
}
