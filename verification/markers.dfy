/** The four comment markers a scan-build report embeds, and the search the
    publisher runs for each: the Java pattern `<!--\sKEYWORD\s(.*)\s-->`
    applied with `Matcher.find()`, returning group 1 of the first match. */
module Markers {
  import opened Wrappers
  import opened Text

  /** Java's `\s` without flags: space, tab, newline, vertical tab, form feed,
      carriage return. */
  predicate IsSpace(ch: char) {
    ch == ' ' || ch == '\t' || ch == '\n' || ch == '\U{0B}' || ch == '\U{0C}' || ch == '\r'
  }

  /** The characters Java's `.` refuses to match without flags. */
  predicate IsLineTerminator(ch: char) {
    ch == '\n' || ch == '\r' || ch == '\U{85}' || ch == '\U{2028}' || ch == '\U{2029}'
  }

  const Open: string := "<!--"
  const Close: string := "-->"

  datatype Marker = BugType | BugDesc | BugFile | BugCategory {
    function Keyword(): string {
      match this
      case BugType => "BUGTYPE"
      case BugDesc => "BUGDESC"
      case BugFile => "BUGFILE"
      case BugCategory => "BUGCATEGORY"
    }
  }

  /** Index of the first captured character when a match begins at `i`:
      after `<!--`, one space, the keyword and one more space. */
  function CaptureStart(kw: string, i: nat): nat {
    i + |Open| + 1 + |kw| + 1
  }

  /** `<!--\sKEYWORD\s` matches at index `i`. */
  predicate HeadAt(text: string, kw: string, i: nat) {
    && CaptureStart(kw, i) <= |text|
    && OccursAt(text, Open, i)
    && IsSpace(text[i + 4])
    && OccursAt(text, kw, i + 5)
    && IsSpace(text[i + 5 + |kw|])
  }

  /** No line terminator in `text[c..e]`, so `.*` can cover that stretch. */
  predicate OnOneLine(text: string, c: nat, e: nat)
    requires c <= e <= |text|
  {
    forall k :: c <= k < e ==> !IsLineTerminator(text[k])
  }

  /** `(.*)\s-->` matches from `c` with the group ending at `e`. */
  predicate TailAt(text: string, c: nat, e: nat) {
    && c <= e
    && e + 1 + |Close| <= |text|
    && OnOneLine(text, c, e)
    && IsSpace(text[e])
    && OccursAt(text, Close, e + 1)
  }

  /** The whole pattern matches at `i`, with group 1 equal to
      `text[CaptureStart(kw, i)..e]`. */
  predicate MatchAt(text: string, kw: string, i: nat, e: nat) {
    HeadAt(text, kw, i) && TailAt(text, CaptureStart(kw, i), e)
  }

  /** The match `find()` reports: no match starts further left, and the
      greedy `.*` makes the group as long as any match at `i` allows. */
  ghost predicate IsLeftmostGreedy(text: string, kw: string, i: nat, e: nat) {
    && MatchAt(text, kw, i, e)
    && (forall j: nat, e': nat :: j < i ==> !MatchAt(text, kw, j, e'))
    && (forall e': nat :: e < e' ==> !MatchAt(text, kw, i, e'))
  }

  /** The match `find()` reports when it starts scanning at `i`: it starts
      at or after `i`, nothing matches between `i` and it, and its group is
      the longest at its start. */
  ghost predicate IsFirstFrom(text: string, kw: string, i: nat, j: nat, e: nat) {
    && i <= j
    && MatchAt(text, kw, j, e)
    && (forall j': nat, e': nat :: i <= j' < j ==> !MatchAt(text, kw, j', e'))
    && (forall e': nat :: e < e' ==> !MatchAt(text, kw, j, e'))
  }

  /** Index of the first line terminator at or after `c`, or `|text|`. */
  function LineEnd(text: string, c: nat): (r: nat)
    requires c <= |text|
    ensures c <= r <= |text|
    ensures OnOneLine(text, c, r)
    ensures r < |text| ==> IsLineTerminator(text[r])
    decreases |text| - c
  {
    if c == |text| || IsLineTerminator(text[c]) then c else LineEnd(text, c + 1)
  }

  /** A tail never reaches past the end of its line. */
  lemma TailWithinLine(text: string, c: nat, e: nat)
    requires c <= |text|
    requires TailAt(text, c, e)
    ensures e <= LineEnd(text, c)
  {
  }

  /** The backtracking of the greedy `.*`: try group ends from `e` downward. */
  function LastTail(text: string, c: nat, e: nat): (r: Option<nat>)
    requires c <= e
    ensures r.Some? ==> c <= r.value <= e && TailAt(text, c, r.value)
    ensures r.Some? ==> forall e' :: r.value < e' <= e ==> !TailAt(text, c, e')
    ensures r.None? ==> forall e' :: c <= e' <= e ==> !TailAt(text, c, e')
    decreases e - c
  {
    if TailAt(text, c, e) then Some(e)
    else if e == c then None
    else LastTail(text, c, e - 1)
  }

  /** Where a match lies: the index it starts at and the index its group
      ends at; the group itself starts at `CaptureStart`. */
  datatype Span = Span(start: nat, groupEnd: nat)

  /** The greedy attempt at start position `i`: the end of the longest
      group a match starting there can have, if the pattern matches there. */
  function LongestMatchAt(text: string, kw: string, i: nat): (r: Option<nat>)
    ensures r.None? <==> forall e: nat :: !MatchAt(text, kw, i, e)
    ensures r.Some? ==> MatchAt(text, kw, i, r.value)
    ensures r.Some? ==> forall e: nat :: r.value < e ==> !MatchAt(text, kw, i, e)
  {
    if HeadAt(text, kw, i) then
      var c := CaptureStart(kw, i);
      var l := LineEnd(text, c);
      var r := LastTail(text, c, l);
      assert forall e: nat :: TailAt(text, c, e) ==> e <= l by {
        forall e: nat | TailAt(text, c, e) {
          TailWithinLine(text, c, e);
        }
      }
      assert r.None? ==> forall e: nat :: !TailAt(text, c, e);
      assert r.Some? ==> MatchAt(text, kw, i, r.value);
      r
    else
      None
  }

  /** `find()` scanning start positions from `i` upward. */
  function FindFrom(text: string, kw: string, i: nat): (r: Option<Span>)
    ensures r.None? <==> forall j: nat, e: nat :: i <= j ==> !MatchAt(text, kw, j, e)
    ensures r.Some? ==> IsFirstFrom(text, kw, i, r.value.start, r.value.groupEnd)
    decreases |text| - i
  {
    if |text| <= i then
      None
    else
      match LongestMatchAt(text, kw, i)
      case Some(e) => Some(Span(i, e))
      case None => FindFrom(text, kw, i + 1)
  }

  /** `getMatch(pattern, contents)`: group 1 of the leftmost match, with the
      group as long as the greedy `.*` makes it, or `None` (Java's null) when
      the pattern matches nowhere. */
  function GetMatch(m: Marker, text: string): (r: Option<string>)
    ensures r.None? <==> forall i: nat, e: nat :: !MatchAt(text, m.Keyword(), i, e)
    ensures r.Some? ==> exists i: nat, e: nat ::
      && IsLeftmostGreedy(text, m.Keyword(), i, e)
      && r.value == text[CaptureStart(m.Keyword(), i)..e]
  {
    var kw := m.Keyword();
    match FindFrom(text, kw, 0)
    case None => None
    case Some(span) =>
      assert IsLeftmostGreedy(text, kw, span.start, span.groupEnd);
      Some(text[CaptureStart(kw, span.start)..span.groupEnd])
  }

  /** The comment a report carries for marker `m` with value `v`, with the
      whitespace around the value chosen as `w1`, `w2` and `w3`. */
  function Frame(kw: string, v: string, w1: char, w2: char, w3: char): string {
    Open + [w1] + kw + [w2] + v + [w3] + Close
  }

  /** The canonical marker line scan-build writes: single spaces around. */
  function MarkerLine(m: Marker, v: string): string {
    Frame(m.Keyword(), v, ' ', ' ', ' ')
  }

  lemma SliceSplit(s: string, a: nat, b: nat, c: nat)
    requires a <= b <= c <= |s|
    ensures s[a..c] == s[a..b] + s[b..c]
  {
  }

  /** From the start of the group to the end of `-->`, a tail reads as the
      group, one whitespace character and `-->`. */
  lemma TailLayout(text: string, c: nat, e: nat)
    requires TailAt(text, c, e)
    ensures text[c..e + 4] == text[c..e] + ([text[e]] + Close)
  {
    assert text[e..e + 4] == [text[e]] + Close;
  }

  /** From `i` to the start of the group, a head reads as `<!--`, one
      whitespace character, the keyword and one whitespace character. */
  lemma HeadLayout(text: string, kw: string, i: nat)
    requires HeadAt(text, kw, i)
    ensures text[i..CaptureStart(kw, i)] == Open + [text[i + 4]] + kw + [text[i + 5 + |kw|]]
  {
    var c := CaptureStart(kw, i);
    assert text[i..c] == text[i..i + 4] + [text[i + 4]] + text[i + 5..c - 1] + [text[c - 1]];
  }

  /** A frame is its head followed by its value and its tail. */
  lemma FrameSplit(kw: string, v: string, w1: char, w2: char, w3: char)
    ensures Frame(kw, v, w1, w2, w3) == (Open + [w1] + kw + [w2]) + (v + ([w3] + Close))
  {
  }

  /** A match at `i` ending its group at `e` lays the frame of its comment
      out in the text, starting at `i`. */
  lemma MatchIsFramed(text: string, kw: string, i: nat, e: nat)
    requires MatchAt(text, kw, i, e)
    ensures OccursAt(text, Frame(kw, text[CaptureStart(kw, i)..e], text[i + 4], text[i + 5 + |kw|], text[e]), i)
  {
    var c := CaptureStart(kw, i);
    HeadLayout(text, kw, i);
    TailLayout(text, c, e);
    SliceSplit(text, i, c, e + 4);
    FrameSplit(kw, text[c..e], text[i + 4], text[i + 5 + |kw|], text[e]);
  }

  /** The group of a leftmost-greedy match is framed in the text and holds
      no line terminator. */
  lemma LeftmostGreedyIsBracketed(text: string, kw: string, i: nat, e: nat)
    requires MatchAt(text, kw, i, e)
    ensures forall k :: CaptureStart(kw, i) <= k < e ==> !IsLineTerminator(text[k])
    ensures exists j: nat, w1: char, w2: char, w3: char ::
      && IsSpace(w1) && IsSpace(w2) && IsSpace(w3)
      && OccursAt(text, Frame(kw, text[CaptureStart(kw, i)..e], w1, w2, w3), j)
  {
    MatchIsFramed(text, kw, i, e);
    var w1, w2, w3 := text[i + 4], text[i + 5 + |kw|], text[e];
    assert IsSpace(w1) && IsSpace(w2) && IsSpace(w3);
  }

  /** What `getMatch` extracts is exactly the text between one whitespace
      character after the keyword and one whitespace character before `-->`,
      untrimmed, and it never spans a line break. */
  lemma GetMatchIsBracketed(m: Marker, text: string)
    ensures GetMatch(m, text).Some? ==>
      forall k :: 0 <= k < |GetMatch(m, text).value| ==> !IsLineTerminator(GetMatch(m, text).value[k])
    ensures GetMatch(m, text).Some? ==> exists j: nat, w1: char, w2: char, w3: char ::
      && IsSpace(w1) && IsSpace(w2) && IsSpace(w3)
      && OccursAt(text, Frame(m.Keyword(), GetMatch(m, text).value, w1, w2, w3), j)
  {
    var kw := m.Keyword();
    var found := FindFrom(text, kw, 0);
    if found.Some? {
      var i, e := found.value.start, found.value.groupEnd;
      assert MatchAt(text, kw, i, e);
      assert GetMatch(m, text).value == text[CaptureStart(kw, i)..e];
      LeftmostGreedyIsBracketed(text, kw, i, e);
    }
  }

  /** No head for `kw` can start before `|pre|` in `pre + s` when `pre`
      never mentions `kw` and `s` begins with `<!--`: the head would have
      to straddle the seam, and the `<` that opens `s` fits neither the
      rest of `<!--`, nor the whitespace, nor the keyword. */
  lemma NoHeadBefore(kw: string, pre: string, s: string, j: nat)
    requires forall k :: !OccursAt(pre, kw, k)
    requires '<' !in kw
    requires OccursAt(s, Open, 0)
    requires j < |pre|
    ensures !HeadAt(pre + s, kw, j)
  {
    var t := pre + s;
    assert t[|pre|] == s[0] == '<';
    if j + 4 <= |pre| && j + 5 + |kw| <= |pre| {
      assert !OccursAt(pre, kw, j + 5);
      assert pre[j + 5..j + 5 + |kw|] == t[j + 5..j + 5 + |kw|];
    } else if j + 5 <= |pre| && j + 5 + |kw| <= |t| {
      assert t[j + 5..j + 5 + |kw|][|pre| - j - 5] == t[|pre|];
    } else if |pre| < j + 4 <= |t| {
      assert t[j..j + 4][|pre| - j] == t[|pre|];
    }
  }

  /** The marker line at `|pre|` matches, with its group ending right
      before the closing ` -->`. */
  lemma MarkerLineMatchesAt(kw: string, pre: string, v: string, rest: string)
    requires forall k :: 0 <= k < |v| ==> !IsLineTerminator(v[k])
    ensures MatchAt(pre + Frame(kw, v, ' ', ' ', ' ') + rest, kw, |pre|, CaptureStart(kw, |pre|) + |v|)
    ensures (pre + Frame(kw, v, ' ', ' ', ' ') + rest)[CaptureStart(kw, |pre|)..CaptureStart(kw, |pre|) + |v|] == v
  {
    var line := Frame(kw, v, ' ', ' ', ' ');
    var text := pre + line + rest;
    var i0 := |pre|;
    var c := CaptureStart(kw, i0);
    var e0 := c + |v|;
    assert text[i0..i0 + |line|] == line;
    assert line[..4] == Open && line[4] == ' ' && line[5..5 + |kw|] == kw && line[5 + |kw|] == ' ';
    assert line[c - i0..e0 - i0] == v;
    assert line[e0 - i0] == ' ' && line[e0 - i0 + 1..] == Close;
    assert text[i0..i0 + 4] == line[..4];
    assert text[i0 + 5..i0 + 5 + |kw|] == line[5..5 + |kw|];
    assert text[c..e0] == line[c - i0..e0 - i0];
    assert text[e0 + 1..e0 + 4] == line[e0 - i0 + 1..];
  }

  /** Past the marker line's own closing, no longer group is possible when
      the line ends there and the next line does not open with
      whitespace followed by `-->`. */
  lemma MarkerLineIsGreedyEnd(kw: string, pre: string, v: string, rest: string, e: nat)
    requires |rest| == 0 || (IsLineTerminator(rest[0]) && !(IsSpace(rest[0]) && OccursAt(rest, Close, 1)))
    requires CaptureStart(kw, |pre|) + |v| < e
    ensures !TailAt(pre + Frame(kw, v, ' ', ' ', ' ') + rest, CaptureStart(kw, |pre|), e)
  {
    var line := Frame(kw, v, ' ', ' ', ' ');
    var text := pre + line + rest;
    var e0 := CaptureStart(kw, |pre|) + |v|;
    assert line[e0 - |pre| + 1..] == Close;
    if e <= e0 + 3 {
      assert text[e] == line[e - |pre|];
    } else if e0 + 4 < |text| {
      assert text[e0 + 4] == rest[0];
      if e == e0 + 4 && e + 4 <= |text| {
        assert text[e + 1..e + 4] == rest[1..4];
      }
    }
  }

  /** At most one match is leftmost and greedy. */
  lemma LeftmostGreedyIsUnique(text: string, kw: string, i: nat, e: nat, i': nat, e': nat)
    requires IsLeftmostGreedy(text, kw, i, e)
    requires IsLeftmostGreedy(text, kw, i', e')
    ensures i == i' && e == e'
  {
    assert MatchAt(text, kw, i, e) && MatchAt(text, kw, i', e');
  }

  /** `getMatch` reports the group of a match that has nothing to its left
      and nothing longer at its own start. */
  lemma GetMatchOfLeftmostGreedy(m: Marker, text: string, i: nat, e: nat, v: string)
    requires IsLeftmostGreedy(text, m.Keyword(), i, e)
    requires CaptureStart(m.Keyword(), i) <= e <= |text| && text[CaptureStart(m.Keyword(), i)..e] == v
    ensures GetMatch(m, text) == Some(v)
  {
    var kw := m.Keyword();
    var r := FindFrom(text, kw, 0);
    assert MatchAt(text, kw, i, e);
    if r.Some? {
      assert IsLeftmostGreedy(text, kw, r.value.start, r.value.groupEnd);
      LeftmostGreedyIsUnique(text, kw, i, e, r.value.start, r.value.groupEnd);
    }
  }

  /** None of the keywords holds a `<`. */
  lemma KeywordHasNoOpenAngle(m: Marker)
    ensures '<' !in m.Keyword()
  {
  }

  /** Nothing matches before a line that opens with `<!--` when the text
      before it never mentions the keyword. */
  lemma NoMatchBeforeLine(kw: string, pre: string, line: string, rest: string)
    requires '<' !in kw
    requires forall k :: !OccursAt(pre, kw, k)
    requires OccursAt(line, Open, 0)
    ensures forall j: nat, e: nat :: j < |pre| ==> !MatchAt(pre + line + rest, kw, j, e)
  {
    var s := line + rest;
    assert pre + line + rest == pre + s;
    assert s[..4] == line[..4];
    forall j: nat | j < |pre|
      ensures !HeadAt(pre + s, kw, j)
    {
      NoHeadBefore(kw, pre, s, j);
    }
  }

  /** In a text laid out as `pre`, the marker line for `kw` with value `v`,
      then `rest`, the marker line holds the leftmost greedy match, and its
      group is `v`. */
  lemma FrameIsLeftmostGreedy(kw: string, pre: string, v: string, rest: string)
    requires '<' !in kw
    requires forall k :: !OccursAt(pre, kw, k)
    requires forall k :: 0 <= k < |v| ==> !IsLineTerminator(v[k])
    requires |rest| == 0 || (IsLineTerminator(rest[0]) && !(IsSpace(rest[0]) && OccursAt(rest, Close, 1)))
    ensures IsLeftmostGreedy(pre + Frame(kw, v, ' ', ' ', ' ') + rest, kw, |pre|, CaptureStart(kw, |pre|) + |v|)
    ensures (pre + Frame(kw, v, ' ', ' ', ' ') + rest)[CaptureStart(kw, |pre|)..CaptureStart(kw, |pre|) + |v|] == v
  {
    var line := Frame(kw, v, ' ', ' ', ' ');
    var text := pre + line + rest;
    var i0 := |pre|;
    var e0 := CaptureStart(kw, i0) + |v|;
    MarkerLineMatchesAt(kw, pre, v, rest);
    assert line[..4] == Open;
    NoMatchBeforeLine(kw, pre, line, rest);
    forall e: nat | e0 < e
      ensures !MatchAt(text, kw, i0, e)
    {
      MarkerLineIsGreedyEnd(kw, pre, v, rest, e);
    }
  }

  /** Round trip: a report in which the marker line for `m` is the first
      mention of its keyword, ended by a line break, yields the value that
      was written. The value must stay on one line, and the next line must
      not open with whitespace followed by `-->` (greedy matching would
      reach it). */
  lemma MarkerLineRoundTrip(m: Marker, pre: string, v: string, rest: string)
    requires forall k :: !OccursAt(pre, m.Keyword(), k)
    requires forall k :: 0 <= k < |v| ==> !IsLineTerminator(v[k])
    requires |rest| == 0 || (IsLineTerminator(rest[0]) && !(IsSpace(rest[0]) && OccursAt(rest, Close, 1)))
    ensures GetMatch(m, pre + MarkerLine(m, v) + rest) == Some(v)
  {
    var kw := m.Keyword();
    var text := pre + MarkerLine(m, v) + rest;
    KeywordHasNoOpenAngle(m);
    FrameIsLeftmostGreedy(kw, pre, v, rest);
    assert text == pre + Frame(kw, v, ' ', ' ', ' ') + rest;
    GetMatchOfLeftmostGreedy(m, text, |pre|, CaptureStart(kw, |pre|) + |v|, v);
  }
}
