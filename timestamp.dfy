/** The splice part of the report's `updateTimestamp`: the line that says when the leaderboard was
    last updated is written on the line after the update notice, over an existing one when there is
    one close by. The timestamp text itself is a parameter. */
module Timestamp {
  import opened Text

  const UpdateNotice := "{{center|（以下排行约每小时更新一次）}}"
  const StampOpen := "{{center|（最近更新："
  const StampClose := "）}}"
  /** How far after the start of the next line an existing timestamp line may start, in UTF-16
      code units. */
  const SearchRange := 100

  /** The width of a character in UTF-16 code units: two for a character outside the Basic
      Multilingual Plane, which JavaScript stores as a surrogate pair, and one otherwise. */
  function Utf16Width(c: char): nat {
    if c as int < 0x1_0000 then 1 else 2
  }

  /** The length of `s` as JavaScript counts it: in UTF-16 code units. */
  function Utf16Length(s: string): (n: nat)
    ensures |s| <= n <= 2 * |s|
  {
    if s == [] then 0 else Utf16Width(s[0]) + Utf16Length(s[1..])
  }

  /** Text in the Basic Multilingual Plane is as long in code units as in characters. */
  lemma {:induction false} Utf16LengthNarrow(s: string)
    requires forall i :: 0 <= i < |s| ==> s[i] as int < 0x1_0000
    ensures Utf16Length(s) == |s|
  {
    if s != [] {
      assert forall i :: 0 <= i < |s[1..]| ==> s[1..][i] == s[i + 1];
      Utf16LengthNarrow(s[1..]);
    }
  }

  /** Text made only of characters outside the Basic Multilingual Plane (such as `🌱`) is twice as
      long in code units as in characters. */
  lemma {:induction false} Utf16LengthWide(s: string)
    requires forall i :: 0 <= i < |s| ==> s[i] as int >= 0x1_0000
    ensures Utf16Length(s) == 2 * |s|
  {
    if s != [] {
      assert forall i :: 0 <= i < |s[1..]| ==> s[1..][i] == s[i + 1];
      Utf16LengthWide(s[1..]);
    }
  }

  /** Code units add up over a concatenation. */
  lemma {:induction false} Utf16LengthAppend(a: string, b: string)
    ensures Utf16Length(a + b) == Utf16Length(a) + Utf16Length(b)
  {
    if a != [] {
      assert (a + b)[0] == a[0] && (a + b)[1..] == a[1..] + b;
      assert Utf16Length(a + b) == Utf16Width(a[0]) + Utf16Length(a[1..] + b);
      Utf16LengthAppend(a[1..], b);
    } else {
      assert a + b == b;
    }
  }

  /** A position after fifty characters outside the Basic Multilingual Plane lies outside the
      search window, however few characters precede it: `indexOf` already counts 100 there. */
  lemma {:induction false} WideTextLeavesWindow(after: string, start: nat)
    requires 50 <= start <= |after|
    requires forall i :: 0 <= i < 50 ==> after[i] as int >= 0x1_0000
    ensures !WithinRange(after, start)
  {
    assert after[..start] == after[..50] + after[50..start];
    Utf16LengthAppend(after[..50], after[50..start]);
    Utf16LengthWide(after[..50]);
  }

  /** A position `start` characters into `after` lies within the search window: the text before
      it is shorter than `SearchRange` in UTF-16 code units, the unit of JavaScript's `indexOf`. */
  predicate WithinRange(after: string, start: nat)
    requires start <= |after|
  {
    Utf16Length(after[..start]) < SearchRange
  }

  /** `{{center|（最近更新：${timestamp}）}}`. */
  function TimestampLine(timestamp: string): string {
    StampOpen + timestamp + StampClose
  }

  /** No line terminator lies in `s[i..j]`, which a regular-expression `.` run needs. */
  predicate NoLineBreak(s: string, i: nat, j: nat)
    requires i <= j <= |s|
  {
    forall k :: i <= k < j ==> !IsLineTerminator(s[k])
  }

  /** A match of a lazy pattern `open.*?close`, as the half-open range `[start, end)`. */
  datatype StampMatch = StampMatch(start: nat, end: nat)

  /** `m` is a match of `open.*?close` in `s`: the opening, then no line terminator up to the
      first `close` after the opening, which ends it. */
  predicate IsLazyMatch(s: string, open: string, close: string, m: StampMatch) {
    && m.start + |open| + |close| <= m.end <= |s|
    && OccursAt(s, open, m.start)
    && OccursAt(s, close, m.end - |close|)
    && NoLineBreak(s, m.start + |open|, m.end - |close|)
    && IndexOf(s, close, m.start + |open|) == m.end - |close|
  }

  /** The match of `open.*?close` that starts at `p`, if any: the lazy `.*?` stops at the first
      `close`, and fails when a line terminator comes before it. */
  function LazyMatchAt(s: string, open: string, close: string, p: nat): (r: Option<StampMatch>)
    requires p <= |s|
    ensures r.Some? ==> r.value.start == p && IsLazyMatch(s, open, close, r.value)
  {
    if !OccursAt(s, open, p) then None
    else
      var c := IndexOf(s, close, p + |open|);
      if c == -1 || !NoLineBreak(s, p + |open|, c) then None
      else Some(StampMatch(p, c + |close|))
  }

  /** Every match is the one `LazyMatchAt` finds at its start. */
  lemma {:induction false} LazyMatchAtIsMatch(s: string, open: string, close: string, m: StampMatch)
    requires IsLazyMatch(s, open, close, m)
    ensures LazyMatchAt(s, open, close, m.start) == Some(m)
  {
  }

  /** The leftmost match at or after `from`, as `String.prototype.match` finds it. */
  function FindLazyMatch(s: string, open: string, close: string, from: nat): (r: Option<StampMatch>)
    requires from <= |s|
    ensures r.Some? ==> from <= r.value.start && IsLazyMatch(s, open, close, r.value)
    decreases |s| - from
  {
    var here := LazyMatchAt(s, open, close, from);
    if here.Some? then here
    else if from == |s| then None
    else FindLazyMatch(s, open, close, from + 1)
  }

  /** The leftmost match of the timestamp pattern `/\{\{center\|（最近更新：.*?\）\}\}/`. */
  function FindStamp(s: string): Option<StampMatch> {
    FindLazyMatch(s, StampOpen, StampClose, 0)
  }

  /** No match starts between `from` and the one `FindLazyMatch` returns. */
  lemma {:induction false} FindLazyMatchLeftmost(s: string, open: string, close: string, from: nat)
    requires from <= |s|
    ensures var r := FindLazyMatch(s, open, close, from);
            forall p :: from <= p <= |s| && (r.None? || p < r.value.start) ==> LazyMatchAt(s, open, close, p).None?
    decreases |s| - from
  {
    if LazyMatchAt(s, open, close, from).None? && from < |s| {
      FindLazyMatchLeftmost(s, open, close, from + 1);
    }
  }

  /** A match with none before it, from `from` on, is the one `FindLazyMatch` finds. */
  lemma {:induction false} FindLazyMatchAt(s: string, open: string, close: string, from: nat, m: StampMatch)
    requires from <= m.start && IsLazyMatch(s, open, close, m)
    requires forall q :: from <= q < m.start ==> LazyMatchAt(s, open, close, q).None?
    ensures FindLazyMatch(s, open, close, from) == Some(m)
    decreases m.start - from
  {
    if from < m.start {
      assert LazyMatchAt(s, open, close, from).None?;
      FindLazyMatchAt(s, open, close, from + 1, m);
    } else {
      LazyMatchAtIsMatch(s, open, close, m);
    }
  }

  /** An opening followed, on the same line, by a `close` at `c` starts a match, which ends at
      the first such `close`. */
  lemma {:induction false} LazyMatchFrom(s: string, open: string, close: string, p: nat, c: nat)
    requires p + |open| <= c && OccursAt(s, open, p)
    requires OccursAt(s, close, c) && NoLineBreak(s, p + |open|, c)
    ensures LazyMatchAt(s, open, close, p).Some? && LazyMatchAt(s, open, close, p).value.end <= c + |close|
  {
    var first := IndexOf(s, close, p + |open|);
    assert first != -1 && first <= c;
    assert NoLineBreak(s, p + |open|, first);
  }

  /** A copy of a match's text elsewhere is a match too. */
  lemma {:induction false} LazyMatchCopy(s: string, open: string, close: string, m: StampMatch, q: nat)
    requires IsLazyMatch(s, open, close, m) && q + (m.end - m.start) <= |s|
    requires s[q..q + (m.end - m.start)] == s[m.start..m.end]
    ensures LazyMatchAt(s, open, close, q).Some?
  {
    BracketCopy(s, open, close, q, m.start, m.end - m.start);
    LazyMatchFrom(s, open, close, q, q + (m.end - m.start - |close|));
  }

  /** An opening, a closing and no line terminator between them are repeated in every copy of
      the text they span. */
  lemma {:induction false} BracketCopy(s: string, open: string, close: string, a: nat, b: nat, len: nat)
    requires a + len <= |s| && b + len <= |s| && s[a..a + len] == s[b..b + len]
    requires |open| + |close| <= len && OccursAt(s, open, b) && OccursAt(s, close, b + (len - |close|))
    requires NoLineBreak(s, b + |open|, b + (len - |close|))
    ensures OccursAt(s, open, a) && OccursAt(s, close, a + (len - |close|))
    ensures NoLineBreak(s, a + |open|, a + (len - |close|))
  {
    OccursInCopy(s, open, a, b, len, 0);
    OccursInCopy(s, close, a, b, len, len - |close|);
    forall k | a + |open| <= k < a + (len - |close|) ensures !IsLineTerminator(s[k]) {
      assert s[k] == s[a..a + len][k - a];
      assert s[b + (k - a)] == s[b..b + len][k - a];
    }
  }

  /** The text of the leftmost match is first found where the match starts, so
      `contentAfterTarget.indexOf(timestampMatch[0])` is the start of the match. */
  lemma {:induction false} LazyMatchIndexIsStart(s: string, open: string, close: string, m: StampMatch)
    requires FindLazyMatch(s, open, close, 0) == Some(m)
    ensures IndexOf(s, s[m.start..m.end], 0) == m.start
  {
    var x := s[m.start..m.end];
    FindLazyMatchLeftmost(s, open, close, 0);
    forall q: nat | q < m.start ensures !OccursAt(s, x, q) {
      if OccursAt(s, x, q) {
        LazyMatchCopy(s, open, close, m, q);
        assert false;
      }
    }
    IndexOfAt(s, x, 0, m.start);
  }

  /** `open + text + close` is one line that `open.*?close` matches in full: no line terminator
      in it, no `close` in the text, and no `close` that overlaps another. */
  predicate PlainLine(open: string, text: string, close: string) {
    && NoLineBreak(open, 0, |open|) && NoLineBreak(close, 0, |close|) && Borderless(close)
    && NoLineBreak(text, 0, |text|) && Absent(text, close)
  }

  /** A line written at `p` has its opening at `p`, its text after that and its closing after
      the text. */
  lemma {:induction false} LineParts(s: string, open: string, text: string, close: string, line: string, p: nat)
    requires line == open + text + close && p + |line| <= |s| && s[p..p + |line|] == line
    ensures OccursAt(s, open, p) && OccursAt(s, close, p + |open| + |text|)
    ensures forall k :: p + |open| <= k < p + |open| + |text| ==> s[k] == text[k - p - |open|]
  {
    var e := p + |open| + |text|;
    assert s[p..p + |open|] == line[..|open|];
    assert s[e..e + |close|] == line[|open| + |text|..];
    forall k | p + |open| <= k < e ensures s[k] == text[k - p - |open|] {
      assert s[k] == s[p..p + |line|][k - p];
    }
  }

  /** A text without `close` followed by a `close` that cannot overlap itself holds no `close`
      that starts inside it. */
  lemma {:induction false} NoCloseInside(s: string, text: string, close: string, b: nat)
    requires Borderless(close) && Absent(text, close)
    requires b + |text| + |close| <= |s| && OccursAt(s, close, b + |text|)
    requires forall k :: b <= k < b + |text| ==> s[k] == text[k - b]
    ensures forall i :: b <= i < b + |text| ==> !OccursAt(s, close, i)
  {
    forall i: nat | b <= i < b + |text| ensures !OccursAt(s, close, i) {
      if i + |close| <= b + |text| {
        ShiftedSlice(s, text, -(b as int), i, i + |close|);
        assert !OccursAt(text, close, i - b);
      } else {
        OverlapIsBorder(s, close, i, b + |text|);
      }
    }
  }

  /** A plain line written at `p` is a match, ending where the line ends. */
  lemma {:induction false} LineIsLazyMatch(s: string, open: string, text: string, close: string, line: string,
                                          p: nat)
    requires PlainLine(open, text, close) && line == open + text + close
    requires p + |line| <= |s| && s[p..p + |line|] == line
    ensures IsLazyMatch(s, open, close, StampMatch(p, p + |line|))
  {
    LineParts(s, open, text, close, line, p);
    NoCloseInside(s, text, close, p + |open|);
    IndexOfAt(s, close, p + |open|, p + |open| + |text|);
  }

  /** A match the leftmost match does not cover cannot start before it once its text after the
      opening is replaced: a line terminator before the first `close` from such a start lies
      before the leftmost match, and stays before every `close` of the new text. */
  lemma {:induction false} EarlierMatchKept(s: string, s': string, open: string, close: string, m: StampMatch, q: nat)
    requires NoLineBreak(open, 0, |open|) && NoLineBreak(close, 0, |close|)
    requires IsLazyMatch(s, open, close, m) && q < m.start && LazyMatchAt(s, open, close, q).None?
    requires m.start + |open| <= |s'| && s'[..m.start + |open|] == s[..m.start + |open|]
    ensures LazyMatchAt(s', open, close, q).None?
  {
    var n := m.start + |open|;
    if OccursAt(s', open, q) {
      OccursInSharedPrefix(s', s, open, n, q);
      var c := IndexOf(s, close, q + |open|);
      assert c != -1 && c <= m.end - |close| by {
        assert OccursAt(s, close, m.end - |close|);
      }
      assert !NoLineBreak(s, q + |open|, c);
      var k :| q + |open| <= k < c && IsLineTerminator(s[k]);
      if m.start <= k < n {
        OccurrenceCharAt(s, open, m.start, k);
        assert false;
      }
      assert k < m.start;
      assert s'[k] == s[k] by {
        assert s'[k] == s'[..n][k];
        assert s[k] == s[..n][k];
      }
      var c' := IndexOf(s', close, q + |open|);
      if c' != -1 && c' <= k {
        if k < c' + |close| {
          OccurrenceCharAt(s', close, c', k);
          assert false;
        }
        OccursInSharedPrefix(s', s, close, n, c');
        assert false;
      }
    }
  }

  /** No match starts before the leftmost one once the text after its opening is replaced. */
  lemma {:induction false} NoEarlierMatch(s: string, s': string, open: string, close: string, m: StampMatch)
    requires FindLazyMatch(s, open, close, 0) == Some(m)
    requires NoLineBreak(open, 0, |open|) && NoLineBreak(close, 0, |close|)
    requires m.start + |open| <= |s'| && s'[..m.start + |open|] == s[..m.start + |open|]
    ensures forall q :: 0 <= q < m.start ==> LazyMatchAt(s', open, close, q).None?
  {
    FindLazyMatchLeftmost(s, open, close, 0);
    forall q | 0 <= q < m.start ensures LazyMatchAt(s', open, close, q).None? {
      EarlierMatchKept(s, s', open, close, m, q);
    }
  }

  /** A text that keeps everything up to the end of the leftmost match's opening and has a plain
      line where that match starts has that line as its leftmost match. */
  lemma {:induction false} MatchFoundOver(s: string, s': string, open: string, text: string, close: string,
                                         line: string, m: StampMatch)
    requires FindLazyMatch(s, open, close, 0) == Some(m)
    requires PlainLine(open, text, close) && line == open + text + close
    requires m.start + |open| <= |s'| && s'[..m.start + |open|] == s[..m.start + |open|]
    requires m.start + |line| <= |s'| && s'[m.start..m.start + |line|] == line
    ensures FindLazyMatch(s', open, close, 0) == Some(StampMatch(m.start, m.start + |line|))
  {
    LineIsLazyMatch(s', open, text, close, line, m.start);
    NoEarlierMatch(s, s', open, close, m);
    FindLazyMatchAt(s', open, close, 0, StampMatch(m.start, m.start + |line|));
  }

  /** A line that starts with the opening found at `p`, written at `p`, keeps the text up to the
      end of that opening. */
  lemma {:induction false} OpeningKept(s: string, s': string, open: string, line: string, p: nat)
    requires p + |open| <= |s| && OccursAt(s, open, p)
    requires |open| <= |line| && line[..|open|] == open
    requires p + |line| <= |s'| && s'[..p] == s[..p] && s'[p..p + |line|] == line
    ensures s'[..p + |open|] == s[..p + |open|]
  {
    var n := p + |open|;
    assert s'[p..n] == line[..|open|];
    assert s'[..n] == s'[..p] + s'[p..n];
    assert s[..n] == s[..p] + s[p..n];
  }

  /** Writing a plain line over the leftmost match leaves it the leftmost match. */
  lemma {:induction false} ReplacedMatchFound(s: string, s': string, open: string, text: string, close: string,
                                             line: string, m: StampMatch)
    requires FindLazyMatch(s, open, close, 0) == Some(m)
    requires PlainLine(open, text, close) && line == open + text + close
    requires m.start + |line| <= |s'| && s'[..m.start] == s[..m.start] && s'[m.start..m.start + |line|] == line
    ensures FindLazyMatch(s', open, close, 0) == Some(StampMatch(m.start, m.start + |line|))
  {
    assert line[..|open|] == open;
    OpeningKept(s, s', open, line, m.start);
    MatchFoundOver(s, s', open, text, close, line, m);
  }

  /** A plain line inserted at the start is the leftmost match. */
  lemma {:induction false} InsertedMatchFound(s: string, open: string, text: string, close: string, line: string)
    requires PlainLine(open, text, close) && line == open + text + close
    ensures FindLazyMatch(line + "\n" + s, open, close, 0) == Some(StampMatch(0, |line|))
  {
    var s' := line + "\n" + s;
    assert s'[0..|line|] == line;
    LineIsLazyMatch(s', open, text, close, line, 0);
    FindLazyMatchAt(s', open, close, 0, StampMatch(0, |line|));
  }

  /** `"\n"` occurs exactly where the text holds a line feed. */
  lemma {:induction false} LineFeeds(s: string)
    ensures forall k :: 0 <= k <= |s| ==> (OccursAt(s, "\n", k) <==> k < |s| && s[k] == '\n')
  {
    forall k | 0 <= k <= |s| ensures OccursAt(s, "\n", k) <==> k < |s| && s[k] == '\n' {
      if k < |s| {
        assert s[k..k + 1] == [s[k]];
      }
    }
  }

  /** `content.indexOf('\n', from) + 1`: just past the first line feed at or after `from`, and 0
      when there is none. */
  function NextLineStart(content: string, from: nat): (r: nat)
    requires from <= |content|
    ensures r == 0 <==> forall k :: from <= k < |content| ==> content[k] != '\n'
    ensures r > 0 ==> from < r <= |content| && content[r - 1] == '\n'
                      && forall k :: from <= k < r - 1 ==> content[k] != '\n'
  {
    LineFeeds(content);
    IndexOf(content, "\n", from) + 1
  }

  /** The splice of `updateTimestamp(content)`, with the timestamp text given: nothing when the
      update notice is missing, and the timestamp line written at the line after it otherwise. */
  function UpdateTimestamp(content: string, timestamp: string): (r: string)
    ensures Absent(content, UpdateNotice) ==> r == content
  {
    var targetIndex := IndexOf(content, UpdateNotice, 0);
    if targetIndex == -1 then content
    else
      var nextLineStart := NextLineStart(content, targetIndex + |UpdateNotice|);
      WriteStampLine(content, nextLineStart, TimestampLine(timestamp), FindStamp(content[nextLineStart..]))
  }

  /** The timestamp line written at `nextLineStart`, given the first timestamp line `found` after
      it: over that one when its text is first found within `SearchRange` code units, and as a
      line of its own otherwise. */
  function WriteStampLine(content: string, nextLineStart: nat, line: string, found: Option<StampMatch>): (r: string)
    requires nextLineStart <= |content|
    requires found.Some? ==> found.value.start <= found.value.end <= |content| - nextLineStart
  {
    var after := content[nextLineStart..];
    if found.Some? && (assert OccursAt(after, after[found.value.start..found.value.end], found.value.start);
                       WithinRange(after, IndexOf(after, after[found.value.start..found.value.end], 0))) then
      var oldIndex := nextLineStart + IndexOf(after, after[found.value.start..found.value.end], 0);
      var oldEnd := oldIndex + (found.value.end - found.value.start);
      content[..oldIndex] + line + content[oldEnd..]
    else
      content[..nextLineStart] + line + "\n" + content[nextLineStart..]
  }

  /** A timestamp the pattern can match in full: no line terminator and no `）}}` in it. */
  predicate PlainTimestamp(timestamp: string) {
    NoLineBreak(timestamp, 0, |timestamp|) && Absent(timestamp, StampClose)
  }

  /** The opening holds no line terminator and `）}}` cannot overlap itself, so a plain timestamp
      makes a plain line. */
  lemma {:induction false} PlainTimestampLine(timestamp: string)
    requires PlainTimestamp(timestamp)
    ensures PlainLine(StampOpen, timestamp, StampClose)
  {
    assert StampClose[..1][0] == '）' && StampClose[2..][0] == '}';
    assert StampClose[..2][0] == '）' && StampClose[1..][0] == '}';
  }

  /** A plain timestamp line written over the leftmost timestamp line is found in its place. */
  lemma {:induction false} ReplacedStampFound(s: string, s': string, timestamp: string, m: StampMatch)
    requires FindStamp(s) == Some(m) && PlainTimestamp(timestamp)
    requires m.start + |TimestampLine(timestamp)| <= |s'| && s'[..m.start] == s[..m.start]
    requires s'[m.start..m.start + |TimestampLine(timestamp)|] == TimestampLine(timestamp)
    ensures FindStamp(s') == Some(StampMatch(m.start, m.start + |TimestampLine(timestamp)|))
  {
    PlainTimestampLine(timestamp);
    ReplacedMatchFound(s, s', StampOpen, timestamp, StampClose, TimestampLine(timestamp), m);
  }

  /** A plain timestamp line inserted at the start is the leftmost timestamp line. */
  lemma {:induction false} InsertedStampFound(s: string, timestamp: string)
    requires PlainTimestamp(timestamp)
    ensures FindStamp(TimestampLine(timestamp) + "\n" + s) == Some(StampMatch(0, |TimestampLine(timestamp)|))
  {
    PlainTimestampLine(timestamp);
    InsertedMatchFound(s, StampOpen, timestamp, StampClose, TimestampLine(timestamp));
  }

  /** The update notice is first found at `targetIndex`, and the line after it starts at
      `nextLineStart` (0 when no line feed follows the notice). */
  predicate NoticeAt(content: string, targetIndex: nat, nextLineStart: nat) {
    && IndexOf(content, UpdateNotice, 0) == targetIndex
    && targetIndex + |UpdateNotice| <= |content|
    && NextLineStart(content, IndexOf(content, UpdateNotice, 0) + |UpdateNotice|) == nextLineStart
  }

  /** The notice sits at `targetIndex`, and `m` is the leftmost match after the start of its next
      line, starting within the search window from it. */
  predicate StampNear(content: string, targetIndex: nat, nextLineStart: nat, m: StampMatch) {
    && NoticeAt(content, targetIndex, nextLineStart)
    && FindStamp(content[nextLineStart..]) == Some(m) && WithinRange(content[nextLineStart..], m.start)
  }

  /** The notice sits at `targetIndex`, and no match starts within the search window from the
      start of its next line. */
  predicate NoStampNear(content: string, targetIndex: nat, nextLineStart: nat) {
    && NoticeAt(content, targetIndex, nextLineStart)
    && var found := FindStamp(content[nextLineStart..]);
       !(found.Some? && WithinRange(content[nextLineStart..], found.value.start))
  }

  /** A text that keeps everything before the next line finds the notice and the next line where
      they were. */
  lemma {:induction false} NoticeKept(content: string, r: string, targetIndex: nat, nextLineStart: nat)
    requires NoticeAt(content, targetIndex, nextLineStart) && nextLineStart > 0
    requires nextLineStart <= |r| && r[..nextLineStart] == content[..nextLineStart]
    ensures NoticeAt(r, targetIndex, nextLineStart)
  {
    IndexOfKept(content, r, UpdateNotice, 0, nextLineStart);
    IndexOfKept(content, r, "\n", targetIndex + |UpdateNotice|, nextLineStart);
  }

  /** `updateTimestamp` writes at the line after the notice. */
  lemma {:induction false} UpdateTimestampAt(content: string, timestamp: string, targetIndex: nat, nextLineStart: nat)
    requires NoticeAt(content, targetIndex, nextLineStart)
    ensures UpdateTimestamp(content, timestamp)
         == WriteStampLine(content, nextLineStart, TimestampLine(timestamp), FindStamp(content[nextLineStart..]))
  {
  }

  /** `WriteStampLine` over a match whose text is first found where it starts, close enough to
      the next line. */
  lemma {:induction false} WriteOver(content: string, nextLineStart: nat, line: string, m: StampMatch)
    requires nextLineStart <= |content| && m.start <= m.end <= |content| - nextLineStart
    requires IndexOf(content[nextLineStart..], content[nextLineStart..][m.start..m.end], 0) == m.start
    requires WithinRange(content[nextLineStart..], m.start)
    ensures WriteStampLine(content, nextLineStart, line, Some(m))
         == content[..nextLineStart + m.start] + line + content[nextLineStart + m.end..]
  {
  }

  /** `WriteStampLine` without a match close enough to the next line. */
  lemma {:induction false} WriteInserted(content: string, nextLineStart: nat, line: string)
    requires nextLineStart <= |content|
    requires var found := FindStamp(content[nextLineStart..]);
             !(found.Some? && WithinRange(content[nextLineStart..], found.value.start))
    ensures WriteStampLine(content, nextLineStart, line, FindStamp(content[nextLineStart..]))
         == content[..nextLineStart] + line + "\n" + content[nextLineStart..]
  {
    var after := content[nextLineStart..];
    var found := FindStamp(after);
    if found.Some? {
      LazyMatchIndexIsStart(after, StampOpen, StampClose, found.value);
    }
  }

  /** The parts of a text with a line inserted at `n`. */
  lemma {:induction false} InsertedParts(content: string, r: string, line: string, n: nat)
    requires n <= |content| && r == content[..n] + line + ("\n" + content[n..])
    ensures |r| == |content| + |line| + 1
    ensures r[..n] == content[..n] && r[n..] == line + "\n" + content[n..]
    ensures r[n + |line|..] == "\n" + content[n..]
  {
    assert r[..n] == content[..n];
    assert r[n..] == line + "\n" + content[n..];
    assert r[n + |line|..] == "\n" + content[n..];
  }

  /** The parts of a text with `[n + a, n + b)` overwritten by a line. */
  lemma {:induction false} OverwrittenParts(content: string, r: string, line: string, n: nat, a: nat, b: nat)
    requires n + a <= n + b <= |content| && r == content[..n + a] + line + content[n + b..]
    ensures |r| == |content| - (b - a) + |line|
    ensures r[..n] == content[..n] && r[..n + a] == content[..n + a]
    ensures r[n..][..a] == content[n..][..a] && r[n..][a..a + |line|] == line
    ensures r[n + (a + |line|)..] == content[n + b..]
  {
    assert r[..n + a] == content[..n + a];
    assert r[..n] == r[..n + a][..n];
    assert content[..n] == content[..n + a][..n];
    assert r[n..][..a] == r[..n + a][n..];
    assert content[n..][..a] == content[..n + a][n..];
    assert r[n..][a..a + |line|] == line;
    assert r[n + (a + |line|)..] == content[n + b..];
  }

  /** `updateTimestamp` over a match close enough to the next line: the match is replaced by the
      new timestamp line. */
  lemma {:induction false} UpdateOver(content: string, timestamp: string, targetIndex: nat, nextLineStart: nat,
                                     m: StampMatch)
    requires StampNear(content, targetIndex, nextLineStart, m)
    ensures nextLineStart + m.end <= |content|
    ensures UpdateTimestamp(content, timestamp)
         == content[..nextLineStart + m.start] + TimestampLine(timestamp) + content[nextLineStart + m.end..]
  {
    UpdateTimestampAt(content, timestamp, targetIndex, nextLineStart);
    LazyMatchIndexIsStart(content[nextLineStart..], StampOpen, StampClose, m);
    WriteOver(content, nextLineStart, TimestampLine(timestamp), m);
  }

  /** `updateTimestamp` without a match close enough to the next line: the new timestamp line is
      inserted as a line of its own at the start of the next line. */
  lemma {:induction false} UpdateInserted(content: string, timestamp: string, targetIndex: nat, nextLineStart: nat)
    requires NoStampNear(content, targetIndex, nextLineStart)
    ensures UpdateTimestamp(content, timestamp)
         == content[..nextLineStart] + TimestampLine(timestamp) + ("\n" + content[nextLineStart..])
  {
    UpdateTimestampAt(content, timestamp, targetIndex, nextLineStart);
    WriteInserted(content, nextLineStart, TimestampLine(timestamp));
    assert content[..nextLineStart] + TimestampLine(timestamp) + "\n" + content[nextLineStart..]
        == content[..nextLineStart] + TimestampLine(timestamp) + ("\n" + content[nextLineStart..]);
  }

  /** After an inserted line, the notice, the next line and the inserted line are found again. */
  lemma {:induction false} InsertedFound(content: string, r: string, t1: string, targetIndex: nat, nextLineStart: nat)
    requires NoticeAt(content, targetIndex, nextLineStart) && nextLineStart > 0 && PlainTimestamp(t1)
    requires r == content[..nextLineStart] + TimestampLine(t1) + ("\n" + content[nextLineStart..])
    ensures StampNear(r, targetIndex, nextLineStart, StampMatch(0, |TimestampLine(t1)|))
    ensures r[..nextLineStart + 0] == content[..nextLineStart]
    ensures r[nextLineStart + |TimestampLine(t1)|..] == "\n" + content[nextLineStart..]
  {
    InsertedParts(content, r, TimestampLine(t1), nextLineStart);
    NoticeKept(content, r, targetIndex, nextLineStart);
    InsertedStampFound(content[nextLineStart..], t1);
  }

  /** After a line written over a match, the notice, the next line and the written line are found
      again: the text before the match is kept, and the line stands where the match started. */
  lemma {:induction false} OverwrittenFound(content: string, r: string, t1: string, targetIndex: nat,
                                           nextLineStart: nat, m: StampMatch)
    requires StampNear(content, targetIndex, nextLineStart, m) && nextLineStart > 0 && PlainTimestamp(t1)
    requires nextLineStart + m.start + |TimestampLine(t1)| <= |r| && r[..nextLineStart] == content[..nextLineStart]
    requires r[nextLineStart..][..m.start] == content[nextLineStart..][..m.start]
    requires r[nextLineStart..][m.start..m.start + |TimestampLine(t1)|] == TimestampLine(t1)
    ensures StampNear(r, targetIndex, nextLineStart, StampMatch(m.start, m.start + |TimestampLine(t1)|))
  {
    NoticeKept(content, r, targetIndex, nextLineStart);
    ReplacedStampFound(content[nextLineStart..], r[nextLineStart..], t1, m);
  }

  /** Updating twice is updating once with the later timestamp, when the notice line ends in a line
      feed and the first timestamp holds neither a line terminator nor `）}}`: the second update
      finds the line the first one wrote. A notice on the page's last line is not covered: then
      `nextLineStart` is 0, the search for an old timestamp starts at the top of the page, and a
      timestamp line found there may lie before the notice or even enclose it, so the second
      update need not write where the first one did. */
  lemma {:induction false} UpdateTimestampTwice(content: string, t1: string, t2: string, targetIndex: nat)
    requires IndexOf(content, UpdateNotice, 0) == targetIndex
    requires targetIndex + |UpdateNotice| <= |content|
    requires NextLineStart(content, targetIndex + |UpdateNotice|) > 0
    requires PlainTimestamp(t1)
    ensures UpdateTimestamp(UpdateTimestamp(content, t1), t2) == UpdateTimestamp(content, t2)
  {
    var nextLineStart := NextLineStart(content, targetIndex + |UpdateNotice|);
    var found := FindStamp(content[nextLineStart..]);
    if found.Some? && WithinRange(content[nextLineStart..], found.value.start) {
      OverThenOver(content, t1, t2, targetIndex, nextLineStart, found.value);
    } else {
      InsertedThenOver(content, t1, t2, targetIndex, nextLineStart);
    }
  }

  /** The second update writes over the line the first one wrote over an existing one. */
  lemma {:induction false} OverThenOver(content: string, t1: string, t2: string, targetIndex: nat,
                                       nextLineStart: nat, m: StampMatch)
    requires StampNear(content, targetIndex, nextLineStart, m) && nextLineStart > 0 && PlainTimestamp(t1)
    ensures UpdateTimestamp(UpdateTimestamp(content, t1), t2) == UpdateTimestamp(content, t2)
  {
    UpdateOver(content, t1, targetIndex, nextLineStart, m);
    UpdateOver(content, t2, targetIndex, nextLineStart, m);
    OverwrittenTwice(content, content[..nextLineStart + m.start] + TimestampLine(t1) + content[nextLineStart + m.end..],
                     t1, t2, targetIndex, nextLineStart, m);
  }

  /** Updating the page written over a match writes the second line where the match was. */
  lemma {:induction false} OverwrittenTwice(content: string, r: string, t1: string, t2: string, targetIndex: nat,
                                           nextLineStart: nat, m: StampMatch)
    requires StampNear(content, targetIndex, nextLineStart, m) && nextLineStart > 0 && PlainTimestamp(t1)
    requires nextLineStart + m.end <= |content|
    requires r == content[..nextLineStart + m.start] + TimestampLine(t1) + content[nextLineStart + m.end..]
    ensures UpdateTimestamp(r, t2)
         == content[..nextLineStart + m.start] + TimestampLine(t2) + content[nextLineStart + m.end..]
  {
    OverwrittenParts(content, r, TimestampLine(t1), nextLineStart, m.start, m.end);
    OverwrittenFound(content, r, t1, targetIndex, nextLineStart, m);
    UpdateAgain(r, t2, targetIndex, nextLineStart, StampMatch(m.start, m.start + |TimestampLine(t1)|),
                content[..nextLineStart + m.start], content[nextLineStart + m.end..]);
  }

  /** The second update writes over the line the first one inserted. */
  lemma {:induction false} InsertedThenOver(content: string, t1: string, t2: string, targetIndex: nat,
                                           nextLineStart: nat)
    requires NoStampNear(content, targetIndex, nextLineStart) && nextLineStart > 0 && PlainTimestamp(t1)
    ensures UpdateTimestamp(UpdateTimestamp(content, t1), t2) == UpdateTimestamp(content, t2)
  {
    UpdateInserted(content, t1, targetIndex, nextLineStart);
    UpdateInserted(content, t2, targetIndex, nextLineStart);
    InsertedTwice(content, content[..nextLineStart] + TimestampLine(t1) + ("\n" + content[nextLineStart..]),
                  t1, t2, targetIndex, nextLineStart);
  }

  /** Updating the page with an inserted line writes the second line over the inserted one. */
  lemma {:induction false} InsertedTwice(content: string, r: string, t1: string, t2: string, targetIndex: nat,
                                        nextLineStart: nat)
    requires NoticeAt(content, targetIndex, nextLineStart) && nextLineStart > 0 && PlainTimestamp(t1)
    requires r == content[..nextLineStart] + TimestampLine(t1) + ("\n" + content[nextLineStart..])
    ensures UpdateTimestamp(r, t2) == content[..nextLineStart] + TimestampLine(t2) + ("\n" + content[nextLineStart..])
  {
    InsertedFound(content, r, t1, targetIndex, nextLineStart);
    UpdateAgain(r, t2, targetIndex, nextLineStart, StampMatch(0, |TimestampLine(t1)|),
                content[..nextLineStart], "\n" + content[nextLineStart..]);
  }

  /** With a match near the notice, the update writes the new line between what precedes and
      what follows that match. */
  lemma {:induction false} UpdateAgain(r: string, t2: string, targetIndex: nat, nextLineStart: nat,
                                      m: StampMatch, before: string, after: string)
    requires StampNear(r, targetIndex, nextLineStart, m)
    requires r[..nextLineStart + m.start] == before && r[nextLineStart + m.end..] == after
    ensures UpdateTimestamp(r, t2) == before + TimestampLine(t2) + after
  {
    UpdateOver(r, t2, targetIndex, nextLineStart, m);
  }
}
