/** The two small page splicers of the ledger code: appending an entry to the area of a
    submission page that lies between its first `</noinclude>` and the next `<noinclude>`
    (`addItemBetweenNoinclude`), and rewriting the two numbers of the status box on a
    participant's user page (`updateUserPageContent`). */
module PageSplicers {
  import opened Text

  // ---------------------------------------------------------------------------------------------
  // addItemBetweenNoinclude
  // ---------------------------------------------------------------------------------------------

  const NoincludeClose := "</noinclude>"
  const NoincludeOpen := "<noinclude>"

  /** `w.indexOf('</noinclude>')`. */
  function CloseIndex(w: string): int {
    IndexOf(w, NoincludeClose, 0)
  }

  /** `w.indexOf('<noinclude>', endNoincludeIndex)`. */
  function OpenIndex(w: string): int
    requires CloseIndex(w) >= 0
  {
    IndexOf(w, NoincludeOpen, CloseIndex(w))
  }

  /** Both markers are present, so the area between them exists. */
  predicate HasArea(w: string) {
    CloseIndex(w) >= 0 && OpenIndex(w) >= 0
  }

  /** The `<noinclude>` found from a `</noinclude>` on cannot begin inside it: the only `<` of
      `</noinclude>` is its first character, and the next characters `/` and `n` differ. */
  lemma {:induction false} OpenAfterClose(w: string, e: nat, s: nat)
    requires e <= s && OccursAt(w, NoincludeClose, e) && OccursAt(w, NoincludeOpen, s)
    ensures e + |NoincludeClose| <= s
  {
    if s < e + |NoincludeClose| {
      OpenNotInClose(w, e, s - e);
    }
  }

  /** No `<noinclude>` starts inside a `</noinclude>`. */
  lemma {:induction false} OpenNotInClose(w: string, e: nat, d: nat)
    requires OccursAt(w, NoincludeClose, e) && d < |NoincludeClose|
    ensures !OccursAt(w, NoincludeOpen, e + d)
  {
    if e + d + |NoincludeOpen| <= |w| {
      assert w[e + d..e + d + |NoincludeOpen|][0] == w[e..e + |NoincludeClose|][d];
      if d == 0 {
        assert w[e..e + |NoincludeOpen|][1] == w[e..e + |NoincludeClose|][1];
      }
    }
  }

  /** Where the area begins: just after the first `</noinclude>`. */
  function AreaStart(w: string): (r: nat)
    requires HasArea(w)
    ensures r <= OpenIndex(w) <= |w|
  {
    OpenAfterClose(w, CloseIndex(w), OpenIndex(w));
    CloseIndex(w) + |NoincludeClose|
  }

  /** The area after an entry is appended: a line break first when the area is non-empty and does
      not already end with one, then the entry and a line break. */
  function AreaWithItem(area: string, addItem: string): string {
    (if |area| > 0 && !EndsWith(area, "\n") then area + "\n" else area) + addItem + "\n"
  }

  /** `addItemBetweenNoinclude(originalWikitext, addItem)`. */
  function AddItemBetweenNoinclude(w: string, addItem: string): (r: string)
    ensures !HasArea(w) ==> r == w
    ensures HasArea(w) ==> |r| > |w|
  {
    if CloseIndex(w) == -1 then w
    else if OpenIndex(w) == -1 then w
    else
      var insertStart := AreaStart(w);
      var areaContent := w[insertStart..OpenIndex(w)];
      w[..insertStart] + AreaWithItem(areaContent, addItem) + w[OpenIndex(w)..]
  }

  /** The text up to and including the first `</noinclude>` and the text from the following
      `<noinclude>` on are kept; between them the old area is kept, followed by a line break
      exactly when the area is non-empty and lacks a final one, then by the entry and a line break. */
  lemma {:induction false} AddItemSplice(w: string, addItem: string)
    requires HasArea(w)
    ensures var r := AddItemBetweenNoinclude(w, addItem);
            var s := AreaStart(w);
            var tail := |w| - OpenIndex(w);
            var area := w[s..OpenIndex(w)];
            var brk := if |area| > 0 && w[OpenIndex(w) - 1] != '\n' then "\n" else "";
            && s + tail <= |r|
            && r[..s] == w[..s]
            && r[|r| - tail..] == w[OpenIndex(w)..]
            && r[s..|r| - tail] == area + brk + addItem + "\n"
  {
    var r := AddItemBetweenNoinclude(w, addItem);
    var s := AreaStart(w);
    var o := OpenIndex(w);
    var area := w[s..o];
    if |area| > 0 {
      assert EndsWith(area, "\n") <==> w[o - 1] == '\n' by {
        assert area[|area| - 1..] == [w[o - 1]];
      }
    }
    var mid := AreaWithItem(area, addItem);
    assert r == w[..s] + mid + w[o..];
    assert r[..s] == w[..s];
    assert r[|r| - (|w| - o)..] == w[o..];
    assert r[s..|r| - (|w| - o)] == mid;
  }

  /** After an entry is appended, the markers are found at the same `</noinclude>` and at the
      shifted `<noinclude>`, so the area a second call extends is the area just written, as long
      as the entry holds no `<noinclude>` of its own. */
  lemma {:induction false} AddItemAreaFound(w: string, addItem: string)
    requires HasArea(w)
    requires Absent(addItem, NoincludeOpen)
    ensures var r := AddItemBetweenNoinclude(w, addItem);
            && HasArea(r)
            && CloseIndex(r) == CloseIndex(w)
            && AreaStart(r) == AreaStart(w)
            && r[AreaStart(r)..OpenIndex(r)] == AreaWithItem(w[AreaStart(w)..OpenIndex(w)], addItem)
  {
    var r := AddItemBetweenNoinclude(w, addItem);
    var e := CloseIndex(w);
    var s := AreaStart(w);
    var o := OpenIndex(w);
    var area := w[s..o];
    var mid := AreaWithItem(area, addItem);
    var o' := s + |mid|;
    assert r == w[..s] + mid + w[o..];
    AddItemSplice(w, addItem);
    // The first `</noinclude>` lies in the kept prefix.
    var t := w[..s];
    assert OccursAt(t, NoincludeClose, e) by {
      assert t[e..s] == w[e..s];
    }
    IndexOfInPrefix(w, t, NoincludeClose, 0);
    IndexOfInPrefix(r, t, NoincludeClose, 0);
    assert CloseIndex(r) == e;
    // The `<noinclude>` follows the new area.
    assert r[o'..] == w[o..];
    assert OccursAt(r, NoincludeOpen, o') by {
      assert r[o'..o' + |NoincludeOpen|] == r[o'..][..|NoincludeOpen|] == w[o..][..|NoincludeOpen|];
    }
    forall j: nat | e <= j < o' ensures !OccursAt(r, NoincludeOpen, j) {
      NoOpenInNewArea(w, addItem, j);
    }
    IndexOfAt(r, NoincludeOpen, e, o');
    assert r[s..o'] == mid;
  }

  /** The step of `AddItemAreaFound`: no `<noinclude>` starts in the widened area. */
  lemma {:induction false} NoOpenInNewArea(w: string, addItem: string, j: nat)
    requires HasArea(w)
    requires Absent(addItem, NoincludeOpen)
    requires CloseIndex(w) <= j < AreaStart(w) + |AreaWithItem(w[AreaStart(w)..OpenIndex(w)], addItem)|
    ensures !OccursAt(AddItemBetweenNoinclude(w, addItem), NoincludeOpen, j)
  {
    var s := AreaStart(w);
    var o := OpenIndex(w);
    var area := w[s..o];
    var brk := if |area| > 0 && !EndsWith(area, "\n") then "\n" else "";
    var added := brk + addItem + "\n";
    AddItemInserts(w, addItem, added);
    assert |AreaWithItem(area, addItem)| == |area| + |added|;
    if s < o && brk == "" {
      assert area[|area| - 1..] == "\n";
      assert w[o - 1] == area[|area| - 1];
    }
    NoOpenInAdded(brk, addItem);
    InsertedNoOpen(w, added, CloseIndex(w), s, o, j);
  }

  /** The inserted text holds no `<noinclude>` when the entry holds none: one that reached into
      a line break on either side of the entry would hold that line break. */
  lemma {:induction false} NoOpenInAdded(brk: string, addItem: string)
    requires brk == "" || brk == "\n"
    requires Absent(addItem, NoincludeOpen)
    ensures Absent(brk + addItem + "\n", NoincludeOpen)
  {
    var added := brk + addItem + "\n";
    var n := |NoincludeOpen|;
    OpenHasNoBreak();
    forall p | 0 <= p <= |added| ensures !OccursAt(added, NoincludeOpen, p) {
      if p + n <= |added| {
        if p < |brk| {
          assert added[p..p + n][0] == added[0] == '\n';
        } else if p + n < |added| {
          assert added[p..p + n] == addItem[p - |brk|..p - |brk| + n];
          assert !OccursAt(addItem, NoincludeOpen, p - |brk|);
        } else {
          assert added[p..p + n][n - 1] == added[|added| - 1] == '\n';
        }
      }
    }
  }

  /** `NoOpenAt` for the text with `added` inserted at `o`. */
  lemma {:induction false} InsertedNoOpen(w: string, added: string, e: nat, s: nat, o: nat, j: nat)
    requires s == e + |NoincludeClose| && s <= o <= |w|
    requires OccursAt(w, NoincludeClose, e)
    requires forall i: nat :: e <= i < o ==> !OccursAt(w, NoincludeOpen, i)
    requires Absent(added, NoincludeOpen) && (0 < |added| ==> added[|added| - 1] == '\n')
    requires s < o ==> (w[o - 1] == '\n' || (0 < |added| && added[0] == '\n'))
    requires e <= j < o + |added|
    ensures !OccursAt(w[..o] + added + w[o..], NoincludeOpen, j)
  {
    var r := w[..o] + added + w[o..];
    MiddleChars(w[..o], added, w[o..]);
    forall k | 0 <= k < o ensures r[k] == w[k] {
      assert r[k] == w[..o][k];
    }
    var n := |NoincludeOpen|;
    forall i | o <= i && i + n <= o + |added| ensures !OccursAt(r, NoincludeOpen, i) {
      assert r[i..i + n] == added[i - o..i - o + n];
      assert !OccursAt(added, NoincludeOpen, i - o);
    }
    NoOpenAt(w, r, e, s, o, o + |added|, j);
  }

  /** With an area present, appending inserts `added` just before the `<noinclude>`. */
  lemma {:induction false} AddItemInserts(w: string, addItem: string, added: string)
    requires HasArea(w)
    requires var area := w[AreaStart(w)..OpenIndex(w)];
             added == (if |area| > 0 && !EndsWith(area, "\n") then "\n" else "") + addItem + "\n"
    ensures AddItemBetweenNoinclude(w, addItem) == w[..OpenIndex(w)] + added + w[OpenIndex(w)..]
  {
    var s := AreaStart(w);
    var o := OpenIndex(w);
    var area := w[s..o];
    var brk := if |area| > 0 && !EndsWith(area, "\n") then "\n" else "";
    assert AreaWithItem(area, addItem) == area + (brk + addItem + "\n");
    calc {
      AddItemBetweenNoinclude(w, addItem);
      w[..s] + (area + added) + w[o..];
      { assert w[..s] + (area + added) == (w[..s] + area) + added; }
      (w[..s] + area) + added + w[o..];
      { assert w[..s] + area == w[..o]; }
      w[..o] + added + w[o..];
    }
  }

  /** Neither `<noinclude>` nor `\n` appears inside a `<noinclude>`. */
  lemma {:induction false} OpenHasNoBreak()
    ensures forall k :: 0 <= k < |NoincludeOpen| ==> NoincludeOpen[k] != '\n'
  {
  }

  /** No `<noinclude>` starts at `j` of a text `r` that agrees with `w` up to the area's end, has no
      `<noinclude>` within the part inserted after it, ends that part with a line break, and has a
      line break at the area's end or just after it. */
  lemma {:induction false} NoOpenAt(w: string, r: string, e: nat, s: nat, o: nat, o': nat, j: nat)
    requires s == e + |NoincludeClose| && s <= o <= o' <= |r| && o <= |w|
    requires OccursAt(w, NoincludeClose, e)
    requires forall i: nat :: e <= i < o ==> !OccursAt(w, NoincludeOpen, i)
    requires forall k :: 0 <= k < o ==> r[k] == w[k]
    requires forall i :: o <= i && i + |NoincludeOpen| <= o' ==> !OccursAt(r, NoincludeOpen, i)
    requires o < o' ==> r[o' - 1] == '\n'
    requires s < o ==> (r[o - 1] == '\n' || (o < o' && r[o] == '\n'))
    requires e <= j < o'
    ensures !OccursAt(r, NoincludeOpen, j)
  {
    OccurrenceChars(r, NoincludeOpen, j);
    if j < s {
      assert r[e..s] == w[e..s];
      OpenNotInClose(r, e, j - e);
    } else if j + |NoincludeOpen| <= o {
      assert !OccursAt(w, NoincludeOpen, j);
      assert r[j..j + |NoincludeOpen|] == w[j..j + |NoincludeOpen|];
    } else if j < o {
      OpenHasNoBreak();
      if r[o - 1] == '\n' {
        assert NoincludeOpen[o - 1 - j] != '\n';
      } else {
        assert NoincludeOpen[o - j] != '\n';
      }
    } else if o' < j + |NoincludeOpen| {
      OpenHasNoBreak();
      assert NoincludeOpen[o' - 1 - j] != '\n';
    }
  }

  /** Two entries appended in turn end up one after the other, each followed by a line break. */
  lemma {:induction false} AddItemTwice(w: string, a: string, b: string)
    requires HasArea(w)
    requires Absent(a, NoincludeOpen) && Absent(b, NoincludeOpen)
    ensures var r := AddItemBetweenNoinclude(AddItemBetweenNoinclude(w, a), b);
            && HasArea(r)
            && r[AreaStart(r)..OpenIndex(r)] == AreaWithItem(w[AreaStart(w)..OpenIndex(w)], a) + b + "\n"
  {
    var r1 := AddItemBetweenNoinclude(w, a);
    AddItemAreaFound(w, a);
    AddItemAreaFound(r1, b);
    var area1 := AreaWithItem(w[AreaStart(w)..OpenIndex(w)], a);
    assert r1[AreaStart(r1)..OpenIndex(r1)] == area1;
    assert EndsWith(area1, "\n");
  }

  // ---------------------------------------------------------------------------------------------
  // updateUserPageContent
  // ---------------------------------------------------------------------------------------------

  /** The literal parts of the status-box pattern. Only the lead holds letters, and it is written
      in lower case, so it is the only part compared case-insensitively; on the others the `i`
      flag has no effect. */
  const MboxLead := "{{mbox|type=policy|text={{center|已提交条目数：'''"
  const MboxQuotes := "'''"
  const MboxScoreLead := "目前得分：'''"
  const MboxTail := "'''}}}}"

  /** The lengths of the two long literals, stated once so that they need not be recomputed. */
  const LeadLength := 43
  const ScoreLeadLength := 8

  lemma {:induction false} LiteralLengths()
    ensures |MboxLead| == LeadLength && |MboxScoreLead| == ScoreLeadLength
  {
  }

  /** The lead of the pattern occurs at `p`, case being ignored. */
  predicate LeadAt(w: string, p: nat) {
    p + LeadLength <= |w| && FoldAsciiString(w[p..p + LeadLength]) == MboxLead
  }

  /** The spans of one match of the pattern. The count and the score (groups 2 and 4) lie between
      the kept groups 1, 3 and 5. */
  datatype MboxMatch = MboxMatch(start: nat, countStart: nat, countEnd: nat, scoreStart: nat, scoreEnd: nat, end: nat)

  /** The spans of `m` are in order, leave room for the literals between them, and lie inside `x`. */
  predicate Ordered(x: string, m: MboxMatch) {
    && m.start + LeadLength == m.countStart < m.countEnd
    && m.countEnd + |MboxQuotes| + ScoreLeadLength <= m.scoreStart < m.scoreEnd
    && m.end == m.scoreEnd + |MboxTail| <= |x|
  }

  /** A declarative reading of the pattern at the spans of `m`: the lead, a non-empty run of
      digits, `'''`, a run of white space, the score lead, a non-empty run of digits and dots, and
      the tail. */
  ghost predicate MboxShape(x: string, m: MboxMatch) {
    Ordered(x, m) && LeadAt(x, m.start) && CountShape(x, m) && ScoreShape(x, m)
  }

  /** The part of `MboxShape` from the count to the score lead. */
  ghost predicate CountShape(x: string, m: MboxMatch)
    requires Ordered(x, m)
  {
    && (forall k :: m.countStart <= k < m.countEnd ==> IsDigit(x[k]))
    && OccursAt(x, MboxQuotes, m.countEnd)
    && (forall k :: m.countEnd + |MboxQuotes| <= k < m.scoreStart - ScoreLeadLength ==> IsSpace(x[k]))
  }

  /** The part of `MboxShape` from the score lead on. */
  ghost predicate ScoreShape(x: string, m: MboxMatch)
    requires Ordered(x, m)
  {
    && OccursAt(x, MboxScoreLead, m.scoreStart - ScoreLeadLength)
    && (forall k :: m.scoreStart <= k < m.scoreEnd ==> IsDigitOrDot(x[k]))
    && OccursAt(x, MboxTail, m.scoreEnd)
  }

  /** The status-box pattern tried at `p`. Every repeated class is followed by a literal character
      outside it (`'` after `\d+` and `[\d.]+`, `目` after `\s*`), so the greedy runs are the only
      ones that can succeed and the regular expression never backtracks into them. */
  function MboxAt(w: string, p: nat): (r: Option<MboxMatch>)
    requires p <= |w|
    ensures r.Some? ==> r.value.start == p && Ordered(w, r.value)
  {
    if !LeadAt(w, p) then None else CountFrom(w, p)
  }

  /** The pattern after its lead, from the count on. */
  function CountFrom(w: string, p: nat): (r: Option<MboxMatch>)
    requires p + LeadLength <= |w|
    ensures r.Some? ==> r.value.start == p && Ordered(w, r.value)
  {
    QuotesFrom(w, p, RunEnd(w, p + LeadLength, IsDigit))
  }

  /** The pattern from the end of the count on. */
  function QuotesFrom(w: string, p: nat, countEnd: nat): (r: Option<MboxMatch>)
    requires p + LeadLength <= countEnd <= |w|
    ensures r.Some? ==> r.value.start == p && r.value.countEnd == countEnd && Ordered(w, r.value)
  {
    if countEnd == p + LeadLength || !OccursAt(w, MboxQuotes, countEnd) then None
    else ScoreFrom(w, p, countEnd, RunEnd(w, countEnd + |MboxQuotes|, IsSpace))
  }

  /** The pattern from the score lead on, after the white space that ends at `spaceEnd`. */
  function ScoreFrom(w: string, p: nat, countEnd: nat, spaceEnd: nat): (r: Option<MboxMatch>)
    requires p + LeadLength < countEnd && countEnd + |MboxQuotes| <= spaceEnd <= |w|
    ensures r.Some? ==> var m := r.value;
      && m.start == p && m.countEnd == countEnd && m.scoreStart == spaceEnd + ScoreLeadLength
      && Ordered(w, m)
  {
    if !OccursAt(w, MboxScoreLead, spaceEnd) then None
    else
      LiteralLengths();
      var scoreStart := spaceEnd + ScoreLeadLength;
      var scoreEnd := RunEnd(w, scoreStart, IsDigitOrDot);
      if scoreEnd == scoreStart || !OccursAt(w, MboxTail, scoreEnd) then None
      else Some(MboxMatch(p, p + LeadLength, countEnd, scoreStart, scoreEnd, scoreEnd + |MboxTail|))
  }

  lemma {:induction false} ScoreFromShape(w: string, p: nat, countEnd: nat, spaceEnd: nat, m: MboxMatch)
    requires p + LeadLength < countEnd && countEnd + |MboxQuotes| <= spaceEnd <= |w|
    requires ScoreFrom(w, p, countEnd, spaceEnd) == Some(m)
    ensures Ordered(w, m) && ScoreShape(w, m)
  {
  }

  lemma {:induction false} QuotesFromShape(w: string, p: nat, countEnd: nat)
    requires p + LeadLength <= countEnd <= |w| && QuotesFrom(w, p, countEnd).Some?
    ensures OccursAt(w, MboxQuotes, countEnd)
    ensures var m := QuotesFrom(w, p, countEnd).value;
            m.scoreStart - ScoreLeadLength == RunEnd(w, countEnd + |MboxQuotes|, IsSpace) && ScoreShape(w, m)
  {
    var spaceEnd := RunEnd(w, countEnd + |MboxQuotes|, IsSpace);
    ScoreFromShape(w, p, countEnd, spaceEnd, QuotesFrom(w, p, countEnd).value);
  }

  lemma {:induction false} CountFromShape(w: string, p: nat)
    requires p + LeadLength <= |w| && CountFrom(w, p).Some?
    ensures CountShape(w, CountFrom(w, p).value) && ScoreShape(w, CountFrom(w, p).value)
  {
    var countEnd := RunEnd(w, p + LeadLength, IsDigit);
    QuotesFromShape(w, p, countEnd);
  }

  /** A match found at `p` has the shape of the pattern. */
  lemma {:induction false} MboxAtShape(w: string, p: nat)
    requires p <= |w| && MboxAt(w, p).Some?
    ensures MboxShape(w, MboxAt(w, p).value)
  {
    CountFromShape(w, p);
  }

  lemma {:induction false} ShapeScoreFrom(w: string, m: MboxMatch)
    requires Ordered(w, m) && ScoreShape(w, m)
    ensures ScoreFrom(w, m.start, m.countEnd, m.scoreStart - ScoreLeadLength) == Some(m)
  {
    assert w[m.scoreEnd] == w[m.scoreEnd..m.scoreEnd + |MboxTail|][0];
    RunEndAt(w, m.scoreStart, IsDigitOrDot, m.scoreEnd);
  }

  lemma {:induction false} CountRunEnd(w: string, m: MboxMatch)
    requires Ordered(w, m) && CountShape(w, m)
    ensures RunEnd(w, m.start + LeadLength, IsDigit) == m.countEnd
  {
    assert w[m.countEnd] == w[m.countEnd..m.countEnd + |MboxQuotes|][0];
    RunEndAt(w, m.countStart, IsDigit, m.countEnd);
  }

  lemma {:induction false} SpaceRunEnd(w: string, m: MboxMatch)
    requires Ordered(w, m) && CountShape(w, m) && ScoreShape(w, m)
    ensures RunEnd(w, m.countEnd + |MboxQuotes|, IsSpace) == m.scoreStart - ScoreLeadLength
  {
    var spaceEnd := m.scoreStart - ScoreLeadLength;
    assert w[spaceEnd] == w[spaceEnd..spaceEnd + ScoreLeadLength][0] by {
      LiteralLengths();
    }
    RunEndAt(w, m.countEnd + |MboxQuotes|, IsSpace, spaceEnd);
  }

  lemma {:induction false} RunQuotesFrom(w: string, m: MboxMatch)
    requires Ordered(w, m) && OccursAt(w, MboxQuotes, m.countEnd)
    requires RunEnd(w, m.countEnd + |MboxQuotes|, IsSpace) == m.scoreStart - ScoreLeadLength
    requires ScoreFrom(w, m.start, m.countEnd, m.scoreStart - ScoreLeadLength) == Some(m)
    ensures QuotesFrom(w, m.start, m.countEnd) == Some(m)
  {
  }

  lemma {:induction false} RunCountFrom(w: string, m: MboxMatch)
    requires Ordered(w, m) && RunEnd(w, m.start + LeadLength, IsDigit) == m.countEnd
    requires QuotesFrom(w, m.start, m.countEnd) == Some(m)
    ensures CountFrom(w, m.start) == Some(m)
  {
  }

  /** Wherever the text has the shape of the pattern, the matcher finds exactly those spans. */
  lemma {:induction false} ShapeMboxAt(w: string, m: MboxMatch)
    requires MboxShape(w, m)
    ensures MboxAt(w, m.start) == Some(m)
  {
    CountRunEnd(w, m);
    SpaceRunEnd(w, m);
    ShapeScoreFrom(w, m);
    RunQuotesFrom(w, m);
    RunCountFrom(w, m);
  }

  /** The leftmost match at or after `from`. */
  function FindMbox(w: string, from: nat): (r: Option<MboxMatch>)
    requires from <= |w|
    ensures r.Some? ==> from <= r.value.start && Ordered(w, r.value)
    decreases |w| - from
  {
    var here := MboxAt(w, from);
    if here.Some? then here
    else if from == |w| then None
    else FindMbox(w, from + 1)
  }

  /** `FindMbox` returns the match at its start, and no match starts between `from` and there. */
  lemma {:induction false} FindMboxLeftmost(w: string, from: nat)
    requires from <= |w|
    ensures FindMbox(w, from).Some? ==> MboxAt(w, FindMbox(w, from).value.start) == FindMbox(w, from)
    ensures forall p :: from <= p <= |w| && (FindMbox(w, from).None? || p < FindMbox(w, from).value.start)
              ==> MboxAt(w, p).None?
    decreases |w| - from
  {
    var here := MboxAt(w, from);
    if here.None? && from < |w| {
      var r := FindMbox(w, from + 1);
      assert FindMbox(w, from) == r;
      FindMboxLeftmost(w, from + 1);
      forall p | from <= p <= |w| && (r.None? || p < r.value.start) ensures MboxAt(w, p).None? {
        if p == from {
          assert MboxAt(w, p) == here;
        }
      }
    }
  }

  /** A match with none before it, from `from` on, is the one `FindMbox` finds. */
  lemma {:induction false} FindMboxAt(w: string, from: nat, m: MboxMatch)
    requires from <= m.start <= |w| && MboxAt(w, m.start) == Some(m)
    requires forall q :: from <= q < m.start ==> MboxAt(w, q).None?
    ensures FindMbox(w, from) == Some(m)
    decreases m.start - from
  {
    if from < m.start {
      assert MboxAt(w, from).None?;
      FindMboxAt(w, from + 1, m);
    }
  }

  /** `updateUserPageContent(wikitext, count, score)`: the first match, case being ignored, has its
      groups 1, 3 and 5 kept and the count and the score put between them. */
  function UpdateUserPageContent(w: string, count: nat, score: string): (r: string)
    ensures FindMbox(w, 0).None? ==> r == w
  {
    match FindMbox(w, 0)
    case None => w
    case Some(m) =>
      var replacement := w[m.start..m.countStart] + NatToString(count) + w[m.countEnd..m.scoreStart]
                         + score + w[m.scoreEnd..m.end];
      w[..m.start] + replacement + w[m.end..]
  }

  /** Only the two numbers of the first match change; every other character is kept. */
  lemma {:induction false} MboxSplice(w: string, count: nat, score: string)
    requires FindMbox(w, 0).Some?
    ensures UpdateUserPageContent(w, count, score) == Spliced(w, FindMbox(w, 0).value, NatToString(count), score)
  {
    var m := FindMbox(w, 0).value;
    GroupsSplice(w, m.start, m.countStart, m.countEnd, m.scoreStart, m.scoreEnd, m.end, NatToString(count), score);
  }

  /** Replacing a span by its kept groups with `x` and `y` between them replaces only the two gaps. */
  lemma {:induction false} GroupsSplice(w: string, a: nat, b: nat, c: nat, d: nat, e: nat, f: nat, x: string, y: string)
    requires a <= b <= c <= d <= e <= f <= |w|
    ensures w[..a] + (w[a..b] + x + w[c..d] + y + w[e..f]) + w[f..] == w[..b] + x + w[c..d] + y + w[e..]
  {
    calc {
      w[..a] + (w[a..b] + x + w[c..d] + y + w[e..f]) + w[f..];
      (w[..a] + w[a..b]) + x + w[c..d] + y + (w[e..f] + w[f..]);
      { assert w[..a] + w[a..b] == w[..b];
        assert w[e..f] + w[f..] == w[e..]; }
      w[..b] + x + w[c..d] + y + w[e..];
    }
  }

  /** The text with the count span of `m` replaced by `c` and its score span by `s`. */
  function Spliced(w: string, m: MboxMatch, c: string, s: string): string
    requires Ordered(w, m)
  {
    w[..m.countStart] + c + w[m.countEnd..m.scoreStart] + s + w[m.scoreEnd..]
  }

  /** The spans of `m` after that replacement. */
  function Moved(m: MboxMatch, c: string, s: string): (m': MboxMatch)
    requires m.countStart <= m.countEnd <= m.scoreStart
    ensures m'.start == m.start && m'.countStart == m.countStart
  {
    var scoreStart := m.scoreStart + |c| - (m.countEnd - m.countStart);
    MboxMatch(m.start, m.countStart, m.countStart + |c|, scoreStart, scoreStart + |s|, scoreStart + |s| + |MboxTail|)
  }

  /** Where each character of the spliced text comes from. */
  lemma {:induction false} SplicedChars(w: string, m: MboxMatch, c: string, s: string)
    requires Ordered(w, m)
    ensures var r := Spliced(w, m, c, s);
            var m' := Moved(m, c, s);
            && |r| == m'.scoreEnd + (|w| - m.scoreEnd)
            && (forall k :: 0 <= k < m.countStart ==> r[k] == w[k])
            && (forall k :: m'.countStart <= k < m'.countEnd ==> r[k] == c[k - m'.countStart])
            && (forall k :: m'.countEnd <= k < m'.scoreStart ==> r[k] == w[k + m.countEnd - m'.countEnd])
            && (forall k :: m'.scoreStart <= k < m'.scoreEnd ==> r[k] == s[k - m'.scoreStart])
            && (forall k :: m'.scoreEnd <= k < |r| ==> r[k] == w[k + m.scoreEnd - m'.scoreEnd])
  {
    var r := Spliced(w, m, c, s);
    var m' := Moved(m, c, s);
    var head := w[..m.countStart] + c + w[m.countEnd..m.scoreStart];
    var tail := w[m.scoreEnd..];
    assert r == head + s + tail;
    HeadChars(w, m, c, m'.countEnd, m'.scoreStart);
    forall k | 0 <= k < m'.scoreStart ensures r[k] == head[k] {
    }
    forall k | m'.scoreEnd <= k < |r| ensures r[k] == w[k + m.scoreEnd - m'.scoreEnd] {
      assert r[k] == tail[k - m'.scoreEnd];
    }
  }

  /** Where each character of the spliced text before the new score comes from. */
  lemma {:induction false} HeadChars(w: string, m: MboxMatch, c: string, countEnd: nat, scoreStart: nat)
    requires Ordered(w, m) && countEnd == m.countStart + |c|
    requires scoreStart == countEnd + (m.scoreStart - m.countEnd)
    ensures var head := w[..m.countStart] + c + w[m.countEnd..m.scoreStart];
            && |head| == scoreStart
            && (forall k :: 0 <= k < m.countStart ==> head[k] == w[k])
            && (forall k :: m.countStart <= k < countEnd ==> head[k] == c[k - m.countStart])
            && (forall k :: countEnd <= k < scoreStart ==> head[k] == w[k + m.countEnd - countEnd])
  {
    var pre := w[..m.countStart];
    var mid := w[m.countEnd..m.scoreStart];
    forall k | countEnd <= k < scoreStart ensures (pre + c + mid)[k] == w[k + m.countEnd - countEnd] {
      assert (pre + c + mid)[k] == mid[k - countEnd];
    }
  }

  /** The count part of the shape carried over to a text that agrees with `w` between the spans. */
  lemma {:induction false} CountShapeMoved(w: string, r: string, m: MboxMatch, m': MboxMatch)
    requires Ordered(w, m) && CountShape(w, m) && Ordered(r, m')
    requires m'.scoreStart - m'.countEnd == m.scoreStart - m.countEnd
    requires forall k :: m'.countStart <= k < m'.countEnd ==> IsDigit(r[k])
    requires forall k :: m'.countEnd <= k < m'.scoreStart ==> r[k] == w[k + m.countEnd - m'.countEnd]
    ensures CountShape(r, m')
  {
    var dc := m.countEnd - m'.countEnd;
    ShiftedSlice(r, w, dc, m'.countEnd, m'.countEnd + |MboxQuotes|);
    forall k | m'.countEnd + |MboxQuotes| <= k < m'.scoreStart - ScoreLeadLength ensures IsSpace(r[k]) {
      assert r[k] == w[k + dc];
    }
  }

  /** The score part of the shape carried over to a text that agrees with `w` around the score. */
  lemma {:induction false} ScoreShapeMoved(w: string, r: string, m: MboxMatch, m': MboxMatch)
    requires Ordered(w, m) && ScoreShape(w, m) && Ordered(r, m')
    requires m'.scoreStart - m'.countEnd == m.scoreStart - m.countEnd
    requires forall k :: m'.countEnd <= k < m'.scoreStart ==> r[k] == w[k + m.countEnd - m'.countEnd]
    requires forall k :: m'.scoreStart <= k < m'.scoreEnd ==> IsDigitOrDot(r[k])
    requires forall k :: m'.scoreEnd <= k < m'.end ==> r[k] == w[k + m.scoreEnd - m'.scoreEnd]
    ensures ScoreShape(r, m')
  {
    ShiftedSlice(r, w, m.countEnd - m'.countEnd, m'.scoreStart - ScoreLeadLength, m'.scoreStart);
    ShiftedSlice(r, w, m.scoreEnd - m'.scoreEnd, m'.scoreEnd, m'.end);
  }

  /** `MboxShape` carried over to a text that agrees with `w` outside the two number spans, at
      the moved spans, when the new spans hold digits and digits or dots. */
  lemma {:induction false} ShapeMoved(w: string, r: string, m: MboxMatch, m': MboxMatch)
    requires MboxShape(w, m) && Ordered(r, m')
    requires m'.start == m.start && m'.countStart == m.countStart
    requires m'.scoreStart - m'.countEnd == m.scoreStart - m.countEnd
    requires forall k :: 0 <= k < m.countStart ==> r[k] == w[k]
    requires forall k :: m'.countStart <= k < m'.countEnd ==> IsDigit(r[k])
    requires forall k :: m'.countEnd <= k < m'.scoreStart ==> r[k] == w[k + m.countEnd - m'.countEnd]
    requires forall k :: m'.scoreStart <= k < m'.scoreEnd ==> IsDigitOrDot(r[k])
    requires forall k :: m'.scoreEnd <= k < m'.end ==> r[k] == w[k + m.scoreEnd - m'.scoreEnd]
    ensures MboxShape(r, m')
  {
    ShiftedSlice(r, w, 0, m.start, m.countStart);
    LeadMoved(w, r, m.start);
    CountShapeMoved(w, r, m, m');
    ScoreShapeMoved(w, r, m, m');
  }

  /** A lead is a lead in any text with the same characters there. */
  lemma {:induction false} LeadMoved(w: string, r: string, p: nat)
    requires LeadAt(w, p) && p + LeadLength <= |r| && r[p..p + LeadLength] == w[p..p + LeadLength]
    ensures LeadAt(r, p)
  {
  }

  /** Putting new digits in the count span and new digits and dots in the score span keeps the
      shape of the pattern, at the moved spans. */
  lemma {:induction false} SplicedShape(w: string, m: MboxMatch, c: string, s: string)
    requires MboxShape(w, m)
    requires |c| > 0 && AllDigits(c) && |s| > 0 && AllDigitsOrDots(s)
    ensures Ordered(Spliced(w, m, c, s), Moved(m, c, s))
    ensures MboxShape(Spliced(w, m, c, s), Moved(m, c, s))
  {
    SplicedRuns(w, m, c, s);
    ShapeMoved(w, Spliced(w, m, c, s), m, Moved(m, c, s));
  }

  /** The spliced text agrees with `w` outside the spans, and the new count and score are runs of
      digits and of digits and dots at the moved spans. */
  lemma {:induction false} SplicedRuns(w: string, m: MboxMatch, c: string, s: string)
    requires Ordered(w, m)
    requires |c| > 0 && AllDigits(c) && |s| > 0 && AllDigitsOrDots(s)
    ensures Ordered(Spliced(w, m, c, s), Moved(m, c, s))
    ensures forall k :: 0 <= k < m.countStart ==> Spliced(w, m, c, s)[k] == w[k]
    ensures forall k :: Moved(m, c, s).countStart <= k < Moved(m, c, s).countEnd ==> IsDigit(Spliced(w, m, c, s)[k])
    ensures forall k :: Moved(m, c, s).countEnd <= k < Moved(m, c, s).scoreStart
              ==> Spliced(w, m, c, s)[k] == w[k + m.countEnd - Moved(m, c, s).countEnd]
    ensures forall k :: Moved(m, c, s).scoreStart <= k < Moved(m, c, s).scoreEnd ==> IsDigitOrDot(Spliced(w, m, c, s)[k])
    ensures forall k :: Moved(m, c, s).scoreEnd <= k < Moved(m, c, s).end
              ==> Spliced(w, m, c, s)[k] == w[k + m.scoreEnd - Moved(m, c, s).scoreEnd]
  {
    var r := Spliced(w, m, c, s);
    var m' := Moved(m, c, s);
    SplicedChars(w, m, c, s);
    forall k | m'.countStart <= k < m'.countEnd ensures IsDigit(r[k]) {
      assert r[k] == c[k - m'.countStart];
    }
    forall k | m'.scoreStart <= k < m'.scoreEnd ensures IsDigitOrDot(r[k]) {
      assert r[k] == s[k - m'.scoreStart];
    }
  }

  /** A match's shape depends only on the text up to its end. */
  lemma {:induction false} ShapeInPrefix(x: string, y: string, m: MboxMatch)
    requires MboxShape(x, m) && m.end <= |y| && x[..m.end] == y[..m.end]
    ensures MboxShape(y, m)
  {
    forall k | 0 <= k < m.end ensures x[k] == y[k] {
      assert x[k] == x[..m.end][k];
      assert y[k] == y[..m.end][k];
    }
    assert x[m.start..m.start + LeadLength] == y[m.start..m.start + LeadLength];
    assert x[m.countEnd..m.countEnd + |MboxQuotes|] == y[m.countEnd..m.countEnd + |MboxQuotes|];
    assert x[m.scoreStart - ScoreLeadLength..m.scoreStart] == y[m.scoreStart - ScoreLeadLength..m.scoreStart];
    assert x[m.scoreEnd..m.end] == y[m.scoreEnd..m.end];
  }

  /** The lead holds no digit. */
  lemma {:induction false} LeadHasNoDigit()
    ensures forall d :: 0 <= d < |MboxLead| ==> !IsDigit(MboxLead[d])
  {
  }

  /** The literals after the lead hold no `{`. */
  lemma {:induction false} LiteralsHaveNoBrace()
    ensures forall d :: 0 <= d < |MboxQuotes| ==> MboxQuotes[d] != '{'
    ensures forall d :: 0 <= d < |MboxScoreLead| ==> MboxScoreLead[d] != '{'
    ensures forall d :: 0 <= d < |MboxTail| ==> MboxTail[d] != '{'
  {
  }

  /** Nothing a match covers after its lead is a `{`, the first character of a lead. */
  lemma {:induction false} NoBraceAfterLead(x: string, m: MboxMatch, k: nat)
    requires MboxShape(x, m) && m.countStart <= k < m.end
    ensures x[k] != '{'
  {
    LiteralsHaveNoBrace();
    LiteralLengths();
    var spaceEnd := m.scoreStart - ScoreLeadLength;
    if m.countEnd <= k < m.countEnd + |MboxQuotes| {
      OccurrenceChars(x, MboxQuotes, m.countEnd);
      assert x[k] == MboxQuotes[k - m.countEnd];
    } else if spaceEnd <= k < m.scoreStart {
      OccurrenceChars(x, MboxScoreLead, spaceEnd);
      assert x[k] == MboxScoreLead[k - spaceEnd];
    } else if m.scoreEnd <= k {
      OccurrenceChars(x, MboxTail, m.scoreEnd);
      assert x[k] == MboxTail[k - m.scoreEnd];
    }
  }

  /** A lead starts with `{` and holds no digit. */
  lemma {:induction false} LeadChars(x: string, p: nat, d: nat)
    requires LeadAt(x, p) && d < LeadLength
    ensures d == 0 ==> x[p] == '{'
    ensures !IsDigit(x[p + d])
  {
    var t := x[p..p + LeadLength];
    FoldAsciiStringAt(t, d);
    assert t[d] == x[p + d];
    LeadHasNoDigit();
    LiteralLengths();
  }

  /** A match in `r` before the lead at `p` that `r` shares with `w` up to `n` is a match in `w`:
      it cannot reach into that lead, whose first character is a `{` and which holds no digit. */
  lemma {:induction false} EarlierMatchKept(w: string, r: string, p: nat, n: nat, m2: MboxMatch)
    requires p + LeadLength <= n <= |w| && n <= |r| && r[..n] == w[..n]
    requires LeadAt(r, p) && MboxShape(r, m2) && m2.start < p
    ensures MboxShape(w, m2)
  {
    if m2.countStart > p {
      LeadChars(r, p, m2.countStart - p);
      assert false;
    }
    LeadChars(r, p, 0);
    if m2.end > p {
      NoBraceAfterLead(r, m2, p);
      assert false;
    }
    assert r[..m2.end] == w[..m2.end] by {
      assert r[..m2.end] == r[..n][..m2.end];
      assert w[..m2.end] == w[..n][..m2.end];
    }
    ShapeInPrefix(r, w, m2);
  }

  /** Replacing the numbers of the leftmost match creates no match before it. */
  lemma {:induction false} NoEarlierMatch(w: string, m: MboxMatch, c: string, s: string, q: nat)
    requires FindMbox(w, 0) == Some(m) && MboxShape(w, m)
    requires |c| > 0 && AllDigits(c) && |s| > 0 && AllDigitsOrDots(s)
    requires q < m.start
    ensures MboxAt(Spliced(w, m, c, s), q).None?
  {
    var r := Spliced(w, m, c, s);
    SplicedShape(w, m, c, s);
    SplicedChars(w, m, c, s);
    assert r[..m.countStart] == w[..m.countStart];
    if MboxAt(r, q).Some? {
      MboxAtShape(r, q);
      EarlierMatchKept(w, r, m.start, m.countStart, MboxAt(r, q).value);
      ShapeMboxAt(w, MboxAt(r, q).value);
      FindMboxLeftmost(w, 0);
    }
  }

  /** The spliced text's leftmost match is the moved one. */
  lemma {:induction false} SplicedFindMbox(w: string, m: MboxMatch, c: string, s: string)
    requires FindMbox(w, 0) == Some(m) && MboxShape(w, m)
    requires |c| > 0 && AllDigits(c) && |s| > 0 && AllDigitsOrDots(s)
    ensures FindMbox(Spliced(w, m, c, s), 0) == Some(Moved(m, c, s))
  {
    var r := Spliced(w, m, c, s);
    var m' := Moved(m, c, s);
    SplicedShape(w, m, c, s);
    ShapeMboxAt(r, m');
    forall q | 0 <= q < m'.start ensures MboxAt(r, q).None? {
      NoEarlierMatch(w, m, c, s, q);
    }
    FindMboxAt(r, 0, m');
  }

  /** The kept parts of a spliced text, at the moved spans, and the new numbers in between. */
  lemma {:induction false} SplicedParts(w: string, m: MboxMatch, c: string, s: string)
    requires Ordered(w, m)
    ensures var r := Spliced(w, m, c, s);
            var m' := Moved(m, c, s);
            && m'.scoreEnd <= |r|
            && r[..m'.countStart] == w[..m.countStart]
            && r[m'.countStart..m'.countEnd] == c
            && r[m'.countEnd..m'.scoreStart] == w[m.countEnd..m.scoreStart]
            && r[m'.scoreStart..m'.scoreEnd] == s
            && r[m'.scoreEnd..] == w[m.scoreEnd..]
  {
    var r := Spliced(w, m, c, s);
    var head := w[..m.countStart];
    var mid := w[m.countEnd..m.scoreStart];
    var tail := w[m.scoreEnd..];
    assert r == head + c + mid + s + tail;
    MiddleSlice(head, c, mid + s + tail);
    assert r == head + c + (mid + s + tail);
    MiddleSlice(head + c, mid, s + tail);
    assert r == (head + c) + mid + (s + tail);
    MiddleSlice(head + c + mid, s, tail);
  }

  /** Reading back: the first match of the updated text is at the same place and captures the new
      count and the new score, provided the score is digits and dots like the ones it replaces. */
  lemma {:induction false} MboxReadBack(w: string, count: nat, score: string)
    requires FindMbox(w, 0).Some?
    requires |score| > 0 && AllDigitsOrDots(score)
    ensures var m := FindMbox(w, 0).value;
            var r := UpdateUserPageContent(w, count, score);
            var m' := Moved(m, NatToString(count), score);
            && FindMbox(r, 0) == Some(m')
            && r[m'.countStart..m'.countEnd] == NatToString(count)
            && r[m'.scoreStart..m'.scoreEnd] == score
  {
    var m := FindMbox(w, 0).value;
    FindMboxLeftmost(w, 0);
    MboxAtShape(w, m.start);
    MboxSplice(w, count, score);
    SplicedFindMbox(w, m, NatToString(count), score);
    SplicedParts(w, m, NatToString(count), score);
  }

  /** Splicing twice at the same spans is splicing once with the later numbers. */
  lemma {:induction false} SplicedTwice(w: string, m: MboxMatch, c1: string, s1: string, c2: string, s2: string)
    requires Ordered(w, m) && |c1| > 0 && |s1| > 0
    ensures Ordered(Spliced(w, m, c1, s1), Moved(m, c1, s1))
    ensures Spliced(Spliced(w, m, c1, s1), Moved(m, c1, s1), c2, s2) == Spliced(w, m, c2, s2)
  {
    SplicedParts(w, m, c1, s1);
  }

  /** Updating twice is updating once with the later numbers: the second call finds the box the
      first one wrote. */
  lemma {:induction false} MboxLastWins(w: string, c1: nat, s1: string, c2: nat, s2: string)
    requires FindMbox(w, 0).Some?
    requires |s1| > 0 && AllDigitsOrDots(s1)
    ensures UpdateUserPageContent(UpdateUserPageContent(w, c1, s1), c2, s2) == UpdateUserPageContent(w, c2, s2)
  {
    var m := FindMbox(w, 0).value;
    MboxReadBack(w, c1, s1);
    MboxSplice(w, c1, s1);
    MboxSplice(UpdateUserPageContent(w, c1, s1), c2, s2);
    MboxSplice(w, c2, s2);
    SplicedTwice(w, m, NatToString(c1), s1, NatToString(c2), s2);
  }
}
