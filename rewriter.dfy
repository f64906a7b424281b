/** The ledger rewriter, `updatePageContentWithTemplates` (utils.js:112-186). It splits the page
    into lines with its own normalisation, groups the updates by line number, sorts each group by
    template index, and on each addressed line replaces the k-th status template (together with a
    remark that directly follows it) according to the k-th update of the sorted group. The methods
    are proved equal to the specification `Rewrite`, whose properties are the lemmas below. */
module Rewriter {
  import opened Text
  import opened Normalise

  const StatusOpen := "{{2026SFEditasonStatus|"
  const TemplateClose := "}}"
  const BreakOpen := "<br"
  const SmallOpen := "<small>"
  const SmallClose := "</small>"

  /** One update instruction for a template. A field the caller leaves out is `None`: a missing
      `templateIndex` sorts as 0, and a missing `newScore` is written out as the text `undefined`,
      as a template literal does with an undefined value. */
  datatype Update = Update(
    lineNumber: int,
    templateIndex: Option<int>,
    newStatus: Option<string>,
    status: Option<string>,
    newScore: Option<string>,
    newRemark: Option<string>)

  /** `item.templateIndex || 0`. */
  function SortKey(u: Update): int {
    if u.templateIndex.Some? then u.templateIndex.value else 0
  }

  // ---------------------------------------------------------------------------------------------
  // The pattern `statusWithRemarkRegex` (utils.js:134)
  // ---------------------------------------------------------------------------------------------

  /** A match of `/\{\{2026SFEditasonStatus\|([^|}]*)(?:\|([^}]*))?\}\}((?:<br\s*\/?\>\s*<small>.*?<\/small>)?)/`.
      The status runs from `start + |StatusOpen|` to `statusEnd`; when `hasScore` a `|` sits at
      `statusEnd` and the score runs from there to `closeAt`; `}}` sits at `closeAt`; the remark
      group runs from `closeAt + 2` to `end`. */
  datatype RwMatch = RwMatch(start: nat, statusEnd: nat, hasScore: bool, closeAt: nat, end: nat)

  predicate WellFormed(line: string, m: RwMatch) {
    && m.start + |StatusOpen| <= m.statusEnd <= m.closeAt
    && m.closeAt + |TemplateClose| <= m.end <= |line|
    && OccursAt(line, StatusOpen, m.start)
    && OccursAt(line, TemplateClose, m.closeAt)
    && (if m.hasScore then m.statusEnd < m.closeAt && line[m.statusEnd] == '|' else m.statusEnd == m.closeAt)
  }

  /** The class `[^|}]`. */
  predicate IsStatusChar(c: char) { c != '|' && c != '}' }

  /** The class `[^}]`. */
  predicate IsScoreChar(c: char) { c != '}' }

  /** `.*?<\/small>` from `q`: the first `</small>` at or after `q` that no line terminator precedes. */
  function SmallCloseFrom(line: string, q: nat): (r: Option<nat>)
    requires q <= |line|
    ensures r.Some? ==> q <= r.value && OccursAt(line, SmallClose, r.value)
    ensures r.Some? ==> forall k :: q <= k < r.value ==> !IsLineTerminator(line[k])
    decreases |line| - q
  {
    if OccursAt(line, SmallClose, q) then Some(q)
    else if q < |line| && !IsLineTerminator(line[q]) then SmallCloseFrom(line, q + 1)
    else None
  }

  /** Where the optional remark group `((?:<br\s*\/?\>\s*<small>.*?<\/small>)?)` that starts at `q`
      ends: after `</small>` when the remark is there, `q` itself (an empty group) otherwise. Each
      greedy part cannot give back usefully: a shorter `\s*` leaves a space where `/`, `>` or `<` is
      required, and leaving out an available `/` leaves `/` where `>` is required. */
  function RemarkEnd(line: string, q: nat): (e: nat)
    requires q <= |line|
    ensures q <= e <= |line|
  {
    if !OccursAt(line, BreakOpen, q) then q
    else
      var a := RunEnd(line, q + |BreakOpen|, IsSpace);
      var b := if a < |line| && line[a] == '/' then a + 1 else a;
      if !(b < |line| && line[b] == '>') then q
      else
        var c := RunEnd(line, b + 1, IsSpace);
        if !OccursAt(line, SmallOpen, c) then q
        else match SmallCloseFrom(line, c + |SmallOpen|)
          case None => q
          case Some(k) => k + |SmallClose|
  }

  /** A non-empty remark group starts with `<br` and ends with `</small>`. */
  lemma {:induction false} RemarkShape(line: string, q: nat)
    requires q <= |line|
    ensures RemarkEnd(line, q) > q ==> q + |SmallClose| <= RemarkEnd(line, q)
    ensures RemarkEnd(line, q) > q ==> OccursAt(line, BreakOpen, q) && OccursAt(line, SmallClose, RemarkEnd(line, q) - |SmallClose|)
  {
  }

  /** The template part of a match that starts at `p`, if any: the match with its remark group
      left empty. `[^|}]*` stops at the first `|` or `}`; the optional score group is tried first
      and needs `}}` right after its greedy `[^}]*`; without it `}}` must follow the status. No
      shorter run of either class can succeed, since the character after it would be neither `|`
      nor `}`. */
  function TemplateAt(line: string, p: nat): (r: Option<RwMatch>)
    requires p <= |line|
    ensures r.Some? ==> r.value.start == p && WellFormed(line, r.value)
    ensures r.Some? ==> r.value.end == r.value.closeAt + |TemplateClose|
  {
    if !OccursAt(line, StatusOpen, p) then None
    else
      var e1 := RunEnd(line, p + |StatusOpen|, IsStatusChar);
      if e1 < |line| && line[e1] == '|' && OccursAt(line, TemplateClose, RunEnd(line, e1 + 1, IsScoreChar)) then
        var e2 := RunEnd(line, e1 + 1, IsScoreChar);
        Some(RwMatch(p, e1, true, e2, e2 + |TemplateClose|))
      else if OccursAt(line, TemplateClose, e1) then
        Some(RwMatch(p, e1, false, e1, e1 + |TemplateClose|))
      else None
  }

  /** The match that starts at `p`, if any: the template part and the remark group after it. */
  function MatchAt(line: string, p: nat): (r: Option<RwMatch>)
    requires p <= |line|
    ensures r.Some? ==> r.value.start == p && WellFormed(line, r.value)
  {
    match TemplateAt(line, p)
    case None => None
    case Some(t) => Some(t.(end := RemarkEnd(line, t.end)))
  }

  /** The leftmost match that starts at or after `from`. */
  function FindMatch(line: string, from: nat): (r: Option<RwMatch>)
    requires from <= |line|
    ensures r.Some? ==> from <= r.value.start && WellFormed(line, r.value)
    decreases |line| - from
  {
    var here := MatchAt(line, from);
    if here.Some? then here
    else if from == |line| then None
    else FindMatch(line, from + 1)
  }

  /** `FindMatch` returns the match at its start, and no match starts between `from` and there. */
  lemma {:induction false} FindMatchLeftmost(line: string, from: nat)
    requires from <= |line|
    ensures FindMatch(line, from).Some? ==> MatchAt(line, FindMatch(line, from).value.start) == FindMatch(line, from)
    ensures forall p :: from <= p <= |line| && (FindMatch(line, from).None? || p < FindMatch(line, from).value.start)
              ==> MatchAt(line, p).None?
    decreases |line| - from
  {
    var here := MatchAt(line, from);
    if here.None? && from < |line| {
      var r := FindMatch(line, from + 1);
      assert FindMatch(line, from) == r;
      FindMatchLeftmost(line, from + 1);
      assert forall p :: from + 1 <= p <= |line| && (r.None? || p < r.value.start) ==> MatchAt(line, p).None?;
    }
  }

  // ---------------------------------------------------------------------------------------------
  // The replacement callback (utils.js:151-181)
  // ---------------------------------------------------------------------------------------------

  /** Capture group 1. */
  function CapturedStatus(line: string, m: RwMatch): string
    requires WellFormed(line, m)
  {
    line[m.start + |StatusOpen|..m.statusEnd]
  }

  /** Capture group 2, undefined when the score group did not take part. */
  function CapturedScore(line: string, m: RwMatch): Option<string>
    requires WellFormed(line, m)
  {
    if m.hasScore then Some(line[m.statusEnd + 1..m.closeAt]) else None
  }

  /** Capture group 3, empty when there is no remark. */
  function CapturedRemark(line: string, m: RwMatch): string
    requires WellFormed(line, m)
  {
    line[m.closeAt + |TemplateClose|..m.end]
  }

  /** The score parameter as written: `|` and the score, or nothing. */
  function ScoreText(score: Option<string>): string {
    if score.Some? then "|" + score.value else ""
  }

  /** A matched text is the opener, the status, the score parameter, `}}` and the remark. */
  lemma {:induction false} MatchedTextParts(line: string, m: RwMatch)
    requires WellFormed(line, m)
    ensures line[m.start..m.end]
            == StatusOpen + CapturedStatus(line, m) + ScoreText(CapturedScore(line, m)) + TemplateClose + CapturedRemark(line, m)
  {
    ScoreSlice(line, m);
    BracketedSlice(line, StatusOpen, TemplateClose, m.start, m.statusEnd, m.closeAt, m.end);
  }

  /** Between the status and `}}` stands the score parameter as written. */
  lemma {:induction false} ScoreSlice(line: string, m: RwMatch)
    requires WellFormed(line, m)
    ensures line[m.statusEnd..m.closeAt] == ScoreText(CapturedScore(line, m))
  {
    if m.hasScore {
      assert line[m.statusEnd..m.closeAt] == [line[m.statusEnd]] + line[m.statusEnd + 1..m.closeAt];
    }
  }

  /** `newStatus`, else `status`, else the captured status. */
  function StatusToWrite(u: Update, captured: string): string {
    if u.newStatus.Some? then u.newStatus.value
    else if u.status.Some? then u.status.value
    else captured
  }

  /** A `newScore` other than the empty string is written (an absent one as `undefined`); an empty
      `newScore` keeps the captured score when there was one. */
  function ScoreToWrite(u: Update, captured: Option<string>): Option<string> {
    if u.newScore != Some("") then Some(if u.newScore.Some? then u.newScore.value else "undefined")
    else captured
  }

  /** `s.replace('#', '')`: the first `#` is removed. */
  function RemoveFirstHash(s: string): (r: string)
    ensures '#' !in s ==> r == s
    ensures '#' in s ==> |r| == |s| - 1 && multiset(r) == multiset(s) - multiset{'#'}
  {
    if |s| == 0 then ""
    else
      assert s == [s[0]] + s[1..];
      if s[0] == '#' then s[1..] else [s[0]] + RemoveFirstHash(s[1..])
  }

  /** A non-empty `newRemark` replaces the remark with `<br/><small>（…）</small>`; otherwise the
      captured remark stays. */
  function RemarkToWrite(u: Update, captured: string): string {
    if u.newRemark.Some? && u.newRemark.value != "" then
      "<br/><small>\U{FF08}" + RemoveFirstHash(u.newRemark.value) + "\U{FF09}</small>"
    else captured
  }

  /** The text that takes the place of match `m` when it is paired with `item`; a match without an
      update is returned as it is. */
  function Replacement(line: string, m: RwMatch, item: Option<Update>): string
    requires WellFormed(line, m)
  {
    match item
    case None => line[m.start..m.end]
    case Some(u) =>
      StatusOpen + StatusToWrite(u, CapturedStatus(line, m)) + ScoreText(ScoreToWrite(u, CapturedScore(line, m)))
      + TemplateClose + RemarkToWrite(u, CapturedRemark(line, m))
  }

  /** An update that changes nothing: no new or old status, an empty new score, no new remark. */
  predicate KeepsTemplate(u: Update) {
    && u.newStatus.None? && u.status.None? && u.newScore == Some("")
    && (u.newRemark.None? || u.newRemark.value == "")
  }

  /** A keeping update, like no update, reproduces the matched text. */
  lemma {:induction false} KeepingReplacement(line: string, m: RwMatch, item: Option<Update>)
    requires WellFormed(line, m)
    requires item.None? || KeepsTemplate(item.value)
    ensures Replacement(line, m, item) == line[m.start..m.end]
  {
    MatchedTextParts(line, m);
  }

  // ---------------------------------------------------------------------------------------------
  // One line: `currentLine.replace(statusWithRemarkRegex, callback)` (utils.js:149-182)
  // ---------------------------------------------------------------------------------------------

  /** `itemsMap[k]`: the k-th update of the sorted group, if there is one. */
  function Pick(ups: seq<Update>, k: nat): Option<Update> {
    if k < |ups| then Some(ups[k]) else None
  }

  /** The global replacement from `from` on, the next match being paired with `ups[k]`. */
  function RewriteFrom(line: string, from: nat, ups: seq<Update>, k: nat): string
    requires from <= |line|
    decreases |line| - from
  {
    match FindMatch(line, from)
    case None => line[from..]
    case Some(m) => line[from..m.start] + Replacement(line, m, Pick(ups, k)) + RewriteFrom(line, m.end, ups, k + 1)
  }

  /** The line after replacement: the k-th match (counted from 0) is paired with `ups[k]`. */
  function RewriteLine(line: string, ups: seq<Update>): string {
    RewriteFrom(line, 0, ups, 0)
  }

  /** Matches paired with no update or with keeping updates are left as they are, and so is the
      text between them. */
  lemma {:induction false} RewriteUnchanged(line: string, from: nat, ups: seq<Update>, k: nat)
    requires from <= |line|
    requires forall j :: k <= j < |ups| ==> KeepsTemplate(ups[j])
    ensures RewriteFrom(line, from, ups, k) == line[from..]
    decreases |line| - from
  {
    var found := FindMatch(line, from);
    if found.Some? {
      var m := found.value;
      KeepingReplacement(line, m, Pick(ups, k));
      RewriteUnchanged(line, m.end, ups, k + 1);
      calc {
        RewriteFrom(line, from, ups, k);
        line[from..m.start] + Replacement(line, m, Pick(ups, k)) + RewriteFrom(line, m.end, ups, k + 1);
        line[from..m.start] + line[m.start..m.end] + line[m.end..];
        { SliceJoin(line, from, m.start, m.end); }
        line[from..];
      }
    }
  }

  lemma {:induction false} SliceJoin(s: string, a: nat, b: nat, c: nat)
    requires a <= b <= c <= |s|
    ensures s[a..] == s[a..b] + s[b..c] + s[c..]
  {
  }

  /** The two updates write the same template: they differ at most in line number and template index. */
  predicate SameWrite(u: Update, v: Update) {
    u.newStatus == v.newStatus && u.status == v.status && u.newScore == v.newScore && u.newRemark == v.newRemark
  }

  lemma {:induction false} SameReplacement(line: string, m: RwMatch, a: Option<Update>, b: Option<Update>)
    requires WellFormed(line, m)
    requires a.None? == b.None? && (a.Some? ==> SameWrite(a.value, b.value))
    ensures Replacement(line, m, a) == Replacement(line, m, b)
  {
  }

  /** Pairing is by position: the template index only orders the group and is never compared with a
      match's position on the line. */
  lemma {:induction false} PairedByPosition(line: string, from: nat, ups: seq<Update>, vs: seq<Update>, k: nat)
    requires from <= |line|
    requires |ups| == |vs|
    requires forall j :: 0 <= j < |ups| ==> SameWrite(ups[j], vs[j])
    ensures RewriteFrom(line, from, ups, k) == RewriteFrom(line, from, vs, k)
    decreases |line| - from
  {
    var found := FindMatch(line, from);
    if found.Some? {
      var m := found.value;
      SameReplacement(line, m, Pick(ups, k), Pick(vs, k));
      PairedByPosition(line, m.end, ups, vs, k + 1);
      calc {
        RewriteFrom(line, from, ups, k);
        line[from..m.start] + Replacement(line, m, Pick(ups, k)) + RewriteFrom(line, m.end, ups, k + 1);
        line[from..m.start] + Replacement(line, m, Pick(vs, k)) + RewriteFrom(line, m.end, vs, k + 1);
        RewriteFrom(line, from, vs, k);
      }
    }
  }

  /** A template with a score parameter is matched with its groups where the runs end. */
  lemma {:induction false} TemplateAtScored(line: string, p: nat, e1: nat, e2: nat)
    requires p + |StatusOpen| <= |line| && OccursAt(line, StatusOpen, p)
    requires RunEnd(line, p + |StatusOpen|, IsStatusChar) == e1
    requires e1 < |line| && line[e1] == '|'
    requires RunEnd(line, e1 + 1, IsScoreChar) == e2
    requires OccursAt(line, TemplateClose, e2)
    ensures TemplateAt(line, p) == Some(RwMatch(p, e1, true, e2, e2 + |TemplateClose|))
  {
  }

  /** A template without a score parameter is matched with its status where the run ends. */
  lemma {:induction false} TemplateAtUnscored(line: string, p: nat, e1: nat)
    requires p + |StatusOpen| <= |line| && OccursAt(line, StatusOpen, p)
    requires RunEnd(line, p + |StatusOpen|, IsStatusChar) == e1
    requires OccursAt(line, TemplateClose, e1)
    ensures TemplateAt(line, p) == Some(RwMatch(p, e1, false, e1, e1 + |TemplateClose|))
  {
    assert line[e1] == line[e1..e1 + 2][0];
  }

  /** A template written by the callback is read back by the same pattern: the new status and score
      are the ones captured, provided the status holds no `|` or `}` and the score no `}`. */
  lemma {:induction false} WrittenTemplateReadBack(text: string, status: string, score: Option<string>, rest: string)
    requires forall i :: 0 <= i < |status| ==> IsStatusChar(status[i])
    requires score.Some? ==> forall i :: 0 <= i < |score.value| ==> IsScoreChar(score.value[i])
    requires text == StatusOpen + status + ScoreText(score) + TemplateClose + rest
    ensures MatchAt(text, 0).Some?
    ensures CapturedStatus(text, MatchAt(text, 0).value) == status
    ensures CapturedScore(text, MatchAt(text, 0).value) == score
  {
    var tail := ScoreText(score) + TemplateClose + rest;
    OpenerAndStatus(text, status, tail);
    if score.Some? {
      ScoreAndClose(text, StatusOpen + status, score.value, rest);
      ScoredReadBack(text, status, score.value);
    } else {
      assert text == (StatusOpen + status) + TemplateClose + rest;
      OccursAfter(StatusOpen + status, TemplateClose, rest);
      UnscoredReadBack(text, status);
    }
    MatchAtCaptures(text, 0);
  }

  /** The remark group changes where a match ends, not where its first two groups lie. */
  lemma {:induction false} MatchAtCaptures(line: string, p: nat)
    requires p <= |line|
    requires TemplateAt(line, p).Some?
    ensures MatchAt(line, p).Some?
    ensures MatchAt(line, p).value == TemplateAt(line, p).value.(end := MatchAt(line, p).value.end)
  {
  }

  /** The read-back with a score parameter, from the positions of the written parts. */
  lemma {:induction false} ScoredReadBack(text: string, status: string, t: string)
    requires |StatusOpen| + |status| + 1 + |t| + |TemplateClose| <= |text|
    requires OccursAt(text, StatusOpen, 0)
    requires text[|StatusOpen|..|StatusOpen| + |status|] == status
    requires forall k :: |StatusOpen| <= k < |StatusOpen| + |status| ==> IsStatusChar(text[k])
    requires text[|StatusOpen| + |status|] == '|'
    requires text[|StatusOpen| + |status| + 1..|StatusOpen| + |status| + 1 + |t|] == t
    requires forall k :: |StatusOpen| + |status| < k < |StatusOpen| + |status| + 1 + |t| ==> IsScoreChar(text[k])
    requires OccursAt(text, TemplateClose, |StatusOpen| + |status| + 1 + |t|)
    ensures TemplateAt(text, 0).Some?
    ensures CapturedStatus(text, TemplateAt(text, 0).value) == status
    ensures CapturedScore(text, TemplateAt(text, 0).value) == Some(t)
  {
    var e1 := |StatusOpen| + |status|;
    var e2 := e1 + 1 + |t|;
    assert text[e2] == text[e2..e2 + 2][0];
    RunEndAt(text, |StatusOpen|, IsStatusChar, e1);
    RunEndAt(text, e1 + 1, IsScoreChar, e2);
    TemplateAtScored(text, 0, e1, e2);
    CapturedParts(text, RwMatch(0, e1, true, e2, e2 + |TemplateClose|), status, Some(t));
  }

  /** The read-back without a score parameter, from the positions of the written parts. */
  lemma {:induction false} UnscoredReadBack(text: string, status: string)
    requires |StatusOpen| + |status| + |TemplateClose| <= |text|
    requires OccursAt(text, StatusOpen, 0)
    requires text[|StatusOpen|..|StatusOpen| + |status|] == status
    requires forall k :: |StatusOpen| <= k < |StatusOpen| + |status| ==> IsStatusChar(text[k])
    requires OccursAt(text, TemplateClose, |StatusOpen| + |status|)
    ensures TemplateAt(text, 0).Some?
    ensures CapturedStatus(text, TemplateAt(text, 0).value) == status
    ensures CapturedScore(text, TemplateAt(text, 0).value) == None
  {
    var e1 := |StatusOpen| + |status|;
    assert text[e1] == text[e1..e1 + 2][0];
    RunEndAt(text, |StatusOpen|, IsStatusChar, e1);
    TemplateAtUnscored(text, 0, e1);
    CapturedParts(text, RwMatch(0, e1, false, e1, e1 + |TemplateClose|), status, None);
  }

  /** The captures of a well-formed match, read off its positions. */
  lemma {:induction false} CapturedParts(text: string, m: RwMatch, status: string, score: Option<string>)
    requires WellFormed(text, m)
    requires text[m.start + |StatusOpen|..m.statusEnd] == status
    requires m.hasScore == score.Some?
    requires score.Some? ==> text[m.statusEnd + 1..m.closeAt] == score.value
    ensures CapturedStatus(text, m) == status && CapturedScore(text, m) == score
  {
  }

  /** The opener and the status of a written template. */
  lemma {:induction false} OpenerAndStatus(text: string, status: string, tail: string)
    requires forall i :: 0 <= i < |status| ==> IsStatusChar(status[i])
    requires text == StatusOpen + status + tail
    ensures OccursAt(text, StatusOpen, 0)
    ensures text[|StatusOpen|..|StatusOpen| + |status|] == status
    ensures forall k :: |StatusOpen| <= k < |StatusOpen| + |status| ==> IsStatusChar(text[k])
  {
    var empty: string := [];
    assert text == empty + StatusOpen + (status + tail);
    OccursAfter(empty, StatusOpen, status + tail);
    MiddleSlice(StatusOpen, status, tail);
    MiddleChars(StatusOpen, status, tail);
  }

  /** The score parameter and `}}` of a written template. */
  lemma {:induction false} ScoreAndClose(text: string, head: string, t: string, rest: string)
    requires forall i :: 0 <= i < |t| ==> IsScoreChar(t[i])
    requires text == head + ScoreText(Some(t)) + TemplateClose + rest
    ensures text[|head|] == '|'
    ensures text[|head| + 1..|head| + 1 + |t|] == t
    ensures forall k :: |head| < k < |head| + 1 + |t| ==> IsScoreChar(text[k])
    ensures OccursAt(text, TemplateClose, |head| + 1 + |t|)
  {
    var h1 := head + "|";
    assert text == h1 + t + (TemplateClose + rest);
    assert text[|head|] == h1[|head|];
    MiddleSlice(h1, t, TemplateClose + rest);
    MiddleChars(h1, t, TemplateClose + rest);
    assert text == (h1 + t) + TemplateClose + rest;
    OccursAfter(h1 + t, TemplateClose, rest);
  }

  /** `currentLine.replace(statusWithRemarkRegex, callback)` with the callback's `matchCounter`: a
      loop over the matches from left to right. */
  method ReplaceOnLine(line: string, ups: seq<Update>) returns (out: string)
    ensures out == RewriteLine(line, ups)
  {
    out := "";
    var lastIndex := 0;
    var matchCounter := 0;
    var found := FindMatch(line, 0);
    while found.Some?
      invariant lastIndex <= |line|
      invariant found == FindMatch(line, lastIndex)
      invariant out + RewriteFrom(line, lastIndex, ups, matchCounter) == RewriteLine(line, ups)
      decreases |line| - lastIndex
    {
      var m := found.value;
      var piece := Replacement(line, m, Pick(ups, matchCounter));
      StringAssoc(out, line[lastIndex..m.start] + piece, RewriteFrom(line, m.end, ups, matchCounter + 1));
      out := out + (line[lastIndex..m.start] + piece);
      matchCounter := matchCounter + 1;
      lastIndex := m.end;
      found := FindMatch(line, lastIndex);
    }
    out := out + line[lastIndex..];
  }

  lemma {:induction false} StringAssoc(a: string, b: string, c: string)
    ensures a + (b + c) == (a + b) + c
  {
  }

  // ---------------------------------------------------------------------------------------------
  // Sorting a line's group (utils.js:143)
  // ---------------------------------------------------------------------------------------------

  /** Inserts `u` after every element whose key is at most its own. */
  function InsertByIndex(s: seq<Update>, u: Update): (r: seq<Update>)
    ensures |r| == |s| + 1
    decreases |s|
  {
    if |s| == 0 || SortKey(s[|s| - 1]) <= SortKey(u) then s + [u]
    else InsertByIndex(s[..|s| - 1], u) + [s[|s| - 1]]
  }

  /** `lineItems.sort((a, b) => (a.templateIndex || 0) - (b.templateIndex || 0))`, a stable sort. */
  function SortByIndex(us: seq<Update>): (r: seq<Update>)
    ensures |r| == |us|
  {
    if |us| == 0 then [] else InsertByIndex(SortByIndex(us[..|us| - 1]), us[|us| - 1])
  }

  predicate SortedByIndex(s: seq<Update>) {
    forall i, j :: 0 <= i < j < |s| ==> SortKey(s[i]) <= SortKey(s[j])
  }

  /** The updates of `s` whose key is `key`, in order. */
  function WithKey(s: seq<Update>, key: int): seq<Update> {
    if |s| == 0 then []
    else WithKey(s[..|s| - 1], key) + (if SortKey(s[|s| - 1]) == key then [s[|s| - 1]] else [])
  }

  lemma {:induction false} WithKeySnoc(s: seq<Update>, u: Update, key: int)
    ensures WithKey(s + [u], key) == WithKey(s, key) + (if SortKey(u) == key then [u] else [])
  {
    assert (s + [u])[..|s|] == s;
  }

  lemma {:induction false} InsertByIndexPermutation(s: seq<Update>, u: Update)
    ensures multiset(InsertByIndex(s, u)) == multiset(s) + multiset{u}
    decreases |s|
  {
    if !(|s| == 0 || SortKey(s[|s| - 1]) <= SortKey(u)) {
      var init, last := s[..|s| - 1], s[|s| - 1];
      InsertByIndexPermutation(init, u);
      assert s == init + [last];
    }
  }

  lemma {:induction false} SortedSnoc(s: seq<Update>, x: Update)
    requires SortedByIndex(s)
    requires forall i :: 0 <= i < |s| ==> SortKey(s[i]) <= SortKey(x)
    ensures SortedByIndex(s + [x])
  {
  }

  lemma {:induction false} SortedPrefix(s: seq<Update>, n: nat)
    requires SortedByIndex(s) && n <= |s|
    ensures SortedByIndex(s[..n])
  {
  }

  lemma {:induction false} InsertByIndexSorted(s: seq<Update>, u: Update)
    requires SortedByIndex(s)
    ensures SortedByIndex(InsertByIndex(s, u))
    decreases |s|
  {
    if |s| == 0 || SortKey(s[|s| - 1]) <= SortKey(u) {
      SortedSnoc(s, u);
    } else {
      var init, last := s[..|s| - 1], s[|s| - 1];
      SortedPrefix(s, |s| - 1);
      InsertByIndexSorted(init, u);
      InsertByIndexPermutation(init, u);
      var ins := InsertByIndex(init, u);
      forall i | 0 <= i < |ins| ensures SortKey(ins[i]) <= SortKey(last) {
        assert ins[i] in multiset(ins);
        if ins[i] != u {
          assert ins[i] in multiset(init);
          var j :| 0 <= j < |init| && init[j] == ins[i];
          assert init[j] == s[j];
        }
      }
      SortedSnoc(ins, last);
    }
  }

  /** The group is sorted by key and holds the same updates. */
  lemma {:induction false} SortByIndexSortedPermutation(us: seq<Update>)
    ensures SortedByIndex(SortByIndex(us))
    ensures multiset(SortByIndex(us)) == multiset(us)
  {
    if |us| > 0 {
      var init := us[..|us| - 1];
      SortByIndexSortedPermutation(init);
      InsertByIndexSorted(SortByIndex(init), us[|us| - 1]);
      InsertByIndexPermutation(SortByIndex(init), us[|us| - 1]);
      assert us == init + [us[|us| - 1]];
    }
  }

  lemma {:induction false} InsertByIndexStable(s: seq<Update>, u: Update, key: int)
    ensures WithKey(InsertByIndex(s, u), key) == WithKey(s + [u], key)
    decreases |s|
  {
    if |s| == 0 || SortKey(s[|s| - 1]) <= SortKey(u) {
    } else {
      var init, last := s[..|s| - 1], s[|s| - 1];
      InsertByIndexStable(init, u, key);
      WithKeySnoc(InsertByIndex(init, u), last, key);
      WithKeySnoc(init, u, key);
      WithKeySnoc(init, last, key);
      assert s == init + [last];
      WithKeySnoc(s, u, key);
    }
  }

  /** The sort is stable: updates with equal keys keep their input order. */
  lemma {:induction false} SortByIndexStable(us: seq<Update>, key: int)
    ensures WithKey(SortByIndex(us), key) == WithKey(us, key)
  {
    if |us| > 0 {
      var init, last := us[..|us| - 1], us[|us| - 1];
      calc {
        WithKey(SortByIndex(us), key);
        WithKey(InsertByIndex(SortByIndex(init), last), key);
        { InsertByIndexStable(SortByIndex(init), last, key); }
        WithKey(SortByIndex(init) + [last], key);
        { WithKeySnoc(SortByIndex(init), last, key); }
        WithKey(SortByIndex(init), key) + (if SortKey(last) == key then [last] else []);
        { SortByIndexStable(init, key); }
        WithKey(init, key) + (if SortKey(last) == key then [last] else []);
        WithKey(us, key);
      }
    }
  }

  // ---------------------------------------------------------------------------------------------
  // The whole page (utils.js:112-186)
  // ---------------------------------------------------------------------------------------------

  /** `itemsByLine[ln]`: the updates for line `ln` in input order (utils.js:123-129). */
  function Group(updates: seq<Update>, ln: int): seq<Update> {
    if |updates| == 0 then []
    else Group(updates[..|updates| - 1], ln) + (if updates[|updates| - 1].lineNumber == ln then [updates[|updates| - 1]] else [])
  }

  lemma {:induction false} GroupAppend(a: seq<Update>, b: seq<Update>, ln: int)
    ensures Group(a + b, ln) == Group(a, ln) + Group(b, ln)
    decreases |b|
  {
    if |b| > 0 {
      var init, last := b[..|b| - 1], b[|b| - 1];
      var t := if last.lineNumber == ln then [last] else [];
      assert (a + b)[..|a + b| - 1] == a + init;
      assert (a + b)[|a + b| - 1] == last;
      calc {
        Group(a + b, ln);
        Group(a + init, ln) + t;
        { GroupAppend(a, init, ln); }
        Group(a, ln) + Group(init, ln) + t;
        Group(a, ln) + (Group(init, ln) + t);
        Group(a, ln) + Group(b, ln);
      }
    } else {
      assert a + b == a;
    }
  }

  lemma {:induction false} GroupSnoc(s: seq<Update>, u: Update, ln: int)
    ensures Group(s + [u], ln) == Group(s, ln) + (if u.lineNumber == ln then [u] else [])
  {
    assert (s + [u])[..|s|] == s;
  }

  lemma {:induction false} GroupNone(b: seq<Update>, ln: int)
    requires forall u :: u in b ==> u.lineNumber != ln
    ensures Group(b, ln) == []
    decreases |b|
  {
    if |b| > 0 {
      GroupNone(b[..|b| - 1], ln);
    }
  }

  /** Line `i` of the page after the update: its sorted group applied to it. */
  function RewrittenLine(updates: seq<Update>): (string, nat) -> string {
    (line: string, i: nat) => RewriteLine(line, SortByIndex(Group(updates, i)))
  }

  /** The page after the update: every rewriter line rewritten with its own group, joined by newlines. */
  function Rewrite(w: string, updates: seq<Update>): string {
    Join(MapIndexed(RewriterLines(w), RewrittenLine(updates)), '\n')
  }

  /** A line that no update addresses is left as it is. */
  lemma {:induction false} UnaddressedLine(line: string, updates: seq<Update>, i: nat)
    requires Group(updates, i) == []
    ensures RewrittenLine(updates)(line, i) == line
  {
    RewriteUnchanged(line, 0, [], 0);
  }

  /** Without updates the page comes out in the rewriter's normalised form. */
  lemma {:induction false} RewriteWithoutUpdates(w: string)
    ensures Rewrite(w, []) == Join(RewriterLines(w), '\n')
  {
    var lines := RewriterLines(w);
    forall i | 0 <= i < |lines| ensures RewrittenLine([])(lines[i], i) == lines[i] {
      UnaddressedLine(lines[i], [], i);
    }
    MapIndexedIdentity(lines, RewrittenLine([]));
  }

  /** A page without continuation lines, `|-|` or `||}` comes back unchanged when there is nothing
      to update. */
  lemma {:induction false} NormalPageUnchanged(w: string)
    requires forall i: nat :: !ReplacesAt(w, "\n|", {'-'}, i)
    requires Absent(w, "|-|")
    requires Absent(w, "||}")
    ensures Rewrite(w, []) == w
  {
    RewriteWithoutUpdates(w);
    RewriterViewOfNormalPage(w);
  }

  /** With nothing to update, a closer right after a bare row separator comes back as written. */
  lemma {:induction false} SeparatorCloserUnchanged(a: char)
    requires a !in "\n|-}"
    ensures Rewrite("{|" + [a] + "\n|-\n|}", []) == "{|" + [a] + "\n|-\n|}"
  {
    RewriteWithoutUpdates("{|" + [a] + "\n|-\n|}");
    SeparatorCloserRewriterView(a);
  }

  /** With nothing to update, a row right after a bare row separator and the closer after it come
      back as written. */
  lemma {:induction false} RowCloserUnchanged(a: char, c: char)
    requires a !in "\n|-}" && c !in "\n|-}"
    ensures Rewrite("{|" + [a] + "\n|-\n| " + [c] + "\n|}", []) == "{|" + [a] + "\n|-\n| " + [c] + "\n|}"
  {
    RewriteWithoutUpdates("{|" + [a] + "\n|-\n| " + [c] + "\n|}");
    RowCloserRewriterView(a, c);
  }

  /** With nothing to update, a row right after the table opener does not come back as written:
      the line break before it is joined away and only the closer is cut off again, so
      `{|`, `| c`, `|}` becomes `{||| c`, `|}`. */
  lemma {:induction false} OpeningRowStaysJoined(c: char)
    requires c !in "\n|-}"
    ensures Rewrite("{|\n| " + [c] + "\n|}", []) == "{||| " + [c] + "\n|}"
    ensures Rewrite("{|\n| " + [c] + "\n|}", []) != "{|\n| " + [c] + "\n|}"
  {
    RewriteWithoutUpdates("{|\n| " + [c] + "\n|}");
    OpeningRowRewriterView(c);
    assert ("{||| " + [c] + "\n|}")[2] != ("{|\n| " + [c] + "\n|}")[2];
  }

  /** Updates whose line number is outside the page change nothing (utils.js:139). */
  lemma {:induction false} OutOfRangeIgnored(w: string, updates: seq<Update>, extra: seq<Update>)
    requires forall u :: u in extra ==> !(0 <= u.lineNumber < |RewriterLines(w)|)
    ensures Rewrite(w, updates + extra) == Rewrite(w, updates)
  {
    var lines := RewriterLines(w);
    forall i | 0 <= i < |lines|
      ensures RewrittenLine(updates + extra)(lines[i], i) == RewrittenLine(updates)(lines[i], i)
    {
      GroupAppend(updates, extra, i);
      GroupNone(extra, i);
      assert Group(updates + extra, i) == Group(updates, i);
    }
    MapIndexedSame(lines, RewrittenLine(updates + extra), RewrittenLine(updates));
  }

  /** A duplicate-free listing of the keys of `m`: one way of enumerating a map's entries. */
  ghost predicate Enumerates<V>(m: map<int, V>, order: seq<int>)
  {
    && (forall ln :: ln in m ==> ln in order)
    && (forall k :: 0 <= k < |order| ==> order[k] in m && order[k] !in order[..k])
  }

  /** `m` maps every line number that `updates` addresses to its group, and no other. */
  ghost predicate GroupsOf(m: map<int, seq<Update>>, updates: seq<Update>) {
    && (forall ln :: ln in m ==> m[ln] == Group(updates, ln))
    && (forall ln :: ln !in m ==> Group(updates, ln) == [])
  }

  /** `updatedItems.forEach(...)` (utils.js:123-129): a map from every line number that some update
      names to that line's updates in input order; `order` lists the line numbers in the order they
      first appear. */
  method GroupByLine(updatedItems: seq<Update>) returns (itemsByLine: map<int, seq<Update>>, order: seq<int>)
    ensures GroupsOf(itemsByLine, updatedItems)
    ensures Enumerates(itemsByLine, order)
  {
    itemsByLine := map[];
    order := [];
    ghost var done: seq<Update> := [];
    for j := 0 to |updatedItems|
      invariant done == updatedItems[..j]
      invariant GroupsOf(itemsByLine, done)
      invariant Enumerates(itemsByLine, order)
    {
      itemsByLine, order := AddToGroup(itemsByLine, order, done, updatedItems[j]);
      done := done + [updatedItems[j]];
    }
    assert done == updatedItems;
  }

  /** One turn of the grouping loop: the item's line gets an empty group when it has none, and the
      item is pushed onto that group. */
  method AddToGroup(itemsByLine: map<int, seq<Update>>, order: seq<int>, ghost done: seq<Update>, item: Update)
    returns (itemsByLine': map<int, seq<Update>>, order': seq<int>)
    requires GroupsOf(itemsByLine, done) && Enumerates(itemsByLine, order)
    ensures GroupsOf(itemsByLine', done + [item]) && Enumerates(itemsByLine', order')
  {
    var ln := item.lineNumber;
    itemsByLine', order' := itemsByLine, order;
    if ln !in itemsByLine' {
      itemsByLine' := itemsByLine'[ln := []];
      order' := order' + [ln];
    }
    itemsByLine' := itemsByLine'[ln := itemsByLine'[ln] + [item]];
    GroupsPush(itemsByLine, done, item);
    EnumeratesPut(itemsByLine, order, ln, itemsByLine'[ln]);
  }

  lemma {:induction false} GroupsPush(m: map<int, seq<Update>>, done: seq<Update>, item: Update)
    requires GroupsOf(m, done)
    ensures GroupsOf(m[item.lineNumber := (if item.lineNumber in m then m[item.lineNumber] else []) + [item]],
                     done + [item])
  {
    forall ln ensures Group(done + [item], ln) == Group(done, ln) + (if item.lineNumber == ln then [item] else []) {
      GroupSnoc(done, item, ln);
    }
  }

  lemma {:induction false} EnumeratesPut<V>(m: map<int, V>, order: seq<int>, ln: int, v: V)
    requires Enumerates(m, order)
    ensures Enumerates(m[ln := v], if ln in m then order else order + [ln])
  {
    if ln !in m {
      var order' := order + [ln];
      forall k | 0 <= k < |order'| ensures order'[k] in m[ln := v] && order'[k] !in order'[..k] {
        if k < |order| {
          assert order'[..k] == order[..k];
        } else {
          assert order'[..k] == order;
        }
      }
    }
  }

  /** `updatePageContentWithTemplates`: groups the updates by line number, rewrites every line that
      a group addresses, and joins the lines again by newlines. */
  method UpdatePageContentWithTemplates(originalWikitext: string, updatedItems: seq<Update>) returns (result: string)
    ensures result == Rewrite(originalWikitext, updatedItems)
  {
    var lines := RewriterLines(originalWikitext);
    var itemsByLine, order := GroupByLine(updatedItems);
    var processedLines := RewriteGroups(lines, updatedItems, itemsByLine, order);
    result := Join(processedLines, '\n');
  }

  /** The lines whose numbers are in `done` hold their rewritten text, every other line its own. */
  ghost predicate RewrittenSoFar(processed: seq<string>, lines: seq<string>, target: seq<string>, done: seq<int>) {
    && |processed| == |lines| == |target|
    && forall i :: 0 <= i < |lines| ==> processed[i] == if i in done then target[i] else lines[i]
  }

  lemma {:induction false} RewrittenStep(processed: seq<string>, lines: seq<string>, target: seq<string>,
                                         done: seq<int>, ln: int, line: string)
    requires RewrittenSoFar(processed, lines, target, done) && ln !in done
    requires 0 <= ln < |lines| ==> line == target[ln]
    ensures RewrittenSoFar(if 0 <= ln < |lines| then processed[ln := line] else processed, lines, target, done + [ln])
  {
  }

  /** A line whose number is not yet in `done` still holds its own text. */
  lemma {:induction false} RewrittenPending(processed: seq<string>, lines: seq<string>, target: seq<string>,
                                            done: seq<int>, ln: int)
    requires RewrittenSoFar(processed, lines, target, done) && ln !in done && 0 <= ln < |lines|
    ensures processed[ln] == lines[ln]
  {
  }

  /** The target text of an addressed line is that line rewritten with its sorted group. */
  lemma {:induction false} GroupTarget(lines: seq<string>, updates: seq<Update>, m: map<int, seq<Update>>, ln: int)
    requires GroupsOf(m, updates) && ln in m && 0 <= ln < |lines|
    ensures MapIndexed(lines, RewrittenLine(updates))[ln] == RewriteLine(lines[ln], SortByIndex(m[ln]))
  {
    MapIndexedAt(lines, RewrittenLine(updates), ln);
  }

  /** Every line that no group addresses keeps its text in the page after the update. */
  lemma {:induction false} UnaddressedTargets(lines: seq<string>, updates: seq<Update>, m: map<int, seq<Update>>)
    requires GroupsOf(m, updates)
    ensures forall i :: 0 <= i < |lines| && i !in m ==> MapIndexed(lines, RewrittenLine(updates))[i] == lines[i]
  {
    forall i | 0 <= i < |lines| && i !in m ensures MapIndexed(lines, RewrittenLine(updates))[i] == lines[i] {
      MapIndexedAt(lines, RewrittenLine(updates), i);
      UnaddressedLine(lines[i], updates, i);
    }
  }

  lemma {:induction false} RewrittenAll(processed: seq<string>, lines: seq<string>, target: seq<string>,
                                        done: seq<int>, addressed: set<int>)
    requires RewrittenSoFar(processed, lines, target, done)
    requires forall i :: i in addressed ==> i in done
    requires forall i :: 0 <= i < |lines| && i !in addressed ==> target[i] == lines[i]
    ensures processed == target
  {
    forall i | 0 <= i < |lines| ensures processed[i] == target[i] {
      if i in addressed {
        assert i in done;
      }
    }
  }

  /** The loop over `Object.entries(itemsByLine)` (utils.js:136-183): for every line number of the
      map, taken in the order `order` lists them (any duplicate-free enumeration), that names one of
      `lines`, the group is sorted and that line rewritten. */
  method RewriteGroups(lines: seq<string>, updatedItems: seq<Update>, itemsByLine: map<int, seq<Update>>,
                       order: seq<int>)
    returns (processedLines: seq<string>)
    requires GroupsOf(itemsByLine, updatedItems) && Enumerates(itemsByLine, order)
    ensures processedLines == MapIndexed(lines, RewrittenLine(updatedItems))
  {
    processedLines := lines;
    ghost var target := MapIndexed(lines, RewrittenLine(updatedItems));

    for k := 0 to |order|
      invariant RewrittenSoFar(processedLines, lines, target, order[..k])
    {
      var lineNum := order[k];
      assert order[..k + 1] == order[..k] + [lineNum];
      ghost var before := processedLines;
      if 0 <= lineNum < |processedLines| {
        RewrittenPending(processedLines, lines, target, order[..k], lineNum);
        var lineItems := SortByIndex(itemsByLine[lineNum]);
        var currentLine := ReplaceOnLine(processedLines[lineNum], lineItems);
        GroupTarget(lines, updatedItems, itemsByLine, lineNum);
        processedLines := processedLines[lineNum := currentLine];
        RewrittenStep(before, lines, target, order[..k], lineNum, currentLine);
      } else {
        RewrittenStep(before, lines, target, order[..k], lineNum, "");
      }
    }
    assert order[..|order|] == order;
    UnaddressedTargets(lines, updatedItems, itemsByLine);
    RewrittenAll(processedLines, lines, target, order, itemsByLine.Keys);
  }
}
