/** The contribution-ledger parser, `parseContributionPageWithDetails` (utils.js:10-107) and its
    alias `parseContributionPage` (utils.js:1-3). The method walks the parser's lines with an
    inside-table flag and, on lines inside a table, collects every status template left to right.
    It is proved equal to the specification `Parse`, whose properties are the lemmas below. */
module Parser {
  import opened Text
  import opened Normalise

  const StatusOpen := "{{2026SFEditasonStatus|"
  const TemplateClose := "}}"

  /** A match of `/\{\{2026SFEditasonStatus\|(.*?)(\|([\d.]+))?\}\}/` in a line. The template starts
      at `start`; the status runs from `start + |StatusOpen|` to `statusEnd`; when `scoreEnd > statusEnd`
      a `|` sits at `statusEnd` and the score runs from there to `scoreEnd`; `}}` sits at `scoreEnd`. */
  datatype StatusMatch = StatusMatch(start: nat, statusEnd: nat, scoreEnd: nat)
  {
    function End(): nat { scoreEnd + |TemplateClose| }
    predicate HasScore() { scoreEnd > statusEnd }
  }

  /** The match's positions are ordered and lie within `line`. */
  predicate InBounds(line: string, m: StatusMatch) {
    m.start + |StatusOpen| <= m.statusEnd <= m.scoreEnd && m.End() <= |line|
  }

  /** What every match found in `line` satisfies: the opener at `start`, a status without line
      terminators, an optional `|` and non-empty run of digits and dots, and the closing `}}`, which
      is the first `}}` after the opener. */
  predicate WellFormed(line: string, m: StatusMatch) {
    && InBounds(line, m)
    && OccursAt(line, StatusOpen, m.start)
    && (forall k :: m.start + |StatusOpen| <= k < m.statusEnd ==> !IsLineTerminator(line[k]))
    && (m.HasScore() ==>
          && m.scoreEnd >= m.statusEnd + 2
          && line[m.statusEnd] == '|'
          && forall k :: m.statusEnd < k < m.scoreEnd ==> IsDigitOrDot(line[k]))
    && OccursAt(line, TemplateClose, m.scoreEnd)
    && (forall k :: m.start + |StatusOpen| <= k < m.scoreEnd ==> !OccursAt(line, TemplateClose, k))
  }

  /** `|`, a non-empty run of digits and dots, and `}}` start at `q`. Greedy `[\d.]+` cannot give
      back characters usefully: what follows a shorter run is a digit or a dot, never `}`. */
  predicate ScoreFollows(line: string, q: nat)
    requires q < |line|
  {
    var e := RunEnd(line, q + 1, IsDigitOrDot);
    line[q] == '|' && e > q + 1 && OccursAt(line, TemplateClose, e)
  }

  /** The score branch of the lazy status closes a well-formed match: the `|` and the digits and
      dots before `}}` cannot hold a `}}` themselves. */
  lemma {:induction false} ScoreBranchWellFormed(line: string, start: nat, q: nat)
    requires start + |StatusOpen| <= q < |line|
    requires OccursAt(line, StatusOpen, start)
    requires forall k :: start + |StatusOpen| <= k < q ==> !IsLineTerminator(line[k]) && !OccursAt(line, TemplateClose, k)
    requires ScoreFollows(line, q)
    ensures WellFormed(line, StatusMatch(start, q, RunEnd(line, q + 1, IsDigitOrDot)))
  {
    var e := RunEnd(line, q + 1, IsDigitOrDot);
    forall k | start + |StatusOpen| <= k < e
      ensures !OccursAt(line, TemplateClose, k)
    {
      if q <= k {
        assert line[k] != '}';
        if k + 2 <= |line| {
          assert line[k..k + 2][0] == line[k];
        }
      }
    }
  }

  /** The lazy status `(.*?)`: extended one character at a time until the optional score group and
      `}}` (tried in that order) succeed, and abandoned at a line terminator or at the end. */
  function LazyStatus(line: string, start: nat, q: nat): (r: Option<StatusMatch>)
    requires start + |StatusOpen| <= q <= |line|
    requires OccursAt(line, StatusOpen, start)
    requires forall k :: start + |StatusOpen| <= k < q ==> !IsLineTerminator(line[k]) && !OccursAt(line, TemplateClose, k)
    ensures r.Some? ==> r.value.start == start && WellFormed(line, r.value)
    decreases |line| - q
  {
    if q < |line| && ScoreFollows(line, q) then
      ScoreBranchWellFormed(line, start, q);
      Some(StatusMatch(start, q, RunEnd(line, q + 1, IsDigitOrDot)))
    else if OccursAt(line, TemplateClose, q) then
      Some(StatusMatch(start, q, q))
    else if q < |line| && !IsLineTerminator(line[q]) then
      LazyStatus(line, start, q + 1)
    else
      None
  }

  /** The match that starts exactly at `p`, if any. */
  function StatusMatchAt(line: string, p: nat): (r: Option<StatusMatch>)
    requires p <= |line|
    ensures r.Some? ==> r.value.start == p && WellFormed(line, r.value)
  {
    if OccursAt(line, StatusOpen, p) then LazyStatus(line, p, p + |StatusOpen|) else None
  }

  /** One `exec` with `lastIndex == from`: the leftmost match starting at or after `from`. */
  function FindStatus(line: string, from: nat): (r: Option<StatusMatch>)
    requires from <= |line|
    ensures r.Some? ==> from <= r.value.start && WellFormed(line, r.value)
    decreases |line| - from
  {
    var here := StatusMatchAt(line, from);
    if here.Some? then here
    else if from == |line| then None
    else FindStatus(line, from + 1)
  }

  /** The match found is the leftmost: it is the match at its own start, and no match starts
      between `from` and it (anywhere from `from` on, when nothing is found). */
  lemma {:induction false} FindStatusLeftmost(line: string, from: nat)
    requires from <= |line|
    ensures var r := FindStatus(line, from);
      && (r.Some? ==> StatusMatchAt(line, r.value.start) == r)
      && forall p :: from <= p <= |line| && (r.None? || p < r.value.start) ==> StatusMatchAt(line, p).None?
    decreases |line| - from
  {
    if StatusMatchAt(line, from).None? && from < |line| {
      FindStatusLeftmost(line, from + 1);
    }
  }

  /** Every match of the global regular expression from `from` on, in order. */
  function StatusMatches(line: string, from: nat): (ms: seq<StatusMatch>)
    requires from <= |line|
    ensures forall i :: 0 <= i < |ms| ==> InBounds(line, ms[i]) && from <= ms[i].start
    decreases |line| - from
  {
    var m := FindStatus(line, from);
    if m.None? then [] else [m.value] + StatusMatches(line, m.value.End())
  }

  /** Every match found is well formed. */
  lemma {:induction false} StatusMatchWellFormed(line: string, from: nat, i: nat)
    requires from <= |line| && i < |StatusMatches(line, from)|
    ensures WellFormed(line, StatusMatches(line, from)[i])
    decreases |line| - from
  {
    var m := FindStatus(line, from).value;
    if i > 0 {
      StatusMatchWellFormed(line, m.End(), i - 1);
      assert StatusMatches(line, from)[i] == StatusMatches(line, m.End())[i - 1];
    }
  }

  /** Each match ends before any later one starts. */
  predicate Disjoint(ms: seq<StatusMatch>) {
    forall i, j :: 0 <= i < j < |ms| ==> ms[i].End() <= ms[j].start
  }

  /** The matches do not overlap. */
  lemma {:induction false} StatusMatchesOrdered(line: string, from: nat)
    requires from <= |line|
    ensures Disjoint(StatusMatches(line, from))
    decreases |line| - from
  {
    var ms := StatusMatches(line, from);
    if |ms| > 0 {
      var m := FindStatus(line, from).value;
      var rest := StatusMatches(line, m.End());
      assert ms == [m] + rest;
      StatusMatchesOrdered(line, m.End());
      DisjointCons(m, rest);
    }
  }

  lemma {:induction false} DisjointCons(m: StatusMatch, rest: seq<StatusMatch>)
    requires Disjoint(rest)
    requires forall j :: 0 <= j < |rest| ==> m.End() <= rest[j].start
    ensures Disjoint([m] + rest)
  {
    var ms := [m] + rest;
    forall i, j | 0 <= i < j < |ms| ensures ms[i].End() <= ms[j].start {
      assert ms[j] == rest[j - 1];
      if i > 0 {
        assert ms[i] == rest[i - 1];
      }
    }
  }

  /** One parsed annotation. `lineNumber` indexes the parser's lines; `templateIndex` counts the
      annotations before it on the same line. */
  datatype Item = Item(
    originalLine: string,
    entryName: string,
    status: string,
    score: string,
    lineNumber: nat,
    originalTemplate: string,
    templateIndex: nat)

  datatype ParseResult = ParseResult(entryCount: nat, totalScore: real, items: seq<Item>)

  function StatusText(line: string, m: StatusMatch): string
    requires InBounds(line, m)
  {
    line[m.start + |StatusOpen|..m.statusEnd]
  }

  /** `match[3] || ''`. */
  function ScoreText(line: string, m: StatusMatch): (score: string)
    requires InBounds(line, m)
    ensures WellFormed(line, m) ==> AllDigitsOrDots(score)
  {
    if m.HasScore() then line[m.statusEnd + 1..m.scoreEnd] else ""
  }

  /** The template text rebuilt from the fields a parse reports. */
  function RenderTemplate(status: string, score: string): string
  {
    StatusOpen + status + (if score == "" then "" else "|" + score) + TemplateClose
  }

  /** The matched template is exactly the template rebuilt from its status and score: the score is
      captured only as a trailing `|` and digits/dots, and everything else stays in the status. */
  lemma {:induction false} MatchedTemplateRoundTrip(line: string, m: StatusMatch)
    requires WellFormed(line, m)
    ensures line[m.start..m.End()] == RenderTemplate(StatusText(line, m), ScoreText(line, m))
    ensures ScoreText(line, m) == "" <==> !m.HasScore()
  {
    var mid := line[m.statusEnd..m.scoreEnd];
    BracketedSlice(line, StatusOpen, TemplateClose, m.start, m.statusEnd, m.scoreEnd, m.End());
    assert line[m.scoreEnd + |TemplateClose|..m.End()] == [];
    if m.HasScore() {
      assert mid == "|" + ScoreText(line, m) by {
        assert mid == [line[m.statusEnd]] + line[m.statusEnd + 1..m.scoreEnd];
      }
    } else {
      assert mid == [];
    }
  }

  /** The entry name (utils.js:48-57): the trimmed second `|`-separated field of the line, with one
      leading `!` removed and the rest trimmed again; empty when the line has no `|`. */
  function EntryName(line: string): (name: string)
    ensures '|' !in line ==> name == ""
    ensures name == [] || (!IsSpace(name[0]) && !IsSpace(name[|name| - 1]))
  {
    var fields := Split(line, '|');
    SplitWithoutSeparator(line, '|');
    if |fields| >= 2 then
      var name := Trim(fields[1]);
      if StartsWith(name, "!") then Trim(name[1..]) else name
    else
      ""
  }

  lemma {:induction false} SplitWithoutSeparator(s: string, sep: char)
    ensures sep !in s ==> Split(s, sep) == [s]
    decreases |s|
  {
    if |s| > 0 && sep !in s {
      SplitWithoutSeparator(s[1..], sep);
      assert [s[0]] + s[1..] == s;
    }
  }

  function ItemOf(line: string, lineNumber: nat, m: StatusMatch, templateIndex: nat): Item
    requires InBounds(line, m)
  {
    Item(Trim(line), EntryName(line), StatusText(line, m), ScoreText(line, m), lineNumber,
         line[m.start..m.End()], templateIndex)
  }

  /** The items of one scanned line: the matches `ms`, numbered from `k`. */
  function LineItems(line: string, lineNumber: nat, ms: seq<StatusMatch>, k: nat): (items: seq<Item>)
    requires forall i :: 0 <= i < |ms| ==> InBounds(line, ms[i])
    ensures |items| == |ms|
    decreases |ms|
  {
    if |ms| == 0 then [] else [ItemOf(line, lineNumber, ms[0], k)] + LineItems(line, lineNumber, ms[1..], k + 1)
  }

  /** The `i`-th item of a line reports the `i`-th match, numbered `k + i`. */
  lemma {:induction false} LineItemAt(line: string, lineNumber: nat, ms: seq<StatusMatch>, k: nat, i: nat)
    requires forall i :: 0 <= i < |ms| ==> InBounds(line, ms[i])
    requires i < |ms|
    ensures LineItems(line, lineNumber, ms, k)[i] == ItemOf(line, lineNumber, ms[i], k + i)
    decreases i
  {
    if i > 0 {
      LineItemAt(line, lineNumber, ms[1..], k + 1, i - 1);
      assert ms[1..][i - 1] == ms[i];
    }
  }

  /** A line whose trimmed text starts with `{|` opens a table (utils.js:26). */
  predicate OpensTable(line: string) {
    StartsWith(Trim(line), "{|")
  }

  /** `line.trim().startsWith('|}') && '||}'.includes(line.trim())` (utils.js:32). */
  predicate ClosesTable(line: string) {
    StartsWith(Trim(line), "|}") && IndexOf("||}", Trim(line), 0) >= 0
  }

  /** The closing test accepts exactly the lines whose trimmed text is `|}`. */
  lemma {:induction false} ClosesTableExactly(line: string)
    ensures ClosesTable(line) <==> Trim(line) == "|}"
  {
    var t := Trim(line);
    if t == "|}" {
      assert !OccursAt("||}", t, 0);
      assert OccursAt("||}", t, 1);
    }
    if StartsWith(t, "|}") && IndexOf("||}", t, 0) >= 0 {
      var r := IndexOf("||}", t, 0);
      assert t == "||}"[r..r + |t|];
      assert t[1] == '}' == "||}"[r + 1];
      assert r == 1;
    }
  }

  lemma {:induction false} OpenAndCloseExclusive(line: string)
    ensures !(OpensTable(line) && ClosesTable(line))
  {
    if StartsWith(Trim(line), "{|") {
      assert Trim(line)[0] == '{';
    }
  }

  /** How the table-tracking chain (utils.js:26-36) classifies a line: opening test first. */
  datatype LineKind = TableOpen | TableClose | Body

  function KindOf(line: string): LineKind
  {
    if OpensTable(line) then TableOpen else if ClosesTable(line) then TableClose else Body
  }

  function Kinds(lines: seq<string>): (kinds: seq<LineKind>)
    ensures |kinds| == |lines|
    ensures forall i :: 0 <= i < |lines| ==> kinds[i] == KindOf(lines[i])
  {
    seq(|lines|, i requires 0 <= i < |lines| => KindOf(lines[i]))
  }

  /** The inside-table flag after the first `n` lines. */
  predicate InTableAfter(kinds: seq<LineKind>, n: nat)
    requires n <= |kinds|
  {
    if n == 0 then false
    else if kinds[n - 1] == TableOpen then true
    else if kinds[n - 1] == TableClose then false
    else InTableAfter(kinds, n - 1)
  }

  /** Line `i` is scanned for templates: it neither opens nor closes a table and the flag is set. */
  predicate Scanned(kinds: seq<LineKind>, i: nat)
    requires i < |kinds|
  {
    kinds[i] == Body && InTableAfter(kinds, i)
  }

  /** The items a line yields when it is scanned: one per match, numbered by the line. */
  function LineYield(line: string, lineNumber: nat): seq<Item>
  {
    LineItems(line, lineNumber, StatusMatches(line, 0), 0)
  }

  /** What every line yields when it is scanned. */
  function LineYields(lines: seq<string>): (perLine: seq<seq<Item>>)
    ensures |perLine| == |lines|
  {
    MapIndexed(lines, LineYield)
  }

  lemma {:induction false} LineYieldsAt(lines: seq<string>, i: nat)
    requires i < |lines|
    ensures LineYields(lines)[i] == LineItems(lines[i], i, StatusMatches(lines[i], 0), 0)
  {
    MapIndexedAt(lines, LineYield, i);
  }

  /** What line `i` contributes: its yield when it is scanned, nothing otherwise. */
  function Block(kinds: seq<LineKind>, perLine: seq<seq<Item>>, i: nat): seq<Item>
    requires i < |kinds| == |perLine|
  {
    if Scanned(kinds, i) then perLine[i] else []
  }

  /** The blocks of all lines. */
  function Blocks(kinds: seq<LineKind>, perLine: seq<seq<Item>>): (blocks: seq<seq<Item>>)
    requires |kinds| == |perLine|
    ensures |blocks| == |kinds|
    ensures forall i :: 0 <= i < |kinds| ==> blocks[i] == Block(kinds, perLine, i)
  {
    seq(|kinds|, i requires 0 <= i < |kinds| => Block(kinds, perLine, i))
  }

  /** The blocks laid end to end, in line order. */
  function Flatten(blocks: seq<seq<Item>>): seq<Item>
  {
    if |blocks| == 0 then [] else Flatten(blocks[..|blocks| - 1]) + blocks[|blocks| - 1]
  }

  lemma {:induction false} FlattenSnoc(blocks: seq<seq<Item>>, n: nat)
    requires n < |blocks|
    ensures Flatten(blocks[..n + 1]) == Flatten(blocks[..n]) + blocks[n]
  {
    assert blocks[..n + 1][..n] == blocks[..n];
  }

  /** Item `t` of block `i` reports line `i` and template index `t`. */
  predicate Numbered(blocks: seq<seq<Item>>) {
    forall i, t :: 0 <= i < |blocks| && 0 <= t < |blocks[i]| ==>
      blocks[i][t].lineNumber == i && blocks[i][t].templateIndex == t
  }

  /** Every flattened item is item `templateIndex` of block `lineNumber`. */
  lemma {:induction false} FlattenSound(blocks: seq<seq<Item>>)
    requires Numbered(blocks)
    ensures forall j :: 0 <= j < |Flatten(blocks)| ==>
      && Flatten(blocks)[j].lineNumber < |blocks|
      && Flatten(blocks)[j].templateIndex < |blocks[Flatten(blocks)[j].lineNumber]|
      && Flatten(blocks)[j] == blocks[Flatten(blocks)[j].lineNumber][Flatten(blocks)[j].templateIndex]
  {
    if |blocks| > 0 {
      var init: seq<seq<Item>>, last: seq<Item> := blocks[..|blocks| - 1], blocks[|blocks| - 1];
      FlattenSound(init);
      var prev := Flatten(init);
      var items := prev + last;
      forall j | 0 <= j < |items|
        ensures && items[j].lineNumber < |blocks|
                && items[j].templateIndex < |blocks[items[j].lineNumber]|
                && items[j] == blocks[items[j].lineNumber][items[j].templateIndex]
      {
        if j < |prev| {
          assert items[j] == prev[j];
          assert init[prev[j].lineNumber] == blocks[prev[j].lineNumber];
        } else {
          assert items[j] == last[j - |prev|];
        }
      }
    }
  }

  /** The flattening of the first `i` blocks is a prefix of the flattening of all of them. */
  lemma {:induction false} FlattenPrefix(blocks: seq<seq<Item>>, i: nat)
    requires i <= |blocks|
    ensures |Flatten(blocks[..i])| <= |Flatten(blocks)|
    ensures Flatten(blocks)[..|Flatten(blocks[..i])|] == Flatten(blocks[..i])
  {
    if i == |blocks| {
      assert blocks[..i] == blocks;
    } else {
      var init := blocks[..|blocks| - 1];
      FlattenPrefix(init, i);
      assert init[..i] == blocks[..i];
      var prev := Flatten(init);
      assert (prev + blocks[|blocks| - 1])[..|prev|] == prev;
    }
  }

  /** Nothing is dropped: item `t` of block `i` sits at position `|Flatten(blocks[..i])| + t`. */
  lemma {:induction false} FlattenComplete(blocks: seq<seq<Item>>, i: nat, t: nat)
    requires i < |blocks| && t < |blocks[i]|
    ensures |Flatten(blocks[..i])| + t < |Flatten(blocks)|
    ensures Flatten(blocks)[|Flatten(blocks[..i])| + t] == blocks[i][t]
  {
    FlattenPrefix(blocks, i + 1);
    FlattenSnoc(blocks, i);
    var all, prev := Flatten(blocks), Flatten(blocks[..i]);
    assert all[|prev| + t] == all[..|prev| + |blocks[i]|][|prev| + t] == (prev + blocks[i])[|prev| + t];
  }

  /** Consecutive items are in line order and, on one line, in template order; on each line the
      template indices run 0, 1, 2, ... without gaps. */
  predicate Consecutive(prev: Item, it: Item) {
    if it.templateIndex == 0 then prev.lineNumber < it.lineNumber
    else prev.lineNumber == it.lineNumber && prev.templateIndex + 1 == it.templateIndex
  }

  lemma {:induction false} FlattenOrdered(blocks: seq<seq<Item>>)
    requires Numbered(blocks)
    ensures forall j :: 0 < j < |Flatten(blocks)| ==> Consecutive(Flatten(blocks)[j - 1], Flatten(blocks)[j])
    ensures |Flatten(blocks)| > 0 ==> Flatten(blocks)[0].templateIndex == 0
  {
    if |blocks| > 0 {
      var init: seq<seq<Item>>, last: seq<Item> := blocks[..|blocks| - 1], blocks[|blocks| - 1];
      var prev := Flatten(init);
      var items := prev + last;
      forall j | 0 < j < |items|
        ensures Consecutive(items[j - 1], items[j])
      {
        if j > |prev| {
          assert items[j - 1] == last[j - 1 - |prev|] && items[j] == last[j - |prev|];
        } else if j == |prev| {
          FlattenSound(init);
          assert items[j] == last[0] && items[j - 1] == prev[j - 1];
        } else {
          FlattenOrdered(init);
          assert items[j - 1] == prev[j - 1] && items[j] == prev[j];
        }
      }
      if |prev| == 0 && |last| > 0 {
        assert items[0] == last[0];
      } else if |prev| > 0 {
        FlattenOrdered(init);
        assert items[0] == prev[0];
      }
    }
  }

  /** Any two items are in strictly increasing (line, template) order. */
  lemma {:induction false} FlattenSorted(blocks: seq<seq<Item>>)
    requires Numbered(blocks)
    ensures forall j, j' :: 0 <= j < j' < |Flatten(blocks)| ==>
      var a, b := Flatten(blocks)[j], Flatten(blocks)[j'];
      a.lineNumber < b.lineNumber || (a.lineNumber == b.lineNumber && a.templateIndex < b.templateIndex)
  {
    var items := Flatten(blocks);
    FlattenOrdered(blocks);
    forall j, j' | 0 <= j < j' < |items|
      ensures items[j].lineNumber < items[j'].lineNumber
        || (items[j].lineNumber == items[j'].lineNumber && items[j].templateIndex < items[j'].templateIndex)
    {
      SortedStep(items, j, j');
    }
  }

  lemma {:induction false} SortedStep(items: seq<Item>, j: nat, j': nat)
    requires j < j' < |items|
    requires forall t :: 0 < t < |items| ==> Consecutive(items[t - 1], items[t])
    ensures items[j].lineNumber < items[j'].lineNumber
      || (items[j].lineNumber == items[j'].lineNumber && items[j].templateIndex < items[j'].templateIndex)
    decreases j' - j
  {
    assert Consecutive(items[j' - 1], items[j']);
    if j + 1 < j' {
      SortedStep(items, j, j' - 1);
    }
  }

  predicate NumericScores(items: seq<Item>) {
    forall j :: 0 <= j < |items| ==> AllDigitsOrDots(items[j].score)
  }

  lemma {:induction false} FlattenNumeric(blocks: seq<seq<Item>>)
    requires forall i :: 0 <= i < |blocks| ==> NumericScores(blocks[i])
    ensures NumericScores(Flatten(blocks))
  {
    if |blocks| > 0 {
      var init: seq<seq<Item>>, last: seq<Item> := blocks[..|blocks| - 1], blocks[|blocks| - 1];
      FlattenNumeric(init);
      var prev: seq<Item> := Flatten(init);
      forall j | 0 <= j < |prev + last| ensures AllDigitsOrDots((prev + last)[j].score) {
        if j < |prev| {
          assert (prev + last)[j] == prev[j];
        } else {
          assert (prev + last)[j] == last[j - |prev|];
        }
      }
    }
  }

  /** What one item adds to `totalScore`: nothing for an empty score or a NaN. */
  function ScoreValue(score: string): real
    requires AllDigitsOrDots(score)
  {
    if score == "" then 0.0
    else match ParseDecimal(score)
      case None => 0.0
      case Some(v) => v
  }

  function ScoreSum(items: seq<Item>): real
    requires NumericScores(items)
  {
    if |items| == 0 then 0.0
    else ScoreSum(items[..|items| - 1]) + ScoreValue(items[|items| - 1].score)
  }

  /** The `t`-th item a line contributes comes from a scanned line: it reports the line's `t`-th
      match with line number `i` and template index `t`, and its score is numeric. */
  lemma {:induction false} BlockItem(lines: seq<string>, kinds: seq<LineKind>, i: nat, t: nat)
    requires i < |lines| == |kinds|
    requires t < |Block(kinds, LineYields(lines), i)|
    ensures Scanned(kinds, i) && t < |StatusMatches(lines[i], 0)|
    ensures var it := Block(kinds, LineYields(lines), i)[t];
      && it == ItemOf(lines[i], i, StatusMatches(lines[i], 0)[t], t)
      && it.lineNumber == i && it.templateIndex == t
      && AllDigitsOrDots(it.score)
  {
    LineYieldsAt(lines, i);
    LineItemAt(lines[i], i, StatusMatches(lines[i], 0), 0, t);
    StatusMatchWellFormed(lines[i], 0, t);
  }

  lemma {:induction false} BlocksNumbered(lines: seq<string>, kinds: seq<LineKind>)
    requires |lines| == |kinds|
    ensures Numbered(Blocks(kinds, LineYields(lines)))
    ensures NumericScores(Collected(kinds, LineYields(lines)))
  {
    var blocks: seq<seq<Item>> := Blocks(kinds, LineYields(lines));
    forall i, t | 0 <= i < |blocks| && 0 <= t < |blocks[i]|
      ensures blocks[i][t].lineNumber == i && blocks[i][t].templateIndex == t
      ensures AllDigitsOrDots(blocks[i][t].score)
    {
      BlockItem(lines, kinds, i, t);
    }
    FlattenNumeric(blocks);
  }

  /** The items collected from all lines. */
  function Collected(kinds: seq<LineKind>, perLine: seq<seq<Item>>): seq<Item>
    requires |kinds| == |perLine|
  {
    Flatten(Blocks(kinds, perLine))
  }

  /** The items collected from the first `n` lines. */
  function CollectedBefore(kinds: seq<LineKind>, perLine: seq<seq<Item>>, n: nat): seq<Item>
    requires n <= |kinds| == |perLine|
  {
    Flatten(Blocks(kinds, perLine)[..n])
  }

  /** The specification of the parse: the items of every scanned line of the normalised page. */
  function Parse(wikitext: string): ParseResult
  {
    var lines := ParserLines(wikitext);
    var items := Collected(Kinds(lines), LineYields(lines));
    BlocksNumbered(lines, Kinds(lines));
    ParseResult(|items|, ScoreSum(items), items)
  }

  /** Item `it` reports the `templateIndex`-th match of the scanned line `lineNumber`. */
  predicate IsMatchItem(lines: seq<string>, kinds: seq<LineKind>, it: Item)
    requires |lines| == |kinds|
  {
    && it.lineNumber < |lines|
    && Scanned(kinds, it.lineNumber)
    && it.templateIndex < |StatusMatches(lines[it.lineNumber], 0)|
    && it == ItemOf(lines[it.lineNumber], it.lineNumber,
                    StatusMatches(lines[it.lineNumber], 0)[it.templateIndex], it.templateIndex)
  }

  /** Soundness: every collected item is the `templateIndex`-th match of the scanned line
      `lineNumber`. */
  lemma {:induction false} CollectedItemsAreMatches(lines: seq<string>, kinds: seq<LineKind>)
    requires |lines| == |kinds|
    ensures forall it :: it in Collected(kinds, LineYields(lines)) ==> IsMatchItem(lines, kinds, it)
  {
    var blocks := Blocks(kinds, LineYields(lines));
    BlocksNumbered(lines, kinds);
    FlattenSound(blocks);
    forall it | it in Flatten(blocks) ensures IsMatchItem(lines, kinds, it) {
      assert blocks[it.lineNumber] == Block(kinds, LineYields(lines), it.lineNumber);
      BlockItem(lines, kinds, it.lineNumber, it.templateIndex);
    }
  }

  /** Collected items come in strictly increasing (line, template) order, and on each line the
      template indices run 0, 1, 2, ... without gaps. */
  lemma {:induction false} CollectedItemsOrdered(lines: seq<string>, kinds: seq<LineKind>)
    requires |lines| == |kinds|
    ensures var items := Collected(kinds, LineYields(lines));
      && (forall j :: 0 < j < |items| ==> Consecutive(items[j - 1], items[j]))
      && (|items| > 0 ==> items[0].templateIndex == 0)
      && (forall j, j' :: 0 <= j < j' < |items| ==>
            items[j].lineNumber < items[j'].lineNumber
            || (items[j].lineNumber == items[j'].lineNumber && items[j].templateIndex < items[j'].templateIndex))
  {
    BlocksNumbered(lines, kinds);
    FlattenOrdered(Blocks(kinds, LineYields(lines)));
    FlattenSorted(Blocks(kinds, LineYields(lines)));
  }

  /** Completeness: the `t`-th match of every scanned line `i` is collected, after the items of
      the lines before it. `LineYieldsAt` shows that the parser's per-line yields qualify. */
  lemma {:induction false} CollectedLineItem(lines: seq<string>, kinds: seq<LineKind>, perLine: seq<seq<Item>>, i: nat, t: nat)
    requires i < |lines| == |kinds| == |perLine| && Scanned(kinds, i) && t < |StatusMatches(lines[i], 0)|
    requires perLine[i] == LineItems(lines[i], i, StatusMatches(lines[i], 0), 0)
    ensures var k := |CollectedBefore(kinds, perLine, i)| + t;
      && k < |Collected(kinds, perLine)|
      && Collected(kinds, perLine)[k] == ItemOf(lines[i], i, StatusMatches(lines[i], 0)[t], t)
  {
    LineItemAt(lines[i], i, StatusMatches(lines[i], 0), 0, t);
    CollectedBlockPosition(kinds, perLine, i, t);
  }

  /** Item `t` of line `i`'s block sits after the items of the lines before it. */
  lemma {:induction false} CollectedBlockPosition(kinds: seq<LineKind>, perLine: seq<seq<Item>>, i: nat, t: nat)
    requires i < |kinds| == |perLine| && t < |Block(kinds, perLine, i)|
    ensures var k := |CollectedBefore(kinds, perLine, i)| + t;
      && k < |Collected(kinds, perLine)|
      && Collected(kinds, perLine)[k] == Block(kinds, perLine, i)[t]
  {
    var blocks := Blocks(kinds, perLine);
    assert blocks[i] == Block(kinds, perLine, i);
    FlattenComplete(blocks, i, t);
  }

  /** The flag is set after `n` lines exactly when some earlier line opened a table and no line
      since then closed one. */
  lemma {:induction false} TableStateIsLastMarker(kinds: seq<LineKind>, n: nat)
    requires n <= |kinds|
    ensures InTableAfter(kinds, n) <==>
      exists j :: 0 <= j < n && kinds[j] == TableOpen && forall k :: j < k < n ==> kinds[k] != TableClose
  {
    if n > 0 {
      TableStateIsLastMarker(kinds, n - 1);
      if kinds[n - 1] == TableOpen {
        var j := n - 1;
        assert 0 <= j < n && kinds[j] == TableOpen;
      } else if kinds[n - 1] == TableClose {
        forall j | 0 <= j < n && kinds[j] == TableOpen
          ensures exists k :: j < k < n && kinds[k] == TableClose
        {
          assert j < n - 1;
        }
      } else {
        if InTableAfter(kinds, n - 1) {
          var j :| 0 <= j < n - 1 && kinds[j] == TableOpen && forall k :: j < k < n - 1 ==> kinds[k] != TableClose;
          assert forall k :: j < k < n ==> kinds[k] != TableClose;
        }
        forall j | 0 <= j < n && kinds[j] == TableOpen && (forall k :: j < k < n ==> kinds[k] != TableClose)
          ensures InTableAfter(kinds, n - 1)
        {
          assert j < n - 1;
        }
      }
    }
  }

  /** A line that is not classified as closing a table is not trimmed to exactly `|}`. */
  lemma {:induction false} NotClosingLine(line: string)
    requires KindOf(line) != TableClose
    ensures Trim(line) != "|}"
  {
    OpenAndCloseExclusive(line);
    ClosesTableExactly(line);
  }

  /** The kind of a line that carries no surrounding spaces, read off its first characters. */
  lemma {:induction false} KindOfUnspaced(line: string)
    requires |line| >= 2 && !IsSpace(line[0]) && !IsSpace(line[|line| - 1])
    ensures line[..2] == "{|" ==> KindOf(line) == TableOpen
    ensures line[0] != '{' && line != "|}" ==> KindOf(line) == Body
    ensures line == "|}" ==> KindOf(line) == TableClose
  {
    TrimUnspaced(line);
    ClosesTableExactly(line);
    if OpensTable(line) {
      assert line[0] == '{';
    }
  }

  lemma {:induction false} SeparatorCloserKinds(a: char)
    requires !IsSpace(a)
    ensures Kinds(["{|" + [a], "|-", "|}"]) == [TableOpen, Body, TableClose]
  {
    var lines := ["{|" + [a], "|-", "|}"];
    KindOfUnspaced(lines[0]);
    KindOfUnspaced(lines[1]);
    KindOfUnspaced(lines[2]);
    assert lines[0][..2] == "{|";
  }

  lemma {:induction false} RowCloserKinds(a: char, c: char)
    requires !IsSpace(a)
    ensures Kinds(["{|" + [a], "|-", "| " + [c] + "||}"]) == [TableOpen, Body, Body]
  {
    var lines := ["{|" + [a], "|-", "| " + [c] + "||}"];
    KindOfUnspaced(lines[0]);
    KindOfUnspaced(lines[1]);
    assert |lines[2]| == 6;
    KindOfUnspaced(lines[2]);
    assert lines[0][..2] == "{|";
  }

  /** A closer right after a bare row separator closes the table: the page `{|a`, `|-`, `|}` is
      read as an opener, a body line and a closer, and after it the parser is outside the table. */
  lemma {:induction false} CloserAfterSeparator(a: char)
    requires a !in "\n|-}<\\" && !IsSpace(a)
    ensures ParserLines("{|" + [a] + "\n|-\n|}") == ["{|" + [a], "|-", "|}"]
    ensures Kinds(ParserLines("{|" + [a] + "\n|-\n|}")) == [TableOpen, Body, TableClose]
    ensures !InTableAfter(Kinds(ParserLines("{|" + [a] + "\n|-\n|}")), 3)
  {
    SeparatorCloserLines(a);
    SeparatorCloserKinds(a);
  }

  /** A closer right after a row line does not close the table: the line break before it is
      joined away, the row and the closer form one body line `| c||}`, and after the page the
      parser is still inside the table. */
  lemma {:induction false} CloserAfterRow(a: char, c: char)
    requires a !in "\n|-}<\\" && !IsSpace(a) && c !in "\n|-}<\\"
    ensures ParserLines("{|" + [a] + "\n|-\n| " + [c] + "\n|}") == ["{|" + [a], "|-", "| " + [c] + "||}"]
    ensures Kinds(ParserLines("{|" + [a] + "\n|-\n| " + [c] + "\n|}")) == [TableOpen, Body, Body]
    ensures InTableAfter(Kinds(ParserLines("{|" + [a] + "\n|-\n| " + [c] + "\n|}")), 3)
  {
    RowCloserLines(a, c);
    RowCloserKinds(a, c);
    assert InTableAfter([TableOpen, Body, Body], 1);
  }

  /** A scanned line has an opener before it and no closer from there up to and including it. */
  lemma {:induction false} ScannedOpener(kinds: seq<LineKind>, ln: nat)
    requires ln < |kinds| && Scanned(kinds, ln)
    ensures exists o :: 0 <= o < ln && kinds[o] == TableOpen && forall k :: o < k <= ln ==> kinds[k] != TableClose
  {
    TableStateIsLastMarker(kinds, ln);
    var o :| 0 <= o < ln && kinds[o] == TableOpen && forall k :: o < k < ln ==> kinds[k] != TableClose;
    assert forall k :: o < k <= ln ==> kinds[k] != TableClose;
  }

  /** A scanned line lies strictly inside a table: some earlier line opens a table, no line from
      there up to and including it is trimmed to exactly `|}`, and it does not open a table. */
  lemma {:induction false} ScannedLineInsideTable(lines: seq<string>, ln: nat)
    requires ln < |lines| && Scanned(Kinds(lines), ln)
    ensures !OpensTable(lines[ln])
    ensures exists o :: 0 <= o < ln && OpensTable(lines[o]) && forall k :: o < k <= ln ==> Trim(lines[k]) != "|}"
  {
    var kinds := Kinds(lines);
    assert KindOf(lines[ln]) == Body;
    ScannedOpener(kinds, ln);
    var o :| 0 <= o < ln && kinds[o] == TableOpen && forall k :: o < k <= ln ==> kinds[k] != TableClose;
    assert KindOf(lines[o]) == TableOpen;
    forall k | o < k <= ln ensures Trim(lines[k]) != "|}" {
      assert KindOf(lines[k]) != TableClose;
      NotClosingLine(lines[k]);
    }
  }

  /** Items come only from lines strictly inside a table. */
  lemma {:induction false} ItemsInsideTables(lines: seq<string>)
    ensures forall it :: it in Collected(Kinds(lines), LineYields(lines)) ==>
      var ln := it.lineNumber;
      && ln < |lines|
      && !OpensTable(lines[ln])
      && exists o :: 0 <= o < ln && OpensTable(lines[o])
           && forall k :: o < k <= ln ==> Trim(lines[k]) != "|}"
  {
    var kinds := Kinds(lines);
    CollectedItemsAreMatches(lines, kinds);
    forall it | it in Collected(kinds, LineYields(lines))
      ensures var ln := it.lineNumber;
        && ln < |lines|
        && !OpensTable(lines[ln])
        && exists o :: 0 <= o < ln && OpensTable(lines[o])
             && forall k :: o < k <= ln ==> Trim(lines[k]) != "|}"
    {
      assert IsMatchItem(lines, kinds, it);
      ScannedLineInsideTable(lines, it.lineNumber);
    }
  }

  /** A comment whose opener is the first in the page does not change the parse: an annotation
      written inside it is never counted. (The page without the comment must not contain `<!--`
      either, since the comment pattern is applied once, not to a fixed point.) */
  lemma {:induction false} CommentedAnnotationsIgnored(a: string, c: string, b: string)
    requires Absent(a + b, CommentOpen) && Absent(c, CommentClose)
    ensures Parse(a + CommentOpen + c + CommentClose + b) == Parse(a + b)
  {
    AbsentInPrefix(a + b, |a|, CommentOpen);
    AbsentInSuffix(a + b, |a|, CommentOpen);
    assert (a + b)[..|a|] == a && (a + b)[|a|..] == b;
    CommentIsRemoved(a, c, b);
    StripCommentsNone(a + b);
  }

  /** Every collected item's `originalTemplate` is the template rebuilt from its `status` and
      `score`. */
  lemma {:induction false} ItemsRenderTheirTemplates(lines: seq<string>, kinds: seq<LineKind>)
    requires |lines| == |kinds|
    ensures forall it :: it in Collected(kinds, LineYields(lines)) ==>
      it.originalTemplate == RenderTemplate(it.status, it.score)
  {
    CollectedItemsAreMatches(lines, kinds);
    forall it | it in Collected(kinds, LineYields(lines))
      ensures it.originalTemplate == RenderTemplate(it.status, it.score)
    {
      assert IsMatchItem(lines, kinds, it);
      StatusMatchWellFormed(lines[it.lineNumber], 0, it.templateIndex);
      MatchedTemplateRoundTrip(lines[it.lineNumber], StatusMatches(lines[it.lineNumber], 0)[it.templateIndex]);
    }
  }

  /** `parseContributionPageWithDetails`. */
  method ParseContributionPageWithDetails(wikitext: string) returns (r: ParseResult)
    ensures r == Parse(wikitext)
    ensures r.entryCount == |r.items|
  {
    var lines := ParserLines(wikitext);
    ghost var kinds := Kinds(lines);
    ghost var blocks := Blocks(kinds, LineYields(lines));
    BlocksNumbered(lines, kinds);
    var items: seq<Item> := [];
    var entryCount: nat := 0;
    var totalScore: real := 0.0;
    var inTable := false;
    for idx := 0 to |lines|
      invariant inTable == InTableAfter(kinds, idx)
      invariant items == Flatten(blocks[..idx])
      invariant NumericScores(items)
      invariant entryCount == |items|
      invariant totalScore == ScoreSum(items)
    {
      var line := lines[idx];
      assert kinds[idx] == KindOf(line);
      LineYieldsAt(lines, idx);
      FlattenSnoc(blocks, idx);
      if OpensTable(line) {
        inTable := true;
      } else if ClosesTable(line) {
        inTable := false;
      } else if inTable {
        items, entryCount, totalScore := ScanLine(line, idx, items, entryCount, totalScore);
      }
    }
    assert blocks[..|lines|] == blocks;
    r := ParseResult(entryCount, totalScore, items);
  }

  /** The `exec` loop over one line inside a table (utils.js:59-99): every match appends an item
      and adds its score to the running total. */
  method ScanLine(line: string, idx: nat, items0: seq<Item>, entryCount0: nat, totalScore0: real)
    returns (items: seq<Item>, entryCount: nat, totalScore: real)
    requires NumericScores(items0) && entryCount0 == |items0| && totalScore0 == ScoreSum(items0)
    ensures items == items0 + LineItems(line, idx, StatusMatches(line, 0), 0)
    ensures NumericScores(items) && entryCount == |items| && totalScore == ScoreSum(items)
  {
    items, entryCount, totalScore := items0, entryCount0, totalScore0;
    var entryName := EntryName(line);
    var lastIndex := 0;
    var templateIndex: nat := 0;
    var found := FindStatus(line, lastIndex);
    while found.Some?
      invariant lastIndex <= |line| && found == FindStatus(line, lastIndex)
      invariant items + LineItems(line, idx, StatusMatches(line, lastIndex), templateIndex)
        == items0 + LineItems(line, idx, StatusMatches(line, 0), 0)
      invariant NumericScores(items)
      invariant entryCount == |items|
      invariant totalScore == ScoreSum(items)
      decreases |line| - lastIndex
    {
      var m := found.value;
      entryCount := entryCount + 1;
      var status := StatusText(line, m);
      var score := ScoreText(line, m);
      if score != "" {
        var value := ParseDecimal(score);
        if value.Some? {
          totalScore := totalScore + value.value;
        }
      }
      var item := Item(Trim(line), entryName, status, score, idx, line[m.start..m.End()], templateIndex);
      assert item == ItemOf(line, idx, m, templateIndex);
      ItemStep(line, idx, items, lastIndex, templateIndex);
      AppendScore(items, item);
      items := items + [item];
      templateIndex := templateIndex + 1;
      lastIndex := m.End();
      found := FindStatus(line, lastIndex);
    }
    assert StatusMatches(line, lastIndex) == [];
  }

  /** One `exec` step: appending the next match's item leaves the items still to come on the
      line to be those after that match. */
  lemma {:induction false} ItemStep(line: string, idx: nat, items: seq<Item>, lastIndex: nat, k: nat)
    requires lastIndex <= |line| && FindStatus(line, lastIndex).Some?
    ensures var m := FindStatus(line, lastIndex).value;
      items + LineItems(line, idx, StatusMatches(line, lastIndex), k)
        == items + [ItemOf(line, idx, m, k)] + LineItems(line, idx, StatusMatches(line, m.End()), k + 1)
  {
    var m := FindStatus(line, lastIndex).value;
    var rest := StatusMatches(line, m.End());
    assert StatusMatches(line, lastIndex) == [m] + rest;
    LineItemsCons(line, idx, m, rest, k);
    AppendAssoc(items, ItemOf(line, idx, m, k), LineItems(line, idx, rest, k + 1));
  }

  lemma {:induction false} LineItemsCons(line: string, lineNumber: nat, m: StatusMatch, rest: seq<StatusMatch>, k: nat)
    requires InBounds(line, m) && forall i :: 0 <= i < |rest| ==> InBounds(line, rest[i])
    ensures LineItems(line, lineNumber, [m] + rest, k)
      == [ItemOf(line, lineNumber, m, k)] + LineItems(line, lineNumber, rest, k + 1)
  {
    assert ([m] + rest)[0] == m && ([m] + rest)[1..] == rest;
  }

  lemma {:induction false} AppendAssoc(items: seq<Item>, item: Item, tail: seq<Item>)
    ensures items + ([item] + tail) == items + [item] + tail
  {
  }

  lemma {:induction false} AppendScore(items: seq<Item>, item: Item)
    requires NumericScores(items) && AllDigitsOrDots(item.score)
    ensures NumericScores(items + [item])
    ensures ScoreSum(items + [item]) == ScoreSum(items) + ScoreValue(item.score)
  {
    assert (items + [item])[..|items|] == items;
  }

  /** `parseContributionPage`, the plain alias. */
  method ParseContributionPage(wikitext: string) returns (r: ParseResult)
    ensures r == Parse(wikitext)
  {
    r := ParseContributionPageWithDetails(wikitext);
  }
}
