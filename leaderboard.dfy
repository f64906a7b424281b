/** The ranking tables of the contest's leaderboard page: replacing the body of a ranking table
    (`replaceTableContent`) and writing the rows of one (`generateRows`). */
module Leaderboard {
  import opened Text

  // ---------------------------------------------------------------------------------------------
  // replaceTableContent
  // ---------------------------------------------------------------------------------------------

  const TableOpen := "{|"
  const TableClose := "|}"
  const HeaderAnchor := "贡献详情页"
  const RowSeparator := "|-"

  /** Where a table body is replaced: the table's `{|`, the split point (the `|-` after the header
      anchor, as an index of the whole page) and the table's `|}`. */
  datatype TableSpan = TableSpan(tableStart: nat, split: nat, tableEnd: nat)

  /** A table span as `replaceTableContent` finds it: the split point lies past the `{|` and the
      header anchor, and its `|-` lies inside the table. */
  predicate Spanned(w: string, t: TableSpan) {
    && t.tableStart + |TableOpen| + |HeaderAnchor| <= t.split
    && t.split + |RowSeparator| <= t.tableEnd <= |w|
    && OccursAt(w, TableOpen, t.tableStart)
    && OccursAt(w, RowSeparator, t.split)
    && OccursAt(w, TableClose, t.tableEnd)
  }

  /** The anchors `replaceTableContent` looks for, in its order: the section name, the first `{|`
      from there, the first `|}` from there, the header anchor in the table, and the first `|-`
      from the anchor. */
  function FindTable(w: string, section: string): (r: Option<TableSpan>)
    ensures r.Some? ==> Spanned(w, r.value)
  {
    var sectionIndex := IndexOf(w, section, 0);
    if sectionIndex == -1 then None else TableFrom(w, sectionIndex)
  }

  /** The table that opens at the first `{|` from the section name. */
  function TableFrom(w: string, sectionIndex: nat): (r: Option<TableSpan>)
    requires sectionIndex <= |w|
    ensures r.Some? ==> Spanned(w, r.value)
  {
    var tableStartIndex := IndexOf(w, TableOpen, sectionIndex);
    if tableStartIndex == -1 then None else TableBody(w, tableStartIndex)
  }

  /** The table that opens at `tableStart` and closes at the first `|}` from there. */
  function TableBody(w: string, tableStart: nat): (r: Option<TableSpan>)
    requires tableStart <= |w| && OccursAt(w, TableOpen, tableStart)
    ensures r.Some? ==> r.value.tableStart == tableStart && Spanned(w, r.value)
  {
    var tableEndIndex := IndexOf(w, TableClose, tableStart);
    if tableEndIndex == -1 then None else SplitIn(w, tableStart, tableEndIndex)
  }

  /** The split point of the table between `tableStart` and `tableEnd`: the first `|-` from the
      header anchor. */
  function SplitIn(w: string, tableStart: nat, tableEnd: nat): (r: Option<TableSpan>)
    requires tableStart <= tableEnd <= |w| && OccursAt(w, TableOpen, tableStart)
    requires OccursAt(w, TableClose, tableEnd)
    ensures r.Some? ==> r.value.tableStart == tableStart && r.value.tableEnd == tableEnd && Spanned(w, r.value)
  {
    var tableContent := w[tableStart..tableEnd];
    var headerLoc := IndexOf(tableContent, HeaderAnchor, 0);
    if headerLoc == -1 then None
    else
      var splitPoint := IndexOf(tableContent, RowSeparator, headerLoc);
      if splitPoint == -1 then None
      else
        TableShape(w, tableStart, tableEnd, headerLoc, splitPoint);
        Some(TableSpan(tableStart, tableStart + splitPoint, tableEnd))
  }

  /** The header anchor holds neither `{` nor `|`. */
  lemma {:induction false} AnchorChars()
    ensures forall k :: 0 <= k < |HeaderAnchor| ==> HeaderAnchor[k] != '{' && HeaderAnchor[k] != '|'
  {
  }

  /** In a table that opens with `{|`, the header anchor starts after the `{|`, and a `|-` found
      from the anchor starts after the anchor: none of their characters are alike. */
  lemma {:induction false} TableShape(w: string, tableStart: nat, tableEnd: nat, headerLoc: nat, splitPoint: nat)
    requires tableStart <= tableEnd <= |w| && OccursAt(w, TableOpen, tableStart)
    requires OccursAt(w[tableStart..tableEnd], HeaderAnchor, headerLoc)
    requires headerLoc <= splitPoint && OccursAt(w[tableStart..tableEnd], RowSeparator, splitPoint)
    ensures |TableOpen| <= headerLoc && headerLoc + |HeaderAnchor| <= splitPoint
    ensures tableStart + splitPoint + |RowSeparator| <= tableEnd
    ensures OccursAt(w, RowSeparator, tableStart + splitPoint)
  {
    var tc := w[tableStart..tableEnd];
    AnchorChars();
    OccurrenceChars(w, TableOpen, tableStart);
    OccurrenceChars(tc, HeaderAnchor, headerLoc);
    OccurrenceChars(tc, RowSeparator, splitPoint);
    assert tc[0] == w[tableStart] && tc[1] == w[tableStart + 1];
    assert tc[splitPoint] == '|';
    OccurrenceCharAt(tc, HeaderAnchor, headerLoc, splitPoint);
    assert w[tableStart + splitPoint..tableStart + splitPoint + |RowSeparator|]
        == tc[splitPoint..splitPoint + |RowSeparator|];
  }

  /** `replaceTableContent(fullText, sectionName, newRows)`: the text before the table, the table
      head up to the split point, the new rows and a line break, then the text from the table's
      `|}` on. */
  function ReplaceTableContent(w: string, section: string, newRows: string): (r: string)
    ensures FindTable(w, section).None? ==> r == w
    ensures FindTable(w, section).Some? ==>
      |r| == |w| - (FindTable(w, section).value.tableEnd - FindTable(w, section).value.split) + |newRows| + 1
  {
    match FindTable(w, section)
    case None => w
    case Some(t) =>
      var preTable := w[..t.tableStart];
      var tableHead := w[t.tableStart..t.split];
      var postTable := w[t.tableEnd..];
      preTable + tableHead + newRows + "\n" + postTable
  }

  /** Everything before the split point is kept, then come the new rows and a line break, then
      everything from the table's `|}` on. */
  lemma {:induction false} ReplaceTableSplice(w: string, section: string, newRows: string)
    requires FindTable(w, section).Some?
    ensures var t := FindTable(w, section).value;
            var r := ReplaceTableContent(w, section, newRows);
            && r == w[..t.split] + newRows + "\n" + w[t.tableEnd..]
            && r[..t.split] == w[..t.split]
            && r[t.split..t.split + |newRows| + 1] == newRows + "\n"
            && r[t.split + |newRows| + 1..] == w[t.tableEnd..]
  {
    var t := FindTable(w, section).value;
    var r := ReplaceTableContent(w, section, newRows);
    var head := w[..t.split];
    assert r == w[..t.tableStart] + w[t.tableStart..t.split] + newRows + "\n" + w[t.tableEnd..];
    assert w[..t.tableStart] + w[t.tableStart..t.split] == head;
    assert r == head + (newRows + "\n") + w[t.tableEnd..];
    MiddleSlice(head, newRows + "\n", w[t.tableEnd..]);
  }

  /** No `|}` starts between the end of a kept head and the end of rows that start with `|-`,
      hold no `|}` and are followed by a line break. */
  lemma {:induction false} NoCloseInRows(p: string, rows: string, q: string, i: nat)
    requires StartsWith(rows, RowSeparator) && Absent(rows, TableClose)
    requires |p| <= i + 1 && i < |p| + |rows| + 1
    ensures !OccursAt(p + rows + "\n" + q, TableClose, i)
  {
    var x := p + rows + "\n" + q;
    OccurrenceChars(x, TableClose, i);
    OccurrenceChars(rows, RowSeparator, 0);
    assert x[|p|] == rows[0];
    assert x[|p| + |rows|] == '\n';
    if |p| <= i && i + |TableClose| <= |p| + |rows| {
      assert x[i..i + |TableClose|] == rows[i - |p|..i - |p| + |TableClose|];
      assert !OccursAt(rows, TableClose, i - |p|);
    }
  }

  /** After the splice, the first `|}` from the table's `{|` is the one just after the new rows. */
  lemma {:induction false} CloseAfterRows(w: string, rows: string, tableStart: nat, split: nat, tableEnd: nat)
    requires tableStart <= split <= tableEnd <= |w| && IndexOf(w, TableClose, tableStart) == tableEnd
    requires StartsWith(rows, RowSeparator) && Absent(rows, TableClose)
    ensures IndexOf(w[..split] + rows + "\n" + w[tableEnd..], TableClose, tableStart) == split + |rows| + 1
  {
    var r := w[..split] + rows + "\n" + w[tableEnd..];
    var end' := split + |rows| + 1;
    assert r[..split] == w[..split];
    assert r[end'..] == w[tableEnd..];
    assert OccursAt(r, TableClose, end') by {
      assert r[end'..end' + |TableClose|] == r[end'..][..|TableClose|];
      assert w[tableEnd..tableEnd + |TableClose|] == w[tableEnd..][..|TableClose|];
    }
    forall i: nat | tableStart <= i < end' ensures !OccursAt(r, TableClose, i) {
      if i + |TableClose| <= split {
        OccursInSharedPrefix(w, r, TableClose, split, i);
      } else {
        NoCloseInRows(w[..split], rows, w[tableEnd..], i);
      }
    }
    IndexOfAt(r, TableClose, tableStart, end');
  }

  /** After the splice, the table still opens at its `{|` and now closes just after the new rows. */
  lemma {:induction false} SpliceEnds(w: string, rows: string, tableStart: nat, split: nat, tableEnd: nat)
    requires tableStart + |TableOpen| <= split <= tableEnd <= |w|
    requires OccursAt(w, TableOpen, tableStart) && OccursAt(w, TableClose, tableEnd)
    ensures var r := w[..split] + rows + "\n" + w[tableEnd..];
            var end' := split + |rows| + 1;
            && end' <= |r| && OccursAt(r, TableOpen, tableStart) && OccursAt(r, TableClose, end')
  {
    var r := w[..split] + rows + "\n" + w[tableEnd..];
    var end' := split + |rows| + 1;
    assert r[..split] == w[..split];
    assert r[end'..] == w[tableEnd..];
    OccursInSharedPrefix(w, r, TableOpen, split, tableStart);
    assert r[end'..end' + |TableClose|] == r[end'..][..|TableClose|];
    assert w[tableEnd..tableEnd + |TableClose|] == w[tableEnd..][..|TableClose|];
  }

  /** After the splice, the table keeps its text up to the split point, then holds the new rows and
      a line break. */
  lemma {:induction false} SpliceTableContent(w: string, rows: string, tableStart: nat, split: nat, tableEnd: nat)
    requires tableStart <= split <= tableEnd <= |w|
    ensures var r := w[..split] + rows + "\n" + w[tableEnd..];
            var tc' := r[tableStart..split + |rows| + 1];
            && |tc'| == split - tableStart + |rows| + 1
            && tc'[..split - tableStart] == w[tableStart..tableEnd][..split - tableStart]
            && tc'[split - tableStart..] == rows + "\n"
            && r[..split] == w[..split]
  {
    var r := w[..split] + rows + "\n" + w[tableEnd..];
    var tc' := r[tableStart..split + |rows| + 1];
    assert tc'[..split - tableStart] == r[..split][tableStart..];
    assert w[tableStart..tableEnd][..split - tableStart] == w[..split][tableStart..];
    assert r[..split] == w[..split];
  }

  /** A table whose text up to its old split point is kept and is followed by rows starting with
      `|-` splits where it did. */
  lemma {:induction false} SplitAfterRows(r: string, tc: string, rows: string, tableStart: nat, split: nat, end': nat,
                                          headerLoc: nat, sp: nat)
    requires tableStart <= end' <= |r| && OccursAt(r, TableOpen, tableStart) && OccursAt(r, TableClose, end')
    requires IndexOf(tc, HeaderAnchor, 0) == headerLoc <= |tc|
    requires IndexOf(tc, RowSeparator, headerLoc) == sp
    requires |TableOpen| <= headerLoc && headerLoc + |HeaderAnchor| <= sp <= end' - tableStart && split == tableStart + sp
    requires r[tableStart..end'][..split - tableStart] == tc[..split - tableStart]
    requires r[tableStart..end'][split - tableStart..] == rows + "\n"
    requires StartsWith(rows, RowSeparator)
    ensures SplitIn(r, tableStart, end') == Some(TableSpan(tableStart, split, end'))
  {
    assert split - tableStart == sp;
    SplitFoundAgain(tc, r[tableStart..end'], rows, headerLoc, sp);
    SplitInAt(r, tableStart, end', headerLoc, sp);
  }

  /** The header anchor and the first `|-` from it are found where they were when the table keeps
      its text up to the `|-` and rows starting with `|-` follow. */
  lemma {:induction false} SplitFoundAgain(tc: string, tc': string, rows: string, headerLoc: nat, sp: nat)
    requires IndexOf(tc, HeaderAnchor, 0) == headerLoc <= |tc|
    requires IndexOf(tc, RowSeparator, headerLoc) == sp
    requires |TableOpen| <= headerLoc && headerLoc + |HeaderAnchor| <= sp <= |tc'|
    requires tc'[..sp] == tc[..sp] && tc'[sp..] == rows + "\n" && StartsWith(rows, RowSeparator)
    ensures headerLoc <= |tc'| && IndexOf(tc', HeaderAnchor, 0) == headerLoc
    ensures IndexOf(tc', RowSeparator, headerLoc) == sp
  {
    IndexOfKept(tc, tc', HeaderAnchor, 0, sp);
    SplitKept(tc, tc', rows, headerLoc, sp);
  }

  /** The positions `SplitIn` finds in the table. */
  lemma {:induction false} SplitInParts(w: string, t: TableSpan) returns (headerLoc: nat, sp: nat)
    requires t.tableStart <= t.tableEnd <= |w| && OccursAt(w, TableOpen, t.tableStart)
    requires OccursAt(w, TableClose, t.tableEnd)
    requires SplitIn(w, t.tableStart, t.tableEnd) == Some(t)
    ensures IndexOf(w[t.tableStart..t.tableEnd], HeaderAnchor, 0) == headerLoc <= t.tableEnd - t.tableStart
    ensures IndexOf(w[t.tableStart..t.tableEnd], RowSeparator, headerLoc) == sp
    ensures t.split == t.tableStart + sp
  {
    headerLoc := IndexOf(w[t.tableStart..t.tableEnd], HeaderAnchor, 0);
    sp := IndexOf(w[t.tableStart..t.tableEnd], RowSeparator, headerLoc);
  }

  /** `SplitIn` from the positions of the header anchor and the `|-` in the table. */
  lemma {:induction false} SplitInAt(x: string, tableStart: nat, tableEnd: nat, headerLoc: nat, splitPoint: nat)
    requires tableStart <= tableEnd <= |x| && OccursAt(x, TableOpen, tableStart)
    requires OccursAt(x, TableClose, tableEnd)
    requires IndexOf(x[tableStart..tableEnd], HeaderAnchor, 0) == headerLoc
    requires headerLoc <= |x[tableStart..tableEnd]|
    requires IndexOf(x[tableStart..tableEnd], RowSeparator, headerLoc) == splitPoint
    ensures SplitIn(x, tableStart, tableEnd) == Some(TableSpan(tableStart, tableStart + splitPoint, tableEnd))
  {
  }

  /** The first `|-` from the header anchor stays where it was when the text before it is kept
      and rows starting with `|-` follow. */
  lemma {:induction false} SplitKept(tc: string, tc': string, rows: string, headerLoc: nat, sp: nat)
    requires headerLoc <= sp <= |tc| && sp <= |tc'| && IndexOf(tc, RowSeparator, headerLoc) == sp
    requires tc'[..sp] == tc[..sp] && tc'[sp..] == rows + "\n" && StartsWith(rows, RowSeparator)
    ensures IndexOf(tc', RowSeparator, headerLoc) == sp
  {
    OccurrenceChars(rows, RowSeparator, 0);
    assert OccursAt(tc', RowSeparator, sp) by {
      assert tc'[sp..sp + |RowSeparator|] == (rows + "\n")[..|RowSeparator|];
    }
    assert tc'[sp] == '|';
    forall i: nat | headerLoc <= i < sp ensures !OccursAt(tc', RowSeparator, i) {
      if i + |RowSeparator| <= sp {
        OccursInSharedPrefix(tc, tc', RowSeparator, sp, i);
      } else {
        OccurrenceCharAt(tc', RowSeparator, i, sp);
      }
    }
    IndexOfAt(tc', RowSeparator, headerLoc, sp);
  }

  /** `TableFrom` and `FindTable` from the positions of their anchors. */
  lemma {:induction false} FindTableAt(x: string, section: string, sectionIndex: nat, t: TableSpan)
    requires sectionIndex <= |x| && IndexOf(x, section, 0) == sectionIndex
    requires t.tableStart <= |x| && IndexOf(x, TableOpen, sectionIndex) == t.tableStart
    requires TableBody(x, t.tableStart) == Some(t)
    ensures FindTable(x, section) == Some(t)
  {
    assert TableFrom(x, sectionIndex) == Some(t);
  }

  /** `TableBody` from the position of the table's `|}`. */
  lemma {:induction false} TableBodyAt(x: string, t: TableSpan)
    requires t.tableStart <= t.tableEnd <= |x| && OccursAt(x, TableOpen, t.tableStart)
    requires IndexOf(x, TableClose, t.tableStart) == t.tableEnd
    requires SplitIn(x, t.tableStart, t.tableEnd) == Some(t)
    ensures TableBody(x, t.tableStart) == Some(t)
  {
  }

  /** `r` is `w` with the body of table `t` replaced by `rows`, as far as finding the table again
      needs: the text before the split point is kept, the `{|` is still there, the first `|}` from it
      now follows the rows, and the table holds the old head and then the rows. */
  predicate SplicedTable(w: string, r: string, rows: string, t: TableSpan)
    requires Spanned(w, t)
  {
    var end' := t.split + |rows| + 1;
    && end' <= |r| && r[..t.split] == w[..t.split]
    && OccursAt(r, TableOpen, t.tableStart) && OccursAt(r, TableClose, end')
    && IndexOf(r, TableClose, t.tableStart) == end'
    && r[t.tableStart..end'][..t.split - t.tableStart] == w[t.tableStart..t.tableEnd][..t.split - t.tableStart]
    && r[t.tableStart..end'][t.split - t.tableStart..] == rows + "\n"
  }

  /** The splice of rows that start with `|-` and hold no `|}` is a `SplicedTable`. */
  lemma {:induction false} SpliceFacts(w: string, rows: string, t: TableSpan)
    requires Spanned(w, t) && IndexOf(w, TableClose, t.tableStart) == t.tableEnd
    requires StartsWith(rows, RowSeparator) && Absent(rows, TableClose)
    ensures SplicedTable(w, w[..t.split] + rows + "\n" + w[t.tableEnd..], rows, t)
  {
    CloseAfterRows(w, rows, t.tableStart, t.split, t.tableEnd);
    SpliceEnds(w, rows, t.tableStart, t.split, t.tableEnd);
    SpliceTableContent(w, rows, t.tableStart, t.split, t.tableEnd);
  }

  /** The anchors `FindTable` stops at in `w`, one per stage: the section name, the `{|`, the `|}`,
      the header anchor in the table and the `|-` from it. */
  predicate Stages(w: string, section: string, sectionIndex: nat, headerLoc: nat, sp: nat, t: TableSpan) {
    && Spanned(w, t)
    && sectionIndex == IndexOf(w, section, 0) && sectionIndex <= t.tableStart
    && t.tableStart == IndexOf(w, TableOpen, sectionIndex)
    && t.tableEnd == IndexOf(w, TableClose, t.tableStart)
    && IndexOf(w[t.tableStart..t.tableEnd], HeaderAnchor, 0) == headerLoc <= t.tableEnd - t.tableStart
    && IndexOf(w[t.tableStart..t.tableEnd], RowSeparator, headerLoc) == sp
    && |TableOpen| <= headerLoc && headerLoc + |HeaderAnchor| <= sp && t.split == t.tableStart + sp
  }

  /** The stages of `FindTable`, for a table it finds. */
  lemma {:induction false} FindTableStages(w: string, section: string, t: TableSpan)
    returns (sectionIndex: nat, headerLoc: nat, sp: nat)
    requires FindTable(w, section) == Some(t)
    ensures Stages(w, section, sectionIndex, headerLoc, sp, t)
  {
    sectionIndex := IndexOf(w, section, 0);
    var tableStart := IndexOf(w, TableOpen, sectionIndex);
    assert FindTable(w, section) == TableFrom(w, sectionIndex) == TableBody(w, tableStart);
    headerLoc, sp := SplitInParts(w, t);
    TableShape(w, t.tableStart, t.tableEnd, headerLoc, sp);
  }

  /** In a `SplicedTable`, the split point between the same `{|` and the new `|}` is where it was. */
  lemma {:induction false} SplicedSplitIn(w: string, r: string, rows: string, t: TableSpan, headerLoc: nat, sp: nat)
    requires Spanned(w, t)
    requires IndexOf(w[t.tableStart..t.tableEnd], HeaderAnchor, 0) == headerLoc <= t.tableEnd - t.tableStart
    requires IndexOf(w[t.tableStart..t.tableEnd], RowSeparator, headerLoc) == sp
    requires |TableOpen| <= headerLoc && headerLoc + |HeaderAnchor| <= sp && t.split == t.tableStart + sp
    requires StartsWith(rows, RowSeparator) && SplicedTable(w, r, rows, t)
    ensures t.split + |rows| + 1 <= |r| && OccursAt(r, TableClose, t.split + |rows| + 1)
    ensures SplitIn(r, t.tableStart, t.split + |rows| + 1) == Some(TableSpan(t.tableStart, t.split, t.split + |rows| + 1))
  {
    SplitAfterRows(r, w[t.tableStart..t.tableEnd], rows, t.tableStart, t.split, t.split + |rows| + 1, headerLoc, sp);
  }

  /** In a `SplicedTable`, the table opening at the same `{|` closes just after the new rows and
      splits where it did. */
  lemma {:induction false} BodyAfterRows(w: string, r: string, rows: string, t: TableSpan, headerLoc: nat, sp: nat)
    requires Spanned(w, t)
    requires IndexOf(w[t.tableStart..t.tableEnd], HeaderAnchor, 0) == headerLoc <= t.tableEnd - t.tableStart
    requires IndexOf(w[t.tableStart..t.tableEnd], RowSeparator, headerLoc) == sp
    requires |TableOpen| <= headerLoc && headerLoc + |HeaderAnchor| <= sp && t.split == t.tableStart + sp
    requires StartsWith(rows, RowSeparator) && SplicedTable(w, r, rows, t)
    ensures TableBody(r, t.tableStart) == Some(TableSpan(t.tableStart, t.split, t.split + |rows| + 1))
  {
    var end' := t.split + |rows| + 1;
    SplicedSplitIn(w, r, rows, t, headerLoc, sp);
    TableBodyAt(r, TableSpan(t.tableStart, t.split, end'));
  }

  /** The read-back of a splice at the anchors of a table found in `w`. */
  lemma {:induction false} SpliceReadBack(w: string, section: string, rows: string, t: TableSpan, r: string,
                                          sectionIndex: nat, headerLoc: nat, sp: nat)
    requires Stages(w, section, sectionIndex, headerLoc, sp, t) && sectionIndex + |section| <= t.split
    requires StartsWith(rows, RowSeparator) && SplicedTable(w, r, rows, t)
    ensures FindTable(r, section) == Some(TableSpan(t.tableStart, t.split, t.split + |rows| + 1))
  {
    IndexOfKept(w, r, section, 0, t.split);
    IndexOfKept(w, r, TableOpen, sectionIndex, t.split);
    BodyAfterRows(w, r, rows, t, headerLoc, sp);
    FindTableAt(r, section, sectionIndex, TableSpan(t.tableStart, t.split, t.split + |rows| + 1));
  }

  /** `ReplaceTableContent` at a table it finds. */
  lemma {:induction false} ReplaceTableAt(w: string, section: string, newRows: string, t: TableSpan)
    requires FindTable(w, section) == Some(t)
    ensures ReplaceTableContent(w, section, newRows) == w[..t.split] + newRows + "\n" + w[t.tableEnd..]
  {
    ReplaceTableSplice(w, section, newRows);
  }

  /** Reading back: when the section name lies before the split point and the new rows start with
      `|-` and hold no `|}`, a later call finds the same table, with its body now the new rows. */
  lemma {:induction false} ReplaceTableReadBack(w: string, section: string, rows: string, t: TableSpan)
    requires FindTable(w, section) == Some(t) && IndexOf(w, section, 0) + |section| <= t.split
    requires StartsWith(rows, RowSeparator) && Absent(rows, TableClose)
    ensures FindTable(ReplaceTableContent(w, section, rows), section)
            == Some(TableSpan(t.tableStart, t.split, t.split + |rows| + 1))
  {
    var sectionIndex, headerLoc, sp := FindTableStages(w, section, t);
    ReplaceTableAt(w, section, rows, t);
    SpliceFacts(w, rows, t);
    SpliceReadBack(w, section, rows, t, ReplaceTableContent(w, section, rows), sectionIndex, headerLoc, sp);
  }

  /** Splicing new rows into a splice replaces the rows spliced first. */
  lemma {:induction false} SpliceTwice(w: string, r1: string, rows1: string, rows2: string, split: nat, tableEnd: nat)
    requires split <= tableEnd <= |w| && r1 == w[..split] + rows1 + "\n" + w[tableEnd..]
    ensures r1[..split] + rows2 + "\n" + r1[split + |rows1| + 1..] == w[..split] + rows2 + "\n" + w[tableEnd..]
  {
    assert r1[..split] == w[..split];
    assert r1[split + |rows1| + 1..] == w[tableEnd..];
  }

  /** Replacing a table body twice is replacing it once with the later rows. */
  lemma {:induction false} ReplaceTableTwice(w: string, section: string, rows1: string, rows2: string, t: TableSpan)
    requires FindTable(w, section) == Some(t) && IndexOf(w, section, 0) + |section| <= t.split
    requires StartsWith(rows1, RowSeparator) && Absent(rows1, TableClose)
    ensures ReplaceTableContent(ReplaceTableContent(w, section, rows1), section, rows2)
         == ReplaceTableContent(w, section, rows2)
  {
    var r1 := ReplaceTableContent(w, section, rows1);
    var t1 := TableSpan(t.tableStart, t.split, t.split + |rows1| + 1);
    ReplaceTableAt(w, section, rows1, t);
    ReplaceTableReadBack(w, section, rows1, t);
    ReplaceTableAt(r1, section, rows2, t1);
    ReplaceTableAt(w, section, rows2, t);
    SpliceTwice(w, r1, rows1, rows2, t.split, t.tableEnd);
  }

  // ---------------------------------------------------------------------------------------------
  // generateRows
  // ---------------------------------------------------------------------------------------------

  /** A participant as a ranking row shows them. The total score is the text the page shows for
      it: how JavaScript prints a floating-point number is not part of this model. */
  datatype Participant = Participant(username: string, entryCount: nat, totalScore: string, pageTitle: string,
                                     isVeteran: bool)

  /** The one row of an empty ranking table. */
  const NoDataRows := "|- \n" + "| colspan=\"5\" style=\"text-align: center;\" | 暂无数据\n"
  /** The mark in front of a newcomer's name in the overall table. */
  const NewStarMark := "🌱 "
  const CellSeparator := " || "

  /** `[[User:name|name]]`, behind the newcomer mark when marking is on and the participant is
      not a veteran. */
  function UserDisplay(p: Participant, markNewStar: bool): string {
    var link := "[[User:" + p.username + "|" + p.username + "]]";
    if markNewStar && !p.isVeteran then NewStarMark + link else link
  }

  /** `cells.join(" || ")`. */
  function Cells(cells: seq<string>): string {
    if |cells| == 0 then "" else if |cells| == 1 then cells[0] else cells[0] + CellSeparator + Cells(cells[1..])
  }

  /** The cells of the participant at `index`: rank, user, entries, score and details page. */
  function RowLine(p: Participant, index: nat, markNewStar: bool): string {
    "| " + Cells([NatToString(index + 1), UserDisplay(p, markNewStar), NatToString(p.entryCount), p.totalScore,
                  "[[" + p.pageTitle + "|查看页面]]"])
  }

  /** The lines of cells of the participants, ranked from 1 in list order. */
  function CellLines(list: seq<Participant>, markNewStar: bool): seq<string> {
    seq(|list|, i requires 0 <= i < |list| => RowLine(list[i], i, markNewStar))
  }

  /** Each line of cells as a row: `|-`, a line break and the cells. */
  function Rows(cellLines: seq<string>): seq<string> {
    seq(|cellLines|, i requires 0 <= i < |cellLines| => RowSeparator + "\n" + cellLines[i])
  }

  /** `generateRows(list, markNewStar)`: the placeholder row for an empty list, and otherwise the
      rows of the participants in order, joined by line breaks. */
  function GenerateRows(list: seq<Participant>, markNewStar: bool): (r: string)
    ensures r == NoDataRows <==> |list| == 0
  {
    if |list| == 0 then NoDataRows
    else
      var rows := Rows(CellLines(list, markNewStar));
      JoinHead(rows, '\n');
      assert rows[0][2] == '\n';
      assert NoDataRows[2] == ' ';
      assert Join(rows, '\n')[2] == Join(rows, '\n')[..|rows[0]|][2];
      Join(rows, '\n')
  }

  /** The lines of rows: `|-` and each line of cells, in order. */
  function RowLines(cellLines: seq<string>): (lines: seq<string>)
    ensures |lines| == 2 * |cellLines|
  {
    if |cellLines| == 0 then [] else [RowSeparator, cellLines[0]] + RowLines(cellLines[1..])
  }

  /** The lines of the row at `i`. */
  lemma {:induction false} RowLinesAt(cellLines: seq<string>, i: nat)
    requires i < |cellLines|
    ensures RowLines(cellLines)[2 * i] == RowSeparator && RowLines(cellLines)[2 * i + 1] == cellLines[i]
    decreases i
  {
    if i > 0 {
      RowLinesAt(cellLines[1..], i - 1);
    }
  }

  /** Joining the rows is joining their lines. */
  lemma {:induction false} RowsAreLines(cellLines: seq<string>)
    requires |cellLines| >= 1
    ensures Join(Rows(cellLines), '\n') == Join(RowLines(cellLines), '\n')
    decreases |cellLines|
  {
    var rows := Rows(cellLines);
    var rest := RowLines(cellLines[1..]);
    var lines := [RowSeparator, cellLines[0]] + rest;
    assert RowLines(cellLines) == lines;
    if |cellLines| == 1 {
      JoinCons(lines, '\n');
      assert lines[1..] == [cellLines[0]];
    } else {
      assert rows[1..] == Rows(cellLines[1..]);
      RowsAreLines(cellLines[1..]);
      JoinCons(rows, '\n');
      JoinCons(lines, '\n');
      JoinCons(lines[1..], '\n');
      assert lines[1..][1..] == rest;
    }
  }

  /** Splitting the joined rows at line breaks gives back their lines when no cells hold one. */
  lemma {:induction false} RowsSplit(cellLines: seq<string>)
    requires |cellLines| >= 1 && forall i :: 0 <= i < |cellLines| ==> '\n' !in cellLines[i]
    ensures Split(Join(Rows(cellLines), '\n'), '\n') == RowLines(cellLines)
  {
    RowsAreLines(cellLines);
    RowLinesOnOneLine(cellLines);
    SplitJoin(RowLines(cellLines), '\n');
  }

  /** The lines of rows whose cells hold no line break hold none either. */
  lemma {:induction false} RowLinesOnOneLine(cellLines: seq<string>)
    requires forall i :: 0 <= i < |cellLines| ==> '\n' !in cellLines[i]
    ensures forall k :: 0 <= k < |RowLines(cellLines)| ==> '\n' !in RowLines(cellLines)[k]
    decreases |cellLines|
  {
    if |cellLines| > 0 {
      RowLinesOnOneLine(cellLines[1..]);
      var rest := RowLines(cellLines[1..]);
      var lines := [RowSeparator, cellLines[0]] + rest;
      assert RowLines(cellLines) == lines;
      assert forall k :: 2 <= k < |lines| ==> lines[k] == rest[k - 2];
    }
  }

  /** No field of the participant holds a line break. */
  predicate OnOneLine(p: Participant) {
    '\n' !in p.username && '\n' !in p.totalScore && '\n' !in p.pageTitle
  }

  /** Cells without line breaks make one line. */
  lemma {:induction false} CellsOnOneLine(cells: seq<string>)
    requires forall k :: 0 <= k < |cells| ==> '\n' !in cells[k]
    ensures '\n' !in Cells(cells)
    decreases |cells|
  {
    if |cells| > 1 {
      CellsOnOneLine(cells[1..]);
    }
  }

  /** A decimal text holds no line break. */
  lemma {:induction false} NumberOnOneLine(n: nat)
    ensures '\n' !in NatToString(n)
  {
    var digits := NatToString(n);
    forall k | 0 <= k < |digits| ensures digits[k] != '\n' {
      assert IsDigit(digits[k]);
    }
  }

  /** The cells of a participant whose fields hold no line break are one line. */
  lemma {:induction false} RowLineOnOneLine(p: Participant, index: nat, markNewStar: bool)
    requires OnOneLine(p)
    ensures '\n' !in RowLine(p, index, markNewStar)
  {
    NumberOnOneLine(index + 1);
    NumberOnOneLine(p.entryCount);
    CellsOnOneLine([NatToString(index + 1), UserDisplay(p, markNewStar), NatToString(p.entryCount), p.totalScore,
                    "[[" + p.pageTitle + "|查看页面]]"]);
  }

  /** The rank a line of cells shows: the digits between its leading `| ` and its first ` || `. */
  function ReadRank(line: string): (r: Option<nat>) {
    var e := IndexOf(line, CellSeparator, 0);
    if !StartsWith(line, "| ") || e < 2 || !AllDigits(line[2..e]) then None
    else Some(DigitsValue(line[2..e]))
  }

  /** The line of cells marks a newcomer: its second cell starts with the mark. */
  predicate ShowsNewStar(line: string) {
    var e := IndexOf(line, CellSeparator, 0);
    e >= 0 && OccursAt(line, NewStarMark, e + |CellSeparator|)
  }

  /** The first ` || ` of `| rank || rest` follows the rank. */
  lemma {:induction false} RankCellEnds(line: string, rank: string, rest: string)
    requires line == "| " + rank + CellSeparator + rest && |rank| >= 1 && AllDigits(rank)
    ensures IndexOf(line, CellSeparator, 0) == 2 + |rank| && line[2..2 + |rank|] == rank
  {
    var e := 2 + |rank|;
    assert line[2..e] == rank;
    assert line[e..e + |CellSeparator|] == CellSeparator;
    forall i: nat | i < e ensures !OccursAt(line, CellSeparator, i) {
      if i == 0 {
        assert line[i] == '|';
      } else if i == 1 {
        assert IsDigit(rank[0]) && line[i + 1] == rank[0];
      } else {
        assert IsDigit(rank[i - 2]) && line[i] == rank[i - 2];
      }
      assert line[i..i + |CellSeparator|][0] == line[i];
      assert line[i..i + |CellSeparator|][1] == line[i + 1];
    }
    IndexOfAt(line, CellSeparator, 0, e);
  }

  /** A line of cells whose first cell is the decimal text of `n` shows rank `n`, and marks a
      newcomer exactly when its second cell starts with the mark. */
  lemma {:induction false} CellsRead(line: string, n: nat, rest: string)
    requires line == "| " + NatToString(n) + CellSeparator + rest
    ensures ReadRank(line) == Some(n)
    ensures ShowsNewStar(line) <==> OccursAt(rest, NewStarMark, 0)
  {
    var rank := NatToString(n);
    RankCellEnds(line, rank, rest);
    NatToStringValue(n);
    var e := 2 + |rank| + |CellSeparator|;
    assert line[e..] == rest;
    if OccursAt(rest, NewStarMark, 0) {
      assert line[e..e + |NewStarMark|] == rest[..|NewStarMark|];
    }
    if OccursAt(line, NewStarMark, e) {
      assert line[e..e + |NewStarMark|] == rest[..|NewStarMark|];
    }
  }

  /** The user cell starts with the newcomer mark exactly when marking is on and the participant
      is not a veteran; a plain link starts with `[`. */
  lemma {:induction false} UserDisplayMark(p: Participant, markNewStar: bool, tail: string)
    ensures OccursAt(UserDisplay(p, markNewStar) + tail, NewStarMark, 0) <==> markNewStar && !p.isVeteran
  {
    var cell := UserDisplay(p, markNewStar) + tail;
    if markNewStar && !p.isVeteran {
      assert cell[..|NewStarMark|] == NewStarMark;
    } else {
      assert cell[0] == '[';
      assert NewStarMark[0] != '[';
    }
  }

  /** The cells of the participant at `index` show rank `index + 1`, and mark a newcomer exactly
      when marking is on and the participant is not a veteran. */
  lemma {:induction false} RowLineReads(p: Participant, index: nat, markNewStar: bool)
    ensures ReadRank(RowLine(p, index, markNewStar)) == Some(index + 1)
    ensures ShowsNewStar(RowLine(p, index, markNewStar)) <==> markNewStar && !p.isVeteran
  {
    var user := UserDisplay(p, markNewStar);
    var tail := CellSeparator + Cells([NatToString(p.entryCount), p.totalScore, "[[" + p.pageTitle + "|查看页面]]"]);
    RowLineSplit(p, index, markNewStar);
    CellsRead(RowLine(p, index, markNewStar), index + 1, user + tail);
    UserDisplayMark(p, markNewStar, tail);
  }

  /** The cells of the participant at `index` after the rank: the user cell, then the rest. */
  lemma {:induction false} RowLineSplit(p: Participant, index: nat, markNewStar: bool)
    ensures RowLine(p, index, markNewStar)
         == "| " + NatToString(index + 1) + CellSeparator
            + (UserDisplay(p, markNewStar)
               + (CellSeparator + Cells([NatToString(p.entryCount), p.totalScore, "[[" + p.pageTitle + "|查看页面]]"])))
  {
    var cells := [NatToString(index + 1), UserDisplay(p, markNewStar), NatToString(p.entryCount), p.totalScore,
                  "[[" + p.pageTitle + "|查看页面]]"];
    assert cells[1..][1..] == cells[2..];
    assert Cells(cells[1..]) == UserDisplay(p, markNewStar) + (CellSeparator + Cells(cells[2..]));
  }

  /** The text of a non-empty table body is two lines per participant, `|-` and their cells; the
      cells of the participant at `i` show rank `i + 1` and the newcomer mark exactly when marking
      is on and the participant is not a veteran. */
  lemma {:induction false} GenerateRowsLines(list: seq<Participant>, markNewStar: bool)
    requires |list| >= 1 && forall i :: 0 <= i < |list| ==> OnOneLine(list[i])
    ensures var lines := Split(GenerateRows(list, markNewStar), '\n');
            && |lines| == 2 * |list|
            && forall i :: 0 <= i < |list| ==>
                 && lines[2 * i] == RowSeparator && lines[2 * i + 1] == RowLine(list[i], i, markNewStar)
                 && ReadRank(lines[2 * i + 1]) == Some(i + 1)
                 && (ShowsNewStar(lines[2 * i + 1]) <==> markNewStar && !list[i].isVeteran)
  {
    var cellLines := CellLines(list, markNewStar);
    forall i | 0 <= i < |list| ensures '\n' !in cellLines[i] {
      RowLineOnOneLine(list[i], i, markNewStar);
    }
    RowsSplit(cellLines);
    forall i | 0 <= i < |list|
      ensures RowLines(cellLines)[2 * i] == RowSeparator && RowLines(cellLines)[2 * i + 1] == cellLines[i]
      ensures ReadRank(RowLine(list[i], i, markNewStar)) == Some(i + 1)
      ensures ShowsNewStar(RowLine(list[i], i, markNewStar)) <==> markNewStar && !list[i].isVeteran
    {
      RowLinesAt(cellLines, i);
      RowLineReads(list[i], i, markNewStar);
    }
  }
}
