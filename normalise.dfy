/** The two line normalisations of the contribution-ledger code. The parser and the
    rewriter each compute their own view of the page as a sequence of lines; the two
    differ and are kept apart here (utils.js:17-20 and utils.js:115-119). */
module Normalise {
  import opened Text

  const CommentOpen := "<!--"
  const CommentClose := "-->"

  /** `replace(/<!--[\s\S]*?-->/g, '')`: each comment opener is paired with the first closer
      that starts after it and the whole span is dropped. An opener with no closer after it
      (and so every later opener too) is kept with the rest of the text. */
  function StripComments(s: string): (r: string)
    ensures |r| <= |s|
    decreases |s|
  {
    var i := IndexOf(s, CommentOpen, 0);
    if i < 0 then s
    else
      var j := IndexOf(s, CommentClose, i + |CommentOpen|);
      if j < 0 then s else s[..i] + StripComments(s[j + |CommentClose|..])
  }

  /** A comment whose opener is the first one in the text disappears with everything inside it:
      an annotation written inside a comment never reaches the parser. */
  lemma {:induction false} CommentIsRemoved(a: string, c: string, b: string)
    requires Absent(a, CommentOpen) && Absent(c, CommentClose) && Absent(b, CommentOpen)
    ensures StripComments(a + CommentOpen + c + CommentClose + b) == a + b
  {
    var u := a + CommentOpen;
    var w := c + CommentClose;
    var v := w + b;
    var s := u + v;
    assert s == a + CommentOpen + c + CommentClose + b;
    var n := |u|;
    MarkersBorderless();
    FirstOccurrenceAppended(a, CommentOpen);
    FirstOccurrenceAppended(c, CommentClose);
    assert s[..n] == u;
    IndexOfInPrefix(s, u, CommentOpen, 0);
    assert s[n..] == v;
    assert v[..|w|] == w;
    IndexOfInPrefix(v, w, CommentClose, 0);
    IndexOfInSuffix(s, n, CommentClose, 0);
    assert s[..|a|] == u[..|a|] == a;
    assert s[n + |w|..] == v[|w|..] == b;
    StripCommentsStep(s, |a|, n + |c|);
    StripCommentsNone(b);
  }

  lemma {:induction false} MarkersBorderless()
    ensures Borderless(CommentOpen) && Borderless(CommentClose)
  {
    assert CommentOpen[..1][0] == '<' && CommentOpen[3..][0] == '-';
    assert CommentOpen[..2][0] == '<' && CommentOpen[2..][0] == '-';
    assert CommentOpen[..3][0] == '<' && CommentOpen[1..][0] == '!';
    assert CommentClose[..1][0] == '-' && CommentClose[2..][0] == '>';
    assert CommentClose[..2][1] == '-' && CommentClose[1..][1] == '>';
  }

  lemma {:induction false} StripCommentsStep(s: string, i: nat, j: nat)
    requires IndexOf(s, CommentOpen, 0) == i
    requires i + |CommentOpen| <= |s| && IndexOf(s, CommentClose, i + |CommentOpen|) == j >= 0
    ensures StripComments(s) == s[..i] + StripComments(s[j + |CommentClose|..])
  {
    var r := StripComments(s);
    assert r == (var i' := IndexOf(s, CommentOpen, 0);
                 if i' < 0 then s
                 else
                   var j' := IndexOf(s, CommentClose, i' + |CommentOpen|);
                   if j' < 0 then s else s[..i'] + StripComments(s[j' + |CommentClose|..]));
  }

  lemma {:induction false} StripCommentsNone(b: string)
    requires Absent(b, CommentOpen)
    ensures StripComments(b) == b
  {
    assert IndexOf(b, CommentOpen, 0) < 0;
  }

  predicate IsPipeOrSpace(c: char) { c == '|' || IsSpace(c) }

  /** `replace(/(?:\|\s*)+}}/g, '}}')`: a run of pipes and white space that starts with a pipe and
      is followed by `}}` is dropped. Backtracking cannot shorten the run, since the character
      after a shorter run is a pipe or a space and never the `}` that must follow. */
  function CollapsePipesBeforeClose(s: string): (r: string)
    ensures |r| <= |s|
    decreases |s|
  {
    if |s| == 0 then ""
    else
      var e := RunEnd(s, 0, IsPipeOrSpace);
      if s[0] == '|' && OccursAt(s, "}}", e) then "}}" + CollapsePipesBeforeClose(s[e + 2..])
      else [s[0]] + CollapsePipesBeforeClose(s[1..])
  }

  /** Without a `}}` in the text there is nothing to collapse. */
  lemma {:induction false} CollapseWithoutBraces(s: string)
    requires Absent(s, "}}")
    ensures CollapsePipesBeforeClose(s) == s
    decreases |s|
  {
    if |s| > 0 {
      assert !OccursAt(s, "}}", RunEnd(s, 0, IsPipeOrSpace));
      AbsentInSuffix(s, 1, "}}");
      CollapseWithoutBraces(s[1..]);
      assert s == [s[0]] + s[1..];
    }
  }

  /** The parser's text before the split (utils.js:17-20): comments removed; a literal
      backslash-n-pipe and a newline-pipe not followed by `-` each become `||`; `|-|` becomes
      `|-` and a newline; pipe runs before `}}` collapse. */
  function ParserText(w: string): string
  {
    var t0 := StripComments(w);
    var t1 := Replace(t0, "\\n|", "||", {'-'});
    var t2 := Replace(t1, "\n|", "||", {'-'});
    var t3 := Replace(t2, "|-|", "|-\n", {});
    CollapsePipesBeforeClose(t3)
  }

  /** The lines the parser walks and numbers. */
  function ParserLines(w: string): (lines: seq<string>)
    ensures |lines| >= 1
    ensures forall i :: 0 <= i < |lines| ==> '\n' !in lines[i]
  {
    Split(ParserText(w), '\n')
  }

  /** The rewriter's text before the split (utils.js:115-117): no comment removal, no literal
      backslash-n rule and no pipe collapse. */
  function RewriterText(w: string): string
  {
    Replace(Replace(w, "\n|", "||", {'-'}), "|-|", "|-\n", {})
  }

  /** `line.replaceAll('||}', '\n|}')` (utils.js:119). */
  function SplitTableClose(line: string): string
  {
    Replace(line, "||}", "\n|}", {})
  }

  /** The lines the rewriter addresses by number (utils.js:115-119). */
  function RewriterLines(w: string): (lines: seq<string>)
    ensures |lines| == |Split(RewriterText(w), '\n')| >= 1
    ensures Join(lines, '\n') == SplitTableClose(RewriterText(w))
    ensures forall i :: 0 <= i < |lines| ==> Absent(lines[i], "||}")
  {
    var pieces := Split(RewriterText(w), '\n');
    var lines := seq(|pieces|, i requires 0 <= i < |pieces| => SplitTableClose(pieces[i]));
    JoinSplitTableClose(pieces, lines);
    JoinSplit(RewriterText(w), '\n');
    forall i | 0 <= i < |lines| ensures Absent(lines[i], "||}") {
      SplitTableCloseClean(pieces[i]);
    }
    lines
  }

  /** Splitting `||}` in each line and joining the lines is splitting it in the joined text: the
      pattern holds no line break, so no occurrence reaches across one. */
  lemma {:induction false} JoinSplitTableClose(parts: seq<string>, lines: seq<string>)
    requires |parts| == |lines|
    requires forall i :: 0 <= i < |parts| ==> lines[i] == SplitTableClose(parts[i])
    ensures Join(lines, '\n') == SplitTableClose(Join(parts, '\n'))
    decreases |parts|
  {
    if |parts| >= 2 {
      JoinSplitTableClose(parts[1..], lines[1..]);
      JoinCons(parts, '\n');
      JoinCons(lines, '\n');
      ReplaceAcross(parts[0], '\n', Join(parts[1..], '\n'), "||}", "\n|}", {});
    }
  }

  /** After the split no `||}` is left: every one found is replaced, and the replacement, which
      starts with a line break and ends with `}`, cannot form a new one with its neighbours. */
  lemma {:induction false} SplitTableCloseClean(s: string)
    ensures Absent(SplitTableClose(s), "||}")
    decreases |s|
  {
    var r := SplitTableClose(s);
    if |s| > 0 {
      if ReplacesAt(s, "||}", {}, 0) {
        var rest := SplitTableClose(s[3..]);
        SplitTableCloseClean(s[3..]);
        assert r == "\n|}" + rest;
        forall i | 0 <= i <= |r| ensures !OccursAt(r, "||}", i) {
          if 3 <= i {
            var j: nat := i - 3;
            assert !OccursAt(rest, "||}", j);
            assert i + 3 <= |r| ==> r[i..i + 3] == rest[j..j + 3];
          }
          assert i + 3 <= |r| && i < 3 ==> r[i..i + 3][2 - i] == '}';
        }
      } else {
        var t := s[1..];
        var rest := SplitTableClose(t);
        SplitTableCloseClean(t);
        assert r == [s[0]] + rest;
        forall i | 0 <= i <= |r| ensures !OccursAt(r, "||}", i) {
          if 1 <= i {
            var j: nat := i - 1;
            assert !OccursAt(rest, "||}", j);
            assert i + 3 <= |r| ==> r[i..i + 3] == rest[j..j + 3];
          } else {
            HeadFollows(s);
          }
        }
      }
    }
  }

  /** A text whose split starts with `|}` after a `|` would have started with `||}` itself. */
  lemma {:induction false} HeadFollows(s: string)
    requires |s| > 0 && !ReplacesAt(s, "||}", {}, 0)
    ensures !OccursAt(SplitTableClose(s), "||}", 0)
  {
    var r := SplitTableClose(s);
    if |s| >= 2 {
      var t := s[1..];
      assert r == [s[0]] + SplitTableClose(t);
      ReplaceHead(t, "||}", "\n|}", {});
      if |t| >= 2 {
        var u := t[1..];
        assert !ReplacesAt(t, "||}", {}, 0) ==> SplitTableClose(t) == [t[0]] + SplitTableClose(u);
        ReplaceHead(u, "||}", "\n|}", {});
        assert s[..3] == [s[0], t[0], u[0]];
      } else {
        assert SplitTableClose(t) == [t[0]] + SplitTableClose(t[1..]);
      }
    } else {
      assert r == [s[0]] + SplitTableClose(s[1..]);
    }
  }

  /** A page that has no continuation line, no `|-|` and no `||}` is its own rewriter view:
      joining the rewriter's lines gives the page back. */
  lemma {:induction false} RewriterViewOfNormalPage(w: string)
    requires forall i: nat :: !ReplacesAt(w, "\n|", {'-'}, i)
    requires Absent(w, "|-|")
    requires Absent(w, "||}")
    ensures Join(RewriterLines(w), '\n') == w
  {
    ReplaceAbsent(w, "\n|", "||", {'-'});
    AbsentNotReplaced(w, "|-|", {});
    ReplaceAbsent(w, "|-|", "|-\n", {});
    assert RewriterText(w) == w;
    var pieces := Split(w, '\n');
    AbsentInSplit(w, '\n', "||}");
    forall i | 0 <= i < |pieces| ensures SplitTableClose(pieces[i]) == pieces[i] {
      AbsentNotReplaced(pieces[i], "||}", {});
      ReplaceAbsent(pieces[i], "||}", "\n|}", {});
    }
    assert RewriterLines(w) == pieces;
    JoinSplit(w, '\n');
  }

  /** A page with no comment opener and no literal backslash-n: the parser's text is the page
      after the newline-pipe joins, the `|-|` splits and the pipe collapse. */
  lemma {:induction false} ParserTextPlain(w: string)
    requires '<' !in w && '\\' !in w
    ensures ParserText(w)
      == CollapsePipesBeforeClose(Replace(Replace(w, "\n|", "||", {'-'}), "|-|", "|-\n", {}))
  {
    AbsentWithout(w, CommentOpen, 0);
    StripCommentsNone(w);
    AbsentWithout(w, "\\n|", 0);
    AbsentNotReplaced(w, "\\n|", {'-'});
    ReplaceAbsent(w, "\\n|", "||", {'-'});
  }

  /** The newline-pipe join on the short pieces the worked pages below are cut into. */
  lemma {:induction false} ShortJoins()
    ensures Replace("{|", "\n|", "||", {'-'}) == "{|"
    ensures Replace("\n|-", "\n|", "||", {'-'}) == "\n|-"
    ensures Replace("\n|}", "\n|", "||", {'-'}) == "||}"
    ensures Replace("\n|", "\n|", "||", {'-'}) == "||"
  {
  }

  /** The `|-|` split on the short pieces the worked pages below are cut into. */
  lemma {:induction false} ShortResplits()
    ensures Replace("{|", "|-|", "|-\n", {}) == "{|"
    ensures Replace("\n", "|-|", "|-\n", {}) == "\n"
    ensures Replace("|-|", "|-|", "|-\n", {}) == "|-\n"
    ensures Replace("|", "|-|", "|-\n", {}) == "|"
    ensures Replace("|}", "|-|", "|-\n", {}) == "|}"
  {
  }

  /** A text without `-` has nothing for the `|-|` split. */
  lemma {:induction false} NoResplitWithoutDash(s: string)
    requires '-' !in s
    ensures Replace(s, "|-|", "|-\n", {}) == s
  {
    AbsentWithout(s, "|-|", 1);
    AbsentNotReplaced(s, "|-|", {});
    ReplaceAbsent(s, "|-|", "|-\n", {});
  }

  /** Without comments, backslashes and `}}` the parser's text is the rewriter's. */
  lemma {:induction false} ParserTextWithoutBraces(w: string)
    requires '<' !in w && '\\' !in w && Absent(RewriterText(w), "}}")
    ensures ParserText(w) == RewriterText(w)
  {
    ParserTextPlain(w);
    CollapseWithoutBraces(RewriterText(w));
  }

  // A table opener with attribute `a`, a bare row separator and a closer: `{|a`, `|-`, `|}`.

  lemma {:induction false} SeparatorCloserShapes(a: char)
    ensures ("{|" + [a] + "\n|-") + "\n|}" == "{|" + [a] + "\n|-\n|}"
    ensures (("{|" + [a] + "\n|-") + "\n|}")[5] == '-'
    ensures "{|" + [a] + "\n|-" + "||}" == "{|" + [a] + "\n|-||}"
    ensures ("{|" + [a] + "\n" + "|-|") + "|}" == "{|" + [a] + "\n|-||}"
    ensures (("{|" + [a] + "\n") + "|-|")[2] == a && (("{|" + [a] + "\n") + "|-|")[3] == '\n'
    ensures (("{|" + [a] + "\n" + "|-|") + "|}")[5] == '-' && (("{|" + [a] + "\n" + "|-|") + "|}")[6] == '|'
    ensures "{|" + [a] + "\n" + "|-\n" + "|}" == "{|" + [a] + "\n|-\n|}"
  {
  }

  lemma {:induction false} SeparatorCloserJoined(a: char)
    requires a !in "\n|-}"
    ensures Replace("{|" + [a] + "\n|-\n|}", "\n|", "||", {'-'}) == "{|" + [a] + "\n|-||}"
  {
    SeparatorCloserShapes(a);
    ReplaceSplit("{|" + [a] + "\n|-", "\n|}", "\n|", "||", {'-'});
    ReplaceAcross("{|", a, "\n|-", "\n|", "||", {'-'});
    ShortJoins();
  }

  lemma {:induction false} SeparatorCloserResplit(a: char)
    requires a !in "\n|-}"
    ensures Replace("{|" + [a] + "\n|-||}", "|-|", "|-\n", {}) == "{|" + [a] + "\n|-\n|}"
  {
    SeparatorCloserShapes(a);
    ReplaceSplit("{|" + [a] + "\n" + "|-|", "|}", "|-|", "|-\n", {});
    ReplaceSplit("{|" + [a] + "\n", "|-|", "|-|", "|-\n", {});
    ReplaceAcross("{|", a, "\n", "|-|", "|-\n", {});
    ShortResplits();
  }

  lemma {:induction false} SeparatorCloserText(a: char)
    requires a !in "\n|-}<\\"
    ensures ParserText("{|" + [a] + "\n|-\n|}") == "{|" + [a] + "\n|-\n|}"
  {
    var w := "{|" + [a] + "\n|-\n|}";
    SeparatorCloserJoined(a);
    SeparatorCloserResplit(a);
    AbsentFirstOnlyLast(w, "}}");
    ParserTextWithoutBraces(w);
  }

  lemma {:induction false} ThreeLines(p: string, q: string, r: string)
    ensures Join([p, q, r], '\n') == p + "\n" + q + "\n" + r
  {
    var lines := [p, q, r];
    JoinCons(lines, '\n');
    JoinCons(lines[1..], '\n');
    assert lines[1..][1..] == [r];
  }

  /** The parser sees the closer after a bare `|-` line on a line of its own: the join makes
      `|-||}` and the `|-|` split cuts it back. */
  lemma {:induction false} SeparatorCloserLines(a: char)
    requires a !in "\n|-}<\\"
    ensures ParserLines("{|" + [a] + "\n|-\n|}") == ["{|" + [a], "|-", "|}"]
  {
    SeparatorCloserText(a);
    ThreeLines("{|" + [a], "|-", "|}");
    assert ("{|" + [a]) + "\n" + "|-" + "\n" + "|}" == "{|" + [a] + "\n|-\n|}";
    SplitJoin(["{|" + [a], "|-", "|}"], '\n');
  }

  // The same table with a row `| c` after the separator, the closer right after the row.

  lemma {:induction false} CellCloserJoined(c: char)
    requires c !in "\n|-}"
    ensures Replace([c] + "\n|}", "\n|", "||", {'-'}) == [c] + "||}"
  {
    ReplaceAcross("", c, "\n|}", "\n|", "||", {'-'});
    ShortJoins();
  }

  lemma {:induction false} RowCloserShapes(a: char, c: char)
    ensures "\n|-" + ("\n|" + [' '] + ([c] + "\n|}")) == "\n|-\n| " + [c] + "\n|}"
    ensures "\n|-" + ("||" + [' '] + ([c] + "||}")) == "\n|-|| " + [c] + "||}"
    ensures ("\n|-" + ("\n|" + [' '] + ([c] + "\n|}")))[2] == '-'
    ensures "{|" + [a] + ("\n|-\n| " + [c] + "\n|}") == "{|" + [a] + "\n|-\n| " + [c] + "\n|}"
    ensures "{|" + [a] + ("\n|-|| " + [c] + "||}") == "{|" + [a] + "\n|-|| " + [c] + "||}"
    ensures "\n" + ("|-|" + ("|" + [' '] + ([c] + "||}"))) == "\n|-|| " + [c] + "||}"
    ensures ("|-|" + ("|" + [' '] + ([c] + "||}")))[1] == '-'
    ensures ("|-|" + ("|" + [' '] + ([c] + "||}")))[3] == '|'
    ensures ("\n" + ("|-|" + ("|" + [' '] + ([c] + "||}"))))[0] == '\n'
    ensures "\n" + ("|-\n" + ("|" + [' '] + ([c] + "||}"))) == "\n|-\n| " + [c] + "||}"
    ensures "{|" + [a] + ("\n|-\n| " + [c] + "||}") == "{|" + [a] + "\n|-\n| " + [c] + "||}"
  {
  }

  lemma {:induction false} RowCloserJoinedTail(c: char)
    requires c !in "\n|-}"
    ensures Replace("\n|-\n| " + [c] + "\n|}", "\n|", "||", {'-'}) == "\n|-|| " + [c] + "||}"
  {
    RowCloserShapes('{', c);
    ReplaceSplit("\n|-", "\n|" + [' '] + ([c] + "\n|}"), "\n|", "||", {'-'});
    ReplaceAcross("\n|", ' ', [c] + "\n|}", "\n|", "||", {'-'});
    CellCloserJoined(c);
    ShortJoins();
  }

  lemma {:induction false} RowCloserJoined(a: char, c: char)
    requires a !in "\n|-}" && c !in "\n|-}"
    ensures Replace("{|" + [a] + "\n|-\n| " + [c] + "\n|}", "\n|", "||", {'-'})
      == "{|" + [a] + "\n|-|| " + [c] + "||}"
  {
    RowCloserShapes(a, c);
    ReplaceAcross("{|", a, "\n|-\n| " + [c] + "\n|}", "\n|", "||", {'-'});
    RowCloserJoinedTail(c);
    ShortJoins();
  }

  lemma {:induction false} RowCloserResplitTail(c: char)
    requires c !in "\n|-}"
    ensures Replace("\n|-|| " + [c] + "||}", "|-|", "|-\n", {}) == "\n|-\n| " + [c] + "||}"
  {
    var b := [c] + "||}";
    RowCloserShapes('{', c);
    ReplaceSplit("\n", "|-|" + ("|" + [' '] + b), "|-|", "|-\n", {});
    ReplaceSplit("|-|", "|" + [' '] + b, "|-|", "|-\n", {});
    ReplaceAcross("|", ' ', b, "|-|", "|-\n", {});
    NoResplitWithoutDash(b);
    ShortResplits();
  }

  lemma {:induction false} RowCloserResplit(a: char, c: char)
    requires a !in "\n|-}" && c !in "\n|-}"
    ensures Replace("{|" + [a] + "\n|-|| " + [c] + "||}", "|-|", "|-\n", {})
      == "{|" + [a] + "\n|-\n| " + [c] + "||}"
  {
    RowCloserShapes(a, c);
    ReplaceAcross("{|", a, "\n|-|| " + [c] + "||}", "|-|", "|-\n", {});
    RowCloserResplitTail(c);
    ShortResplits();
  }

  lemma {:induction false} RowCloserTextShapes(a: char, c: char)
    ensures ("{|" + [a] + "\n|-\n| " + [c] + "||") + "}" == "{|" + [a] + "\n|-\n| " + [c] + "||}"
    ensures '}' !in "{|" + [a] + "\n|-\n| " + [c] + "||" || a == '}' || c == '}'
    ensures ("{|" + [a] + "\n|-\n| " + [c] + "||}")[..|"{|" + [a] + "\n|-\n| " + [c] + "||}"| - 1]
      == "{|" + [a] + "\n|-\n| " + [c] + "||"
    ensures "{|" + [a] + "\n|-\n| " + [c] + "||}" == ("{|" + [a]) + "\n" + "|-" + "\n" + ("| " + [c] + "||}")
  {
  }

  lemma {:induction false} RowCloserText(a: char, c: char)
    requires a !in "\n|-}<\\" && c !in "\n|-}<\\"
    ensures ParserText("{|" + [a] + "\n|-\n| " + [c] + "\n|}") == "{|" + [a] + "\n|-\n| " + [c] + "||}"
  {
    var t := "{|" + [a] + "\n|-\n| " + [c] + "||}";
    RowCloserJoined(a, c);
    RowCloserResplit(a, c);
    RowCloserTextShapes(a, c);
    AbsentFirstOnlyLast(t, "}}");
    ParserTextWithoutBraces("{|" + [a] + "\n|-\n| " + [c] + "\n|}");
  }

  /** The parser sees the closer after a row line joined to that row: `| c||}` is one line. */
  lemma {:induction false} RowCloserLines(a: char, c: char)
    requires a !in "\n|-}<\\" && c !in "\n|-}<\\"
    ensures ParserLines("{|" + [a] + "\n|-\n| " + [c] + "\n|}") == ["{|" + [a], "|-", "| " + [c] + "||}"]
  {
    RowCloserText(a, c);
    RowCloserTextShapes(a, c);
    ThreeLines("{|" + [a], "|-", "| " + [c] + "||}");
    SplitJoin(["{|" + [a], "|-", "| " + [c] + "||}"], '\n');
  }

  // The rewriter on a table whose first row `| c` follows the opener directly.

  lemma {:induction false} OpeningRowShapes(c: char)
    ensures "{|" + "\n|" == "{|\n|"
    ensures ("{|" + "\n|")[1] == '|'
    ensures "{|\n|" + [' '] + ([c] + "\n|}") == "{|\n| " + [c] + "\n|}"
    ensures "{|" + "||" + [' '] + ([c] + "||}") == "{||| " + [c] + "||}"
    ensures "{||| " + [c] + "||}" == "{||| " + [c] + "||}"
    ensures "{||| " + [c] + "\n|}" == "{||| " + [c] + "\n|}"
  {
  }

  lemma {:induction false} OpeningRowJoined(c: char)
    requires c !in "\n|-}"
    ensures Replace("{|\n| " + [c] + "\n|}", "\n|", "||", {'-'}) == "{||| " + [c] + "||}"
  {
    OpeningRowShapes(c);
    ReplaceSplit("{|", "\n|", "\n|", "||", {'-'});
    ReplaceAcross("{|\n|", ' ', [c] + "\n|}", "\n|", "||", {'-'});
    CellCloserJoined(c);
    ShortJoins();
  }

  /** The rewriter keeps a row that follows the opener joined to it; only the closer is cut off
      again. */
  lemma {:induction false} OpeningRowRewriterView(c: char)
    requires c !in "\n|-}"
    ensures SplitTableClose(RewriterText("{|\n| " + [c] + "\n|}")) == "{||| " + [c] + "\n|}"
  {
    var t := "{||| " + [c] + "||}";
    OpeningRowJoined(c);
    NoResplitWithoutDash(t);
    ReplaceAcross("{||| ", c, "||}", "||}", "\n|}", {});
    AbsentWithout("{||| ", "||}", 2);
    AbsentNotReplaced("{||| ", "||}", {});
    ReplaceAbsent("{||| ", "||}", "\n|}", {});
    assert Replace("||}", "||}", "\n|}", {}) == "\n|}";
  }

  lemma {:induction false} ShortCloserSplits()
    ensures SplitTableClose("{|") == "{|"
    ensures SplitTableClose("\n|") == "\n|"
    ensures SplitTableClose("\n|}") == "\n|}"
  {
  }

  lemma {:induction false} SeparatorCloserViewShapes(a: char)
    ensures ("{|" + [a] + "\n|") + ['-'] + "\n|}" == "{|" + [a] + "\n|-\n|}"
  {
  }

  /** The rewriter reads the page `{|a`, `|-`, `|}` back as written: the join and the `|-|` split
      cancel, and no `||}` is left for the closer split. */
  lemma {:induction false} SeparatorCloserRewriterView(a: char)
    requires a !in "\n|-}"
    ensures SplitTableClose(RewriterText("{|" + [a] + "\n|-\n|}")) == "{|" + [a] + "\n|-\n|}"
  {
    SeparatorCloserJoined(a);
    SeparatorCloserResplit(a);
    SeparatorCloserViewShapes(a);
    ReplaceAcross("{|" + [a] + "\n|", '-', "\n|}", "||}", "\n|}", {});
    ReplaceAcross("{|", a, "\n|", "||}", "\n|}", {});
    ShortCloserSplits();
  }

  lemma {:induction false} RowCloserViewShapes(a: char, c: char)
    ensures "{|" + [a] + "\n|-\n| " + [c] + "||}" == ("{|" + [a] + "\n|-\n| ") + [c] + "||}"
    ensures ("{|" + [a] + "\n|-\n| ") + [c] + "\n|}" == "{|" + [a] + "\n|-\n| " + [c] + "\n|}"
  {
  }

  /** The rewriter reads a row after a bare row separator, and the closer after it, back as
      written: the row's line break returns with the `|-|` split and the closer's with the `||}`
      split. */
  lemma {:induction false} RowCloserRewriterView(a: char, c: char)
    requires a !in "\n|-}" && c !in "\n|-}"
    ensures SplitTableClose(RewriterText("{|" + [a] + "\n|-\n| " + [c] + "\n|}")) == "{|" + [a] + "\n|-\n| " + [c] + "\n|}"
  {
    var x := "{|" + [a] + "\n|-\n| ";
    RowCloserJoined(a, c);
    RowCloserResplit(a, c);
    RowCloserViewShapes(a, c);
    ReplaceAcross(x, c, "||}", "||}", "\n|}", {});
    AbsentWithout(x, "||}", 2);
    AbsentNotReplaced(x, "||}", {});
    ReplaceAbsent(x, "||}", "\n|}", {});
    assert Replace("||}", "||}", "\n|}", {}) == "\n|}";
  }
}
