/** The participant list of the report: the user names linked from the registration page
    (`extractUsernames`) and their division into query batches of at most fifty names. */
module Usernames {
  import opened Text

  // ---------------------------------------------------------------------------------------
  // The user-link pattern
  //
  //   \[\[(?:User|U|User talk|UT|特殊:用户贡献|特殊:用户页|User_talk|用户):([^\]|#<]+)(?:[^\[\]]*?)\]\]
  //
  // with the flags `g` and `i`, written as a scanner. Backtracking cannot change a match: at
  // most one namespace can be followed by `:` (NamespaceUnique); shortening the greedy name
  // only adds characters to the span the lazy group must cover without `[` or `]`, while the
  // `]]` it must reach stays the first `]` after the name.
  // ---------------------------------------------------------------------------------------

  /** The namespace prefixes a user link may use, in the order the pattern tries them. */
  const Namespaces: seq<string> := ["User", "U", "User talk", "UT", "特殊:用户贡献", "特殊:用户页", "User_talk", "用户"]

  /** `pat` occurs in `s` at `i` when ASCII letters are compared without regard to case. */
  predicate OccursFoldedAt(s: string, pat: string, i: nat) {
    i + |pat| <= |s| && forall k :: 0 <= k < |pat| ==> FoldAscii(s[i + k]) == FoldAscii(pat[k])
  }

  /** Namespace number `a` followed by `:` starts at `i`. */
  predicate NamespaceAt(s: string, i: nat, a: nat) {
    a < |Namespaces| && OccursFoldedAt(s, Namespaces[a] + ":", i)
  }

  /** The end of the first namespace, from number `a` on, that is followed by `:` at `i`. */
  function NamespaceEnd(s: string, i: nat, a: nat): (e: Option<nat>)
    requires a <= |Namespaces|
    ensures e.Some? ==> exists b :: a <= b && NamespaceAt(s, i, b) && e.value == i + |Namespaces[b]| + 1
    ensures e.Some? ==> i < e.value <= |s| && s[e.value - 1] == ':'
    ensures e.None? ==> forall b :: a <= b < |Namespaces| ==> !NamespaceAt(s, i, b)
    decreases |Namespaces| - a
  {
    if a == |Namespaces| then None
    else if NamespaceAt(s, i, a) then
      var e := i + |Namespaces[a]| + 1;
      assert FoldAscii(s[i + |Namespaces[a]|]) == FoldAscii((Namespaces[a] + ":")[|Namespaces[a]|]);
      Some(e)
    else NamespaceEnd(s, i, a + 1)
  }

  /** No two namespaces followed by `:` start at the same place. */
  lemma {:induction false} NamespaceUnique(s: string, i: nat, a: nat, b: nat)
    requires NamespaceAt(s, i, a) && NamespaceAt(s, i, b)
    ensures a == b
  {
    var x := Namespaces[a] + ":";
    var y := Namespaces[b] + ":";
    var m := (if |x| < |y| then |x| else |y|) - 1;
    assert FoldAscii(x[0]) == FoldAscii(s[i]) == FoldAscii(y[0]);
    assert FoldAscii(x[m]) == FoldAscii(s[i + m]) == FoldAscii(y[m]);
    if m >= 4 {
      assert FoldAscii(x[4]) == FoldAscii(s[i + 4]) == FoldAscii(y[4]);
    }
  }

  /** When namespace `a` is followed by `:` at `i`, it is the one the pattern takes. */
  lemma {:induction false} NamespaceEndIs(s: string, i: nat, a: nat, from: nat, e: nat)
    requires from <= a && NamespaceAt(s, i, a) && e == i + |Namespaces[a]| + 1
    ensures NamespaceEnd(s, i, from) == Some(e)
    decreases a - from
  {
    assert from < |Namespaces|;
    if NamespaceAt(s, i, from) {
      NamespaceUnique(s, i, a, from);
    } else {
      assert NamespaceEnd(s, i, from) == NamespaceEnd(s, i, from + 1);
      NamespaceEndIs(s, i, a, from + 1, e);
    }
  }

  /** The characters of a user name: the class `[^\]|#<]`. */
  predicate NameChar(c: char) { c != ']' && c != '|' && c != '#' && c != '<' }

  /** A match of the pattern: `[[` at `start`, a namespace and `:`, the name in
      `[nameStart, nameEnd)`, text without brackets, and `]]` ending at `end`. */
  datatype Link = Link(start: nat, nameStart: nat, nameEnd: nat, end: nat)

  /** What a match is, independently of how it is found. */
  predicate IsLink(s: string, l: Link) {
    && l.start + 2 < l.nameStart < l.nameEnd && l.nameEnd + 2 <= l.end <= |s|
    && OccursAt(s, "[[", l.start) && s[l.nameStart - 1] == ':'
    && (forall k :: l.nameStart <= k < l.nameEnd ==> NameChar(s[k]))
    && (forall k :: l.nameEnd <= k < l.end - 2 ==> s[k] != '[' && s[k] != ']')
    && OccursAt(s, "]]", l.end - 2)
  }

  /** A match as the pattern reads it at its start: the namespace the text has there, the longest
      run of name characters after the `:`, and the first `]]` after that with no bracket between. */
  predicate IsPatternMatch(s: string, l: Link) {
    && IsLink(s, l)
    && (exists a :: 0 <= a < |Namespaces| && NamespaceAt(s, l.start + 2, a) && l.nameStart == l.start + 2 + |Namespaces[a]| + 1)
    && (l.nameEnd == |s| || !NameChar(s[l.nameEnd]))
  }

  /** Between `e` and the first `]` after it, a text without `[` holds no bracket. */
  lemma {:induction false} BracketFree(s: string, e: nat, j: nat)
    requires e <= j <= |s| && IndexOf(s, "]", e) == j && '[' !in s[e..j]
    ensures forall k :: e <= k < j ==> s[k] != '[' && s[k] != ']'
  {
    forall k | e <= k < j ensures s[k] != '[' && s[k] != ']' {
      assert !OccursAt(s, "]", k);
      assert s[k..k + 1][0] == s[k];
      assert s[e..j][k - e] == s[k];
    }
  }

  /** The match starting at `p`, if there is one. */
  function LinkAt(s: string, p: nat): (r: Option<Link>)
    requires p <= |s|
    ensures r.Some? ==> r.value.start == p && IsLink(s, r.value)
  {
    if !OccursAt(s, "[[", p) then None
    else match NamespaceEnd(s, p + 2, 0)
      case None => None
      case Some(c) => LinkFrom(s, p, c)
  }

  /** The rest of a match at `p` whose namespace and `:` end at `c`: the name and the closing. */
  function LinkFrom(s: string, p: nat, c: nat): (r: Option<Link>)
    requires p + 2 < c <= |s| && OccursAt(s, "[[", p) && s[c - 1] == ':'
    ensures r.Some? ==> && r.value.start == p && r.value.nameStart == c && IsLink(s, r.value)
                        && (r.value.nameEnd == |s| || !NameChar(s[r.value.nameEnd]))
  {
        var e := RunEnd(s, c, NameChar);
        var j := IndexOf(s, "]", e);
        if e == c || j < 0 || !OccursAt(s, "]]", j) || '[' in s[e..j] then None
        else
          BracketFree(s, e, j);
          Some(Link(p, c, e, j + 2))
  }

  /** `LinkAt` finds exactly the matches of the pattern. */
  lemma {:induction false} LinkAtExact(s: string, l: Link)
    requires l.start <= |s|
    ensures LinkAt(s, l.start) == Some(l) <==> IsPatternMatch(s, l)
  {
    if LinkAt(s, l.start) == Some(l) {
      LinkAtSound(s, l.start);
    }
    if IsPatternMatch(s, l) {
      LinkAtComplete(s, l);
    }
  }

  /** What `LinkAt` finds is a match of the pattern. */
  lemma {:induction false} LinkAtSound(s: string, p: nat)
    requires p <= |s| && LinkAt(s, p).Some?
    ensures IsPatternMatch(s, LinkAt(s, p).value)
  {
    var c := NamespaceEnd(s, p + 2, 0).value;
    LinkAtFrom(s, p, c);
  }

  /** Every match of the pattern at `l.start` is the one `LinkAt` finds there. */
  lemma {:induction false} LinkAtComplete(s: string, l: Link)
    requires IsPatternMatch(s, l)
    ensures LinkAt(s, l.start) == Some(l)
  {
    var p := l.start;
    var a :| 0 <= a < |Namespaces| && NamespaceAt(s, p + 2, a) && l.nameStart == p + 2 + |Namespaces[a]| + 1;
    NamespaceEndIs(s, p + 2, a, 0, l.nameStart);
    LinkAtFrom(s, p, l.nameStart);
    LinkFromComplete(s, l);
  }

  lemma {:induction false} LinkAtFrom(s: string, p: nat, c: nat)
    requires p <= |s| && OccursAt(s, "[[", p) && NamespaceEnd(s, p + 2, 0) == Some(c)
    ensures p + 2 < c <= |s| && s[c - 1] == ':' && LinkAt(s, p) == LinkFrom(s, p, c)
  {
    var e := NamespaceEnd(s, p + 2, 0);
    assert e.Some? && e.value == c;
    assert p + 2 < c <= |s| && s[c - 1] == ':';
  }

  /** The name and closing of a match of the pattern are the ones `LinkFrom` finds. */
  lemma {:induction false} LinkFromComplete(s: string, l: Link)
    requires IsLink(s, l) && (l.nameEnd == |s| || !NameChar(s[l.nameEnd]))
    ensures LinkFrom(s, l.start, l.nameStart) == Some(l)
  {
    RunEndAt(s, l.nameStart, NameChar, l.nameEnd);
    FirstClose(s, l.nameEnd, l.end - 2);
  }

  /** When no bracket lies between `e` and a `]]` at `j`, that `]` is the first after `e`. */
  lemma {:induction false} FirstClose(s: string, e: nat, j: nat)
    requires e <= j && OccursAt(s, "]]", j) && forall k :: e <= k < j ==> s[k] != '[' && s[k] != ']'
    ensures IndexOf(s, "]", e) == j && '[' !in s[e..j]
  {
    forall i: nat | e <= i < j ensures !OccursAt(s, "]", i) {
      assert s[i..i + 1][0] == s[i];
    }
    assert s[j..j + 1] == s[j..j + 2][..1];
    IndexOfAt(s, "]", e, j);
    assert !('[' in s[e..j]) by {
      forall k | 0 <= k < j - e ensures s[e..j][k] != '[' {
        assert s[e..j][k] == s[e + k];
      }
    }
  }

  /** `pattern.exec(s)` with `lastIndex == from`: the leftmost match at or after `from`. */
  function FindLink(s: string, from: nat): (r: Option<Link>)
    requires from <= |s|
    ensures r.Some? ==> from <= r.value.start && IsLink(s, r.value)
    ensures forall p :: from <= p <= |s| && (r.None? || p < r.value.start) ==> LinkAt(s, p).None?
    decreases |s| - from
  {
    if LinkAt(s, from).Some? then LinkAt(s, from)
    else if from == |s| then None
    else FindLink(s, from + 1)
  }

  /** The match `exec` finds is the one that starts where it does. */
  lemma {:induction false} FindLinkAt(s: string, from: nat)
    requires from <= |s| && FindLink(s, from).Some?
    ensures LinkAt(s, FindLink(s, from).value.start) == FindLink(s, from)
    decreases |s| - from
  {
    if LinkAt(s, from).None? {
      FindLinkAt(s, from + 1);
    }
  }

  /** The names the `exec` loop captures from `from` on, in order. */
  function Captures(s: string, from: nat): seq<string>
    requires from <= |s|
    decreases |s| - from
  {
    match FindLink(s, from)
    case None => []
    case Some(l) => [s[l.nameStart..l.nameEnd]] + Captures(s, l.end)
  }

  /** The distinct non-empty trimmed names among `captures`. */
  function NameSet(captures: seq<string>): set<string> {
    set c | c in captures && Trim(c) != "" :: Trim(c)
  }

  function Elems(s: seq<string>): set<string> {
    set x | x in s
  }

  /** Every capture is a non-empty run of name characters. */
  lemma {:induction false} CapturesAreNames(s: string, from: nat)
    requires from <= |s|
    ensures forall c :: c in Captures(s, from) ==> NameRun(c)
    decreases |s| - from
  {
    match FindLink(s, from)
    case None =>
    case Some(l) =>
      CapturesAreNames(s, l.end);
      LinkName(s, l);
      assert Captures(s, from) == [s[l.nameStart..l.nameEnd]] + Captures(s, l.end);
  }

  /** A non-empty run of name characters. */
  predicate NameRun(c: string) {
    c != "" && forall k :: 0 <= k < |c| ==> NameChar(c[k])
  }

  /** The name of a match is a run of name characters. */
  lemma {:induction false} LinkName(s: string, l: Link)
    requires IsLink(s, l)
    ensures NameRun(s[l.nameStart..l.nameEnd])
  {
    var c := s[l.nameStart..l.nameEnd];
    forall k | 0 <= k < |c| ensures NameChar(c[k]) {
      assert c[k] == s[l.nameStart + k];
    }
  }

  /** Trimming a run of name characters leaves name characters. */
  lemma {:induction false} TrimKeepsNameChars(x: string)
    requires forall k :: 0 <= k < |x| ==> NameChar(x[k])
    ensures forall k :: 0 <= k < |Trim(x)| ==> NameChar(Trim(x)[k])
  {
    var t := TrimStart(x);
    TrimStartDropsSpace(x);
    TrimEndDropsSpace(t);
    forall k | 0 <= k < |Trim(x)| ensures NameChar(Trim(x)[k]) {
      assert Trim(x)[k] == t[k] == x[|x| - |t| + k];
    }
  }

  /** The names taken from a page are non-empty, have no surrounding whitespace and hold none of
      `]`, `|`, `#` and `<`. */
  lemma {:induction false} NameSetClean(s: string, from: nat)
    requires from <= |s|
    ensures forall n :: n in NameSet(Captures(s, from)) ==>
              && n != "" && !IsSpace(n[0]) && !IsSpace(n[|n| - 1])
              && forall k :: 0 <= k < |n| ==> NameChar(n[k])
  {
    CapturesAreNames(s, from);
    TrimmedNamesClean(Captures(s, from));
  }

  lemma {:induction false} TrimmedNamesClean(captures: seq<string>)
    requires forall c :: c in captures ==> NameRun(c)
    ensures forall n :: n in NameSet(captures) ==>
              && n != "" && !IsSpace(n[0]) && !IsSpace(n[|n| - 1])
              && forall k :: 0 <= k < |n| ==> NameChar(n[k])
  {
    forall n | n in NameSet(captures)
      ensures && n != "" && !IsSpace(n[0]) && !IsSpace(n[|n| - 1])
              && forall k :: 0 <= k < |n| ==> NameChar(n[k])
    {
      var c :| c in captures && Trim(c) != "" && Trim(c) == n;
      TrimKeepsNameChars(c);
    }
  }

  /** One step of the `exec` loop: the next capture, if trimmed non-empty, joins the names. */
  lemma {:induction false} CapturesStep(s: string, from: nat, l: Link)
    requires from <= |s| && FindLink(s, from) == Some(l)
    ensures var t := Trim(s[l.nameStart..l.nameEnd]);
            NameSet(Captures(s, from)) == (if t != "" then {t} else {}) + NameSet(Captures(s, l.end))
  {
    NameSetCons(s[l.nameStart..l.nameEnd], Captures(s, l.end));
  }

  lemma {:induction false} NameSetCons(c: string, rest: seq<string>)
    ensures NameSet([c] + rest) == (if Trim(c) != "" then {Trim(c)} else {}) + NameSet(rest)
  {
    forall n | n in NameSet([c] + rest)
      ensures n in (if Trim(c) != "" then {Trim(c)} else {}) + NameSet(rest)
    {
      var d :| d in [c] + rest && Trim(d) != "" && Trim(d) == n;
      if d != c {
        assert d in rest;
      }
    }
  }

  // ---------------------------------------------------------------------------------------
  // Sorting: `Array.prototype.sort` without a comparator orders strings by their characters.
  // ---------------------------------------------------------------------------------------

  /** `a` sorts before `b`: a proper prefix of `b`, or smaller at the first difference. */
  predicate Less(a: string, b: string)
    decreases |a|
  {
    |b| > 0 && (|a| == 0 || a[0] < b[0] || (a[0] == b[0] && Less(a[1..], b[1..])))
  }

  lemma {:induction false} LessIrreflexive(a: string)
    ensures !Less(a, a)
    decreases |a|
  {
    if |a| > 0 {
      LessIrreflexive(a[1..]);
    }
  }

  lemma {:induction false} LessTransitive(a: string, b: string, c: string)
    requires Less(a, b) && Less(b, c)
    ensures Less(a, c)
    decreases |a|
  {
    if |a| > 0 && a[0] == b[0] == c[0] {
      LessTransitive(a[1..], b[1..], c[1..]);
    }
  }

  lemma {:induction false} LessTotal(a: string, b: string)
    ensures a == b || Less(a, b) || Less(b, a)
    decreases |a|
  {
    if |a| > 0 && |b| > 0 && a[0] == b[0] {
      LessTotal(a[1..], b[1..]);
      if a[1..] == b[1..] {
        assert a == [a[0]] + a[1..] && b == [b[0]] + b[1..];
      }
    }
  }

  predicate StrictlySorted(s: seq<string>) {
    forall i, j :: 0 <= i < j < |s| ==> Less(s[i], s[j])
  }

  /** `x` put into its place in `s`, unless it is there already. */
  function Insert(s: seq<string>, x: string): (r: seq<string>)
    ensures Elems(r) == Elems(s) + {x}
    decreases |s|
  {
    if |s| == 0 then [x]
    else if x == s[0] then s
    else if Less(x, s[0]) then [x] + s
    else
      var rest := Insert(s[1..], x);
      assert Elems(s) == {s[0]} + Elems(s[1..]) by {
        assert s == [s[0]] + s[1..];
      }
      assert Elems([s[0]] + rest) == {s[0]} + Elems(rest);
      [s[0]] + rest
  }

  /** Inserting into a strictly sorted list keeps it strictly sorted. */
  lemma {:induction false} InsertSorted(s: seq<string>, x: string)
    requires StrictlySorted(s)
    ensures StrictlySorted(Insert(s, x))
    decreases |s|
  {
    if |s| > 0 && x != s[0] {
      if Less(x, s[0]) {
        forall j | 0 < j < |s| ensures Less(x, s[j]) {
          LessTransitive(x, s[0], s[j]);
        }
      } else {
        LessTotal(x, s[0]);
        InsertSorted(s[1..], x);
        var rest := Insert(s[1..], x);
        forall j | 0 <= j < |rest| ensures Less(s[0], rest[j]) {
          assert rest[j] in Elems(rest);
          if rest[j] != x {
            var k :| 0 <= k < |s[1..]| && s[1..][k] == rest[j];
          }
        }
      }
    }
  }

  /** Inserting into a strictly sorted list lengthens it by one exactly when `x` is new. */
  lemma {:induction false} InsertLength(s: seq<string>, x: string)
    requires StrictlySorted(s)
    ensures |Insert(s, x)| == if x in s then |s| else |s| + 1
    decreases |s|
  {
    if |s| > 0 && x != s[0] {
      if Less(x, s[0]) {
        forall j | 0 < j < |s| ensures x != s[j] {
          if x == s[j] {
            LessIrreflexive(x);
            LessTransitive(x, s[0], s[j]);
          }
        }
      } else {
        InsertLength(s[1..], x);
        assert x in s <==> x in s[1..];
      }
    }
  }

  /** The names in character order, each once. */
  function SortNames(names: seq<string>): (r: seq<string>)
    ensures Elems(r) == Elems(names)
  {
    if |names| == 0 then []
    else
      var n := |names| - 1;
      assert Elems(names) == Elems(names[..n]) + {names[n]} by {
        assert names == names[..n] + [names[n]];
      }
      Insert(SortNames(names[..n]), names[n])
  }

  predicate Distinct(s: seq<string>) {
    forall i, j :: 0 <= i < j < |s| ==> s[i] != s[j]
  }

  /** Sorting gives a strictly sorted list. */
  lemma {:induction false} SortNamesSorted(names: seq<string>)
    ensures StrictlySorted(SortNames(names))
    decreases |names|
  {
    if |names| > 0 {
      var n := |names| - 1;
      SortNamesSorted(names[..n]);
      InsertSorted(SortNames(names[..n]), names[n]);
    }
  }

  /** Sorting a list of distinct names keeps its length. */
  lemma {:induction false} SortNamesLength(names: seq<string>)
    requires Distinct(names)
    ensures |SortNames(names)| == |names|
    decreases |names|
  {
    if |names| > 0 {
      var n := |names| - 1;
      assert Distinct(names[..n]);
      SortNamesLength(names[..n]);
      SortNamesSorted(names[..n]);
      InsertLength(SortNames(names[..n]), names[n]);
      assert names[n] !in Elems(names[..n]);
    }
  }

  /** A strictly sorted list holds no name twice. */
  lemma {:induction false} SortedDistinct(s: seq<string>)
    requires StrictlySorted(s)
    ensures Distinct(s)
  {
    forall i, j | 0 <= i < j < |s| ensures s[i] != s[j] {
      if s[i] == s[j] {
        LessIrreflexive(s[i]);
      }
    }
  }

  /** `set.add(t)` for a non-empty name `t`, on a list that holds each name once. */
  lemma {:induction false} AddName(found: seq<string>, t: string, rest: set<string>, all: set<string>)
    requires Distinct(found) && Elems(found) + ((if t != "" then {t} else {}) + rest) == all
    ensures var added := if t != "" && t !in found then found + [t] else found;
            Distinct(added) && Elems(added) + rest == all
  {
    if t != "" && t !in found {
      assert Elems(found + [t]) == Elems(found) + {t};
    }
  }

  /** `extractUsernames(wikitext)`: runs the pattern over the page, collects every trimmed
      non-empty name once, and returns them sorted. */
  method ExtractUsernames(wikitext: string) returns (usernames: seq<string>)
    ensures StrictlySorted(usernames)
    ensures Elems(usernames) == NameSet(Captures(wikitext, 0))
    ensures forall n :: n in usernames ==>
              && n != "" && !IsSpace(n[0]) && !IsSpace(n[|n| - 1])
              && forall k :: 0 <= k < |n| ==> NameChar(n[k])
  {
    var found: seq<string> := [];
    var pos := 0;
    while true
      invariant pos <= |wikitext|
      invariant Distinct(found)
      invariant Elems(found) + NameSet(Captures(wikitext, pos)) == NameSet(Captures(wikitext, 0))
      decreases |wikitext| - pos
    {
      var m := FindLink(wikitext, pos);
      if m.None? {
        break;
      }
      var link := m.value;
      var username := Trim(wikitext[link.nameStart..link.nameEnd]);
      CapturesStep(wikitext, pos, link);
      AddName(found, username, NameSet(Captures(wikitext, link.end)), NameSet(Captures(wikitext, 0)));
      if username != "" && username !in found {
        found := found + [username];
      }
      pos := link.end;
    }
    assert Captures(wikitext, pos) == [];
    usernames := SortNames(found);
    SortedNames(wikitext, found);
  }

  /** Sorting the names collected from a page. */
  lemma {:induction false} SortedNames(s: string, found: seq<string>)
    requires Elems(found) == NameSet(Captures(s, 0))
    ensures var r := SortNames(found);
            && StrictlySorted(r)
            && Elems(r) == NameSet(Captures(s, 0))
            && forall n :: n in r ==>
                 && n != "" && !IsSpace(n[0]) && !IsSpace(n[|n| - 1])
                 && forall k :: 0 <= k < |n| ==> NameChar(n[k])
  {
    SortNamesSorted(found);
    NameSetClean(s, 0);
    var r := SortNames(found);
    forall n | n in r ensures n in NameSet(Captures(s, 0)) {
      assert n in Elems(r);
    }
  }

  // ---------------------------------------------------------------------------------------
  // Query batches
  // ---------------------------------------------------------------------------------------

  /** The most names one user query takes. */
  const BatchSize := 50

  /** `list.slice(from, to)` for non-negative bounds, which it clamps to the length. */
  function Slice(list: seq<string>, from: nat, to: nat): (r: seq<string>)
    ensures from <= to <= |list| ==> r == list[from..to]
  {
    var hi := if to < |list| then to else |list|;
    var lo := if from < hi then from else hi;
    list[lo..hi]
  }

  /** The batches one after another. */
  function Concat(batches: seq<seq<string>>): seq<string> {
    if |batches| == 0 then [] else Concat(batches[..|batches| - 1]) + batches[|batches| - 1]
  }

  /** The batches of the user query: one batch of every name when there are at most fifty, and
      otherwise `Math.ceil(n / 50)` slices of fifty, the last one holding the remainder. Together
      they hold every name once, in order. */
  method ChunkUsernames(usernames: seq<string>) returns (userlist: seq<seq<string>>)
    ensures Concat(userlist) == usernames
    ensures |userlist| == if |usernames| <= BatchSize then 1 else (|usernames| + BatchSize - 1) / BatchSize
    ensures forall i :: 0 <= i < |userlist| ==> |userlist[i]| <= BatchSize
    ensures forall i :: 0 <= i < |userlist| - 1 ==> |userlist[i]| == BatchSize
    ensures |usernames| > 0 ==> forall i :: 0 <= i < |userlist| ==> |userlist[i]| > 0
  {
    var n := |usernames|;
    if n > BatchSize {
      var count := (n + BatchSize - 1) / BatchSize;
      assert (count - 1) * BatchSize < n <= count * BatchSize;
      userlist := [];
      var i := 0;
      while i < count
        invariant 0 <= i <= count
        invariant |userlist| == i
        invariant Concat(userlist) == usernames[..if i < count then i * BatchSize else n]
        invariant forall k :: 0 <= k < i ==> 0 < |userlist[k]| <= BatchSize
        invariant forall k :: 0 <= k < i && k < count - 1 ==> |userlist[k]| == BatchSize
      {
        var batch := Slice(usernames, i * BatchSize, (i + 1) * BatchSize);
        if i < count - 1 {
          assert batch == usernames[i * BatchSize..(i + 1) * BatchSize];
        } else {
          assert batch == usernames[i * BatchSize..n];
        }
        userlist := userlist + [batch];
        i := i + 1;
      }
    } else {
      userlist := [usernames];
      assert Concat(userlist) == Concat([]) + usernames;
    }
  }
}
