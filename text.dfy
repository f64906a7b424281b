/** Text primitives the ledger code uses from JavaScript's String API:
    `indexOf`, `startsWith`, `trim`, `split`, `join`, literal global replacement,
    and the decimal reading done by `parseFloat`. Strings are sequences of
    Unicode scalar values. */
module Text {

  datatype Option<T> = None | Some(value: T)

  /** JavaScript's WhiteSpace and LineTerminator characters: what `trim()` removes and `\s` matches. */
  predicate IsSpace(c: char) {
    || c == ' ' || c == '\t' || c == '\n' || c == '\U{B}' || c == '\U{C}' || c == '\r'
    || c == '\U{A0}' || c == '\U{1680}' || ('\U{2000}' <= c <= '\U{200A}')
    || c == '\U{2028}' || c == '\U{2029}' || c == '\U{202F}' || c == '\U{205F}'
    || c == '\U{3000}' || c == '\U{FEFF}'
  }

  /** The characters a regular-expression `.` does not match. */
  predicate IsLineTerminator(c: char) {
    c == '\n' || c == '\r' || c == '\U{2028}' || c == '\U{2029}'
  }

  predicate IsDigit(c: char) { '0' <= c <= '9' }

  /** The class `[\d.]`. */
  predicate IsDigitOrDot(c: char) { IsDigit(c) || c == '.' }

  predicate AllDigits(s: string) { forall i :: 0 <= i < |s| ==> IsDigit(s[i]) }

  predicate AllDigitsOrDots(s: string) { forall i :: 0 <= i < |s| ==> IsDigitOrDot(s[i]) }

  /** `pat` occurs in `s` starting at index `i`. */
  predicate OccursAt(s: string, pat: string, i: nat) {
    i + |pat| <= |s| && s[i..i + |pat|] == pat
  }

  /** `s` contains `pat` nowhere. */
  predicate Absent(s: string, pat: string) {
    forall i :: 0 <= i <= |s| ==> !OccursAt(s, pat, i)
  }

  predicate StartsWith(s: string, pat: string) { OccursAt(s, pat, 0) }

  predicate EndsWith(s: string, pat: string) {
    |pat| <= |s| && s[|s| - |pat|..] == pat
  }

  /** `s.indexOf(pat, from)`: the least index at or after `from` where `pat` occurs, or -1. */
  function IndexOf(s: string, pat: string, from: nat): (r: int)
    requires from <= |s|
    ensures r == -1 || (from <= r <= |s| && OccursAt(s, pat, r))
    ensures forall i: nat :: from <= i && (r < 0 || i < r) ==> !OccursAt(s, pat, i)
    decreases |s| - from
  {
    if OccursAt(s, pat, from) then from
    else if from == |s| then -1
    else IndexOf(s, pat, from + 1)
  }

  /** The end of the longest run of `allowed` characters that starts at `i`. */
  function RunEnd(s: string, i: nat, allowed: char -> bool): (e: nat)
    requires i <= |s|
    ensures i <= e <= |s|
    ensures forall k :: i <= k < e ==> allowed(s[k])
    ensures e == |s| || !allowed(s[e])
    decreases |s| - i
  {
    if i < |s| && allowed(s[i]) then RunEnd(s, i + 1, allowed) else i
  }

  /** A run that ends where the characters stop being allowed is the one `RunEnd` finds. */
  lemma {:induction false} RunEndAt(s: string, i: nat, allowed: char -> bool, e: nat)
    requires i <= e <= |s|
    requires forall k :: i <= k < e ==> allowed(s[k])
    requires e == |s| || !allowed(s[e])
    ensures RunEnd(s, i, allowed) == e
    decreases e - i
  {
    if i < e {
      RunEndAt(s, i + 1, allowed, e);
    }
  }

  /** A slice is the concatenation of the slices between its cut points. */
  lemma {:induction false} SliceParts(s: string, a: nat, b: nat, c: nat, d: nat, e: nat)
    requires a <= b <= c <= d <= e <= |s|
    ensures s[a..e] == s[a..b] + s[b..c] + s[c..d] + s[d..e]
  {
    assert s[a..e] == s[a..b] + s[b..e];
    assert s[b..e] == s[b..c] + s[c..e];
    assert s[c..e] == s[c..d] + s[d..e];
  }

  /** A slice that starts with `open` and has `close` at `d` is `open`, the text up to `d`, `close`
      and the rest. */
  lemma {:induction false} BracketedSlice(s: string, open: string, close: string, a: nat, c: nat, d: nat, f: nat)
    requires a + |open| <= c <= d && d + |close| <= f <= |s|
    requires OccursAt(s, open, a) && OccursAt(s, close, d)
    ensures s[a..f] == open + s[a + |open|..c] + s[c..d] + close + s[d + |close|..f]
  {
    SliceParts(s, a, a + |open|, c, d, f);
    assert s[d..f] == s[d..d + |close|] + s[d + |close|..f];
  }

  /** Every character of the middle part sits at its offset after the first part. */
  lemma {:induction false} MiddleChars(p: string, s: string, q: string)
    ensures forall k :: |p| <= k < |p| + |s| ==> (p + s + q)[k] == s[k - |p|]
  {
  }

  /** A text placed after `p` occurs at offset `|p|`. */
  lemma {:induction false} OccursAfter(p: string, pat: string, rest: string)
    ensures OccursAt(p + pat + rest, pat, |p|)
  {
    MiddleSlice(p, pat, rest);
  }

  lemma {:induction false} MiddleSlice(p: string, s: string, q: string)
    ensures (p + s + q)[|p|..|p| + |s|] == s
  {
  }

  /** `s.trimStart()`. */
  function TrimStart(s: string): (r: string)
    ensures |r| <= |s|
    ensures r == [] || !IsSpace(r[0])
    decreases |s|
  {
    if |s| > 0 && IsSpace(s[0]) then TrimStart(s[1..]) else s
  }

  /** `trimStart` removes exactly a leading run of whitespace. */
  lemma {:induction false} TrimStartDropsSpace(s: string)
    ensures TrimStart(s) == s[|s| - |TrimStart(s)|..]
    ensures forall k :: 0 <= k < |s| - |TrimStart(s)| ==> IsSpace(s[k])
    decreases |s|
  {
    if |s| > 0 && IsSpace(s[0]) {
      TrimStartDropsSpace(s[1..]);
      assert s[1..][|s| - 1 - |TrimStart(s)|..] == s[|s| - |TrimStart(s)|..];
      forall k | 0 < k < |s| - |TrimStart(s)| ensures IsSpace(s[k]) {
        assert s[1..][k - 1] == s[k];
      }
    }
  }

  /** `s.trimEnd()`. */
  function TrimEnd(s: string): (r: string)
    ensures |r| <= |s|
    ensures r == [] || !IsSpace(r[|r| - 1])
    decreases |s|
  {
    if |s| > 0 && IsSpace(s[|s| - 1]) then TrimEnd(s[..|s| - 1]) else s
  }

  /** `trimEnd` removes exactly a trailing run of whitespace. */
  lemma {:induction false} TrimEndDropsSpace(s: string)
    ensures TrimEnd(s) == s[..|TrimEnd(s)|]
    ensures forall k :: |TrimEnd(s)| <= k < |s| ==> IsSpace(s[k])
    decreases |s|
  {
    if |s| > 0 && IsSpace(s[|s| - 1]) {
      TrimEndDropsSpace(s[..|s| - 1]);
      assert s[..|s| - 1][..|TrimEnd(s)|] == s[..|TrimEnd(s)|];
      forall k | |TrimEnd(s)| <= k < |s| - 1 ensures IsSpace(s[k]) {
        assert s[..|s| - 1][k] == s[k];
      }
    }
  }

  /** `s.trim()`. */
  function Trim(s: string): (r: string)
    ensures |r| <= |s|
    ensures r == [] || (!IsSpace(r[0]) && !IsSpace(r[|r| - 1]))
  {
    TrimEndDropsSpace(TrimStart(s));
    TrimEnd(TrimStart(s))
  }

  /** A text that neither starts nor ends with white space is its own trim. */
  lemma {:induction false} TrimUnspaced(s: string)
    requires |s| > 0 && !IsSpace(s[0]) && !IsSpace(s[|s| - 1])
    ensures Trim(s) == s
  {
    assert TrimStart(s) == s;
  }

  /** `s.split(sep)` for a one-character separator. */
  function Split(s: string, sep: char): (parts: seq<string>)
    ensures |parts| >= 1
    ensures forall i :: 0 <= i < |parts| ==> sep !in parts[i]
    decreases |s|
  {
    if |s| == 0 then [""]
    else
      var rest := Split(s[1..], sep);
      if s[0] == sep then [""] + rest else [[s[0]] + rest[0]] + rest[1..]
  }

  /** A pattern of two or more characters whose first character occurs in the text only as its
      last character does not occur in the text. */
  lemma {:induction false} AbsentFirstOnlyLast(s: string, pat: string)
    requires |pat| >= 2 && |s| > 0 && pat[0] !in s[..|s| - 1]
    ensures Absent(s, pat)
  {
    forall i | 0 <= i <= |s| ensures !OccursAt(s, pat, i) {
      assert i + |pat| <= |s| ==> s[i..i + |pat|][0] == s[i] == s[..|s| - 1][i];
    }
  }

  /** A text without one of the pattern's characters does not contain the pattern. */
  lemma {:induction false} AbsentWithout(s: string, pat: string, k: nat)
    requires k < |pat| && pat[k] !in s
    ensures Absent(s, pat)
  {
    forall i | 0 <= i <= |s| ensures !OccursAt(s, pat, i) {
      assert i + |pat| <= |s| ==> s[i..i + |pat|][k] == s[i + k];
    }
  }

  /** `f` applied to every element of `s` and its index, as `s.map(f)` does. */
  function MapIndexed<T>(s: seq<string>, f: (string, nat) -> T): (r: seq<T>)
    ensures |r| == |s|
  {
    if |s| == 0 then [] else MapIndexed(s[..|s| - 1], f) + [f(s[|s| - 1], |s| - 1)]
  }

  lemma {:induction false} MapIndexedAt<T>(s: seq<string>, f: (string, nat) -> T, i: nat)
    requires i < |s|
    ensures MapIndexed(s, f)[i] == f(s[i], i)
  {
    var n := |s| - 1;
    if i < n {
      MapIndexedAt(s[..n], f, i);
      assert s[..n][i] == s[i];
    }
  }

  /** Two maps that agree on every element are equal. */
  lemma {:induction false} MapIndexedSame<T>(s: seq<string>, f: (string, nat) -> T, g: (string, nat) -> T)
    requires forall i :: 0 <= i < |s| ==> f(s[i], i) == g(s[i], i)
    ensures MapIndexed(s, f) == MapIndexed(s, g)
    decreases |s|
  {
    if |s| > 0 {
      var n := |s| - 1;
      forall i | 0 <= i < n ensures f(s[..n][i], i) == g(s[..n][i], i) {
        assert s[..n][i] == s[i];
      }
      MapIndexedSame(s[..n], f, g);
    }
  }

  /** A map that returns every element unchanged is the identity. */
  lemma {:induction false} MapIndexedIdentity(s: seq<string>, f: (string, nat) -> string)
    requires forall i :: 0 <= i < |s| ==> f(s[i], i) == s[i]
    ensures MapIndexed(s, f) == s
  {
    var r := MapIndexed(s, f);
    forall i | 0 <= i < |s| ensures r[i] == s[i] {
      MapIndexedAt(s, f, i);
    }
  }

  /** `parts.join(sep)`. */
  function Join(parts: seq<string>, sep: char): string
  {
    if |parts| == 0 then ""
    else if |parts| == 1 then parts[0]
    else parts[0] + [sep] + Join(parts[1..], sep)
  }

  lemma {:induction false} JoinCons(parts: seq<string>, sep: char)
    requires |parts| >= 2
    ensures Join(parts, sep) == parts[0] + [sep] + Join(parts[1..], sep)
  {
  }

  /** A join starts with its first piece. */
  lemma {:induction false} JoinHead(parts: seq<string>, sep: char)
    requires |parts| >= 1
    ensures |parts[0]| <= |Join(parts, sep)| && Join(parts, sep)[..|parts[0]|] == parts[0]
  {
    if |parts| >= 2 {
      assert Join(parts, sep) == parts[0] + ([sep] + Join(parts[1..], sep));
    }
  }

  /** Joining the pieces of a split gives back the text. */
  lemma {:induction false} JoinSplit(s: string, sep: char)
    ensures Join(Split(s, sep), sep) == s
    decreases |s|
  {
    if |s| > 0 {
      var rest := Split(s[1..], sep);
      JoinSplit(s[1..], sep);
      if s[0] == sep {
        assert Split(s, sep) == [""] + rest;
        JoinCons([""] + rest, sep);
        assert ([""] + rest)[1..] == rest;
        assert s == [s[0]] + s[1..];
      } else {
        assert Split(s, sep) == [[s[0]] + rest[0]] + rest[1..];
        if |rest| == 1 {
          assert Join(rest, sep) == rest[0];
        } else {
          JoinCons(rest, sep);
          JoinCons([[s[0]] + rest[0]] + rest[1..], sep);
          assert ([[s[0]] + rest[0]] + rest[1..])[1..] == rest[1..];
        }
        assert s == [s[0]] + s[1..];
      }
    }
  }

  /** Splitting a join of separator-free pieces gives back the pieces. */
  lemma {:induction false} SplitJoin(parts: seq<string>, sep: char)
    requires |parts| >= 1
    requires forall i :: 0 <= i < |parts| ==> sep !in parts[i]
    ensures Split(Join(parts, sep), sep) == parts
    decreases |parts|, |parts[0]|
  {
    if |parts[0]| > 0 {
      var p := parts[0];
      var parts' := [p[1..]] + parts[1..];
      SplitJoin(parts', sep);
      if |parts| == 1 {
        assert Join(parts, sep) == p;
        assert Join(parts', sep) == p[1..];
      } else {
        JoinCons(parts, sep);
        JoinCons(parts', sep);
        assert parts'[1..] == parts[1..];
        assert Join(parts', sep) == p[1..] + [sep] + Join(parts[1..], sep);
        assert Join(parts, sep)[1..] == Join(parts', sep);
      }
      assert Join(parts, sep)[0] == p[0];
      assert [p[0]] + p[1..] == p;
    } else if |parts| > 1 {
      SplitJoin(parts[1..], sep);
      JoinCons(parts, sep);
      assert Join(parts, sep) == [sep] + Join(parts[1..], sep);
      assert Join(parts, sep)[1..] == Join(parts[1..], sep);
      assert [""] + parts[1..] == parts;
    }
  }

  /** The first piece of a split is a prefix of the text. */
  lemma {:induction false} SplitHeadIsPrefix(s: string, sep: char)
    ensures |Split(s, sep)[0]| <= |s| && Split(s, sep)[0] == s[..|Split(s, sep)[0]|]
    decreases |s|
  {
    if |s| > 0 {
      SplitHeadIsPrefix(s[1..], sep);
    }
  }

  lemma {:induction false} AbsentInPrefix(s: string, n: nat, pat: string)
    requires n <= |s| && Absent(s, pat)
    ensures Absent(s[..n], pat)
  {
    forall i: nat ensures !OccursAt(s[..n], pat, i) {
      assert !OccursAt(s, pat, i);
      assert i + |pat| <= n ==> s[..n][i..i + |pat|] == s[i..i + |pat|];
    }
  }

  lemma {:induction false} AbsentInSuffix(s: string, n: nat, pat: string)
    requires n <= |s| && Absent(s, pat)
    ensures Absent(s[n..], pat)
  {
    forall i: nat ensures !OccursAt(s[n..], pat, i) {
      assert !OccursAt(s, pat, n + i);
      assert i + |pat| <= |s| - n ==> s[n..][i..i + |pat|] == s[n + i..n + i + |pat|];
    }
  }

  /** A pattern absent from the text is absent from every piece of its split. */
  lemma {:induction false} AbsentInSplit(s: string, sep: char, pat: string)
    requires Absent(s, pat)
    ensures forall i :: 0 <= i < |Split(s, sep)| ==> Absent(Split(s, sep)[i], pat)
    decreases |s|
  {
    if |s| > 0 {
      AbsentInSuffix(s, 1, pat);
      AbsentInSplit(s[1..], sep, pat);
      var rest := Split(s[1..], sep);
      if s[0] != sep {
        SplitHeadIsPrefix(s[1..], sep);
        assert [s[0]] + rest[0] == s[..1 + |rest[0]|];
        AbsentInPrefix(s, 1 + |rest[0]|, pat);
      } else {
        assert !OccursAt(s, pat, 0);
        assert Absent("", pat);
      }
    }
  }

  /** The first occurrence found in a prefix of the text is the first occurrence in the whole text. */
  lemma {:induction false} IndexOfInPrefix(s: string, t: string, pat: string, from: nat)
    requires from <= |t| <= |s| && s[..|t|] == t
    requires IndexOf(t, pat, from) >= 0
    ensures IndexOf(s, pat, from) == IndexOf(t, pat, from)
    decreases |t| - from
  {
    var r := IndexOf(t, pat, from);
    assert from + |pat| <= r + |pat| <= |t|;
    forall k | from <= k < from + |pat| ensures s[k] == t[k] {
      assert s[..|t|][k] == s[k];
    }
    assert s[from..from + |pat|] == t[from..from + |pat|];
    if !OccursAt(t, pat, from) {
      IndexOfInPrefix(s, t, pat, from + 1);
    }
  }

  /** The characters of an occurrence are those of the pattern. */
  lemma {:induction false} OccurrenceChars(s: string, pat: string, i: nat)
    ensures OccursAt(s, pat, i) ==> forall k :: 0 <= k < |pat| ==> s[i + k] == pat[k]
  {
    if OccursAt(s, pat, i) {
      forall k | 0 <= k < |pat| ensures s[i + k] == pat[k] {
        assert s[i + k] == s[i..i + |pat|][k];
      }
    }
  }

  /** Two texts that agree character by character at a fixed offset agree on slices there. */
  lemma {:induction false} ShiftedSlice(r: string, w: string, d: int, i: nat, j: nat)
    requires i <= j <= |r| && 0 <= i + d && j + d <= |w|
    requires forall k :: i <= k < j ==> r[k] == w[k + d]
    ensures r[i..j] == w[i + d..j + d]
  {
    assert forall k :: 0 <= k < j - i ==> r[i..j][k] == w[i + d..j + d][k];
  }

  /** An occurrence with none before it, from `from` on, is the one `indexOf` finds. */
  lemma {:induction false} IndexOfAt(s: string, pat: string, from: nat, r: nat)
    requires from <= r <= |s| && OccursAt(s, pat, r)
    requires forall i: nat :: from <= i < r ==> !OccursAt(s, pat, i)
    ensures IndexOf(s, pat, from) == r
    decreases r - from
  {
    if from < r {
      IndexOfAt(s, pat, from + 1, r);
    }
  }

  /** One character of an occurrence, at an index of the text. */
  lemma {:induction false} OccurrenceCharAt(s: string, pat: string, i: nat, j: nat)
    ensures OccursAt(s, pat, i) && i <= j < i + |pat| ==> s[j] == pat[j - i]
  {
    if OccursAt(s, pat, i) && i <= j < i + |pat| {
      assert s[j] == s[i..i + |pat|][j - i];
    }
  }

  /** An occurrence that lies inside a prefix two texts share is an occurrence in both. */
  lemma {:induction false} OccursInSharedPrefix(s: string, t: string, pat: string, n: nat, i: nat)
    requires n <= |s| && n <= |t| && s[..n] == t[..n] && i + |pat| <= n
    ensures OccursAt(s, pat, i) <==> OccursAt(t, pat, i)
  {
    assert s[i..i + |pat|] == s[..n][i..i + |pat|];
    assert t[i..i + |pat|] == t[..n][i..i + |pat|];
  }

  /** Two overlapping occurrences of a pattern make the overlap both a prefix and a suffix of
      it, so a `Borderless` pattern never overlaps itself. */
  lemma {:induction false} OverlapIsBorder(s: string, pat: string, i: nat, j: nat)
    requires i < j < i + |pat|
    ensures OccursAt(s, pat, i) && OccursAt(s, pat, j) ==> pat[..i + |pat| - j] == pat[j - i..]
  {
    if OccursAt(s, pat, i) && OccursAt(s, pat, j) {
      var k := i + |pat| - j;
      forall t | 0 <= t < k ensures pat[j - i..][t] == pat[..k][t] {
        OccurrenceCharAt(s, pat, i, j + t);
        OccurrenceCharAt(s, pat, j, j + t);
      }
    }
  }

  /** An occurrence inside a stretch of text is repeated in every copy of that stretch. */
  lemma {:induction false} OccursInCopy(s: string, pat: string, a: nat, b: nat, len: nat, off: nat)
    requires a + len <= |s| && b + len <= |s| && s[a..a + len] == s[b..b + len]
    requires off + |pat| <= len && OccursAt(s, pat, b + off)
    ensures OccursAt(s, pat, a + off)
  {
    forall k | 0 <= k < |pat| ensures s[a + off + k] == pat[k] {
      assert s[a + off + k] == s[a..a + len][off + k];
      assert s[b + off + k] == s[b..b + len][off + k] == s[b + off..b + off + |pat|][k];
    }
  }

  /** `indexOf` finds the same occurrence in any text that shares the prefix through it. */
  lemma {:induction false} IndexOfKept(s: string, t: string, pat: string, from: nat, n: nat)
    requires n <= |s| && n <= |t| && s[..n] == t[..n] && from <= n
    requires IndexOf(s, pat, from) >= 0 && IndexOf(s, pat, from) + |pat| <= n
    ensures IndexOf(t, pat, from) == IndexOf(s, pat, from)
  {
    var r := IndexOf(s, pat, from);
    OccursInSharedPrefix(s, t, pat, n, r);
    forall i: nat | from <= i < r ensures !OccursAt(t, pat, i) {
      OccursInSharedPrefix(s, t, pat, n, i);
    }
    IndexOfAt(t, pat, from, r);
  }

  /** The case folding of a case-insensitive regular expression without the `u` flag, as it acts on
      a pattern made of ASCII characters and letters without case: only A-Z and a-z are identified. */
  function FoldAscii(c: char): char {
    if 'A' <= c <= 'Z' then (c as int + 32) as char else c
  }

  function FoldAsciiString(s: string): (r: string)
    ensures |r| == |s|
  {
    if |s| == 0 then "" else [FoldAscii(s[0])] + FoldAsciiString(s[1..])
  }

  lemma {:induction false} FoldAsciiStringAt(s: string, k: nat)
    requires k < |s|
    ensures FoldAsciiString(s)[k] == FoldAscii(s[k])
    decreases k
  {
    if k > 0 {
      FoldAsciiStringAt(s[1..], k - 1);
    }
  }

  /** No proper prefix of `pat` is also a suffix of it, so an occurrence cannot straddle a text and a following copy of `pat`. */
  predicate Borderless(pat: string) {
    forall k :: 0 < k < |pat| ==> pat[..k] != pat[|pat| - k..]
  }

  /** Appending a borderless pattern to a text that lacks it: the first occurrence is the appended one. */
  lemma {:induction false} FirstOccurrenceAppended(x: string, pat: string)
    requires Absent(x, pat) && Borderless(pat)
    ensures IndexOf(x + pat, pat, 0) == |x|
  {
    var s := x + pat;
    assert s[|x|..] == pat;
    assert OccursAt(s, pat, |x|);
    forall i: nat | i < |x| ensures !OccursAt(s, pat, i) {
      if i + |pat| <= |x| {
        assert s[i..i + |pat|] == x[i..i + |pat|];
        assert !OccursAt(x, pat, i);
      } else {
        var k := i + |pat| - |x|;
        assert 0 < k < |pat|;
        assert s[|x|..i + |pat|] == pat[..k];
        assert s[i..i + |pat|][|pat| - k..] == s[|x|..i + |pat|];
        assert pat[..k] != pat[|pat| - k..];
      }
    }
  }

  /** Searching from inside a text is searching its suffix, shifted. */
  lemma {:induction false} IndexOfInSuffix(s: string, n: nat, pat: string, k: nat)
    requires n + k <= |s|
    ensures IndexOf(s, pat, n + k) == if IndexOf(s[n..], pat, k) < 0 then -1 else n + IndexOf(s[n..], pat, k)
    decreases |s| - n - k
  {
    var t := s[n..];
    if n + k + |pat| <= |s| {
      assert s[n + k..n + k + |pat|] == t[k..k + |pat|];
    }
    if !OccursAt(s, pat, n + k) && n + k < |s| {
      IndexOfInSuffix(s, n, pat, k + 1);
    }
  }

  /** A global regular-expression replacement of the literal `pat` by `rep` applies at `i`:
      `pat` occurs there and is not followed by a character of `notBefore` (a negative lookahead). */
  predicate ReplacesAt(s: string, pat: string, notBefore: set<char>, i: nat) {
    OccursAt(s, pat, i) && (i + |pat| == |s| || s[i + |pat|] !in notBefore)
  }

  /** Global replacement of the literal `pat` by `rep`, leftmost first and without overlap:
      `replaceAll(pat, rep)` when `notBefore` is empty, `replace(/pat(?!c)/g, rep)` otherwise. */
  function Replace(s: string, pat: string, rep: string, notBefore: set<char>): string
    requires |pat| > 0
    decreases |s|
  {
    if |s| == 0 then ""
    else if ReplacesAt(s, pat, notBefore, 0) then rep + Replace(s[|pat|..], pat, rep, notBefore)
    else [s[0]] + Replace(s[1..], pat, rep, notBefore)
  }

  /** Replacement leaves a text without a replaceable occurrence unchanged. */
  lemma {:induction false} ReplaceAbsent(s: string, pat: string, rep: string, notBefore: set<char>)
    requires |pat| > 0
    requires forall i: nat :: !ReplacesAt(s, pat, notBefore, i)
    ensures Replace(s, pat, rep, notBefore) == s
    decreases |s|
  {
    if |s| > 0 {
      assert !ReplacesAt(s, pat, notBefore, 0);
      forall i: nat ensures !ReplacesAt(s[1..], pat, notBefore, i) {
        if ReplacesAt(s[1..], pat, notBefore, i) {
          assert s[1..][i..i + |pat|] == s[i + 1..i + 1 + |pat|];
          assert ReplacesAt(s, pat, notBefore, i + 1);
        }
      }
      ReplaceAbsent(s[1..], pat, rep, notBefore);
      assert s == [s[0]] + s[1..];
    }
  }

  lemma {:induction false} AbsentNotReplaced(s: string, pat: string, notBefore: set<char>)
    requires Absent(s, pat)
    ensures forall i: nat :: !ReplacesAt(s, pat, notBefore, i)
  {
  }

  /** No occurrence of `pat` in `a + b` starts in `a` and ends in `b`. */
  predicate NoStraddle(a: string, b: string, pat: string) {
    forall i :: 0 <= i < |a| < i + |pat| ==> !OccursAt(a + b, pat, i)
  }

  lemma {:induction false} NoStraddleSuffix(a: string, b: string, pat: string, d: nat)
    requires d <= |a| && NoStraddle(a, b, pat)
    ensures NoStraddle(a[d..], b, pat)
  {
    var s := a + b;
    var a' := a[d..];
    assert s[d..] == a' + b;
    forall i | 0 <= i < |a'| < i + |pat| ensures !OccursAt(a' + b, pat, i) {
      var j: nat := i + d;
      assert j < |a| < j + |pat|;
      assert !OccursAt(a + b, pat, j);
      assert i + |pat| <= |a' + b| ==> s[j..j + |pat|] == (a' + b)[i..i + |pat|];
    }
  }

  lemma {:induction false} NoStraddleHead(a: string, b: string, pat: string, notBefore: set<char>)
    requires |a| > 0 && NoStraddle(a, b, pat) && (|b| == 0 || b[0] !in notBefore)
    ensures ReplacesAt(a + b, pat, notBefore, 0) <==> ReplacesAt(a, pat, notBefore, 0)
  {
    var s := a + b;
    if |pat| <= |a| {
      assert s[0..|pat|] == a[0..|pat|];
      assert |pat| < |a| ==> s[|pat|] == a[|pat|];
      assert |pat| == |a| && |b| > 0 ==> s[|pat|] == b[0];
    } else {
      assert !OccursAt(s, pat, 0);
    }
  }

  /** A replacement splits at a cut that no occurrence reaches across and where the text after
      the cut does not block an occurrence that ends at it: either side is replaced on its own. */
  lemma {:induction false} ReplaceSplit(a: string, b: string, pat: string, rep: string, notBefore: set<char>)
    requires |pat| > 0 && NoStraddle(a, b, pat) && (|b| == 0 || b[0] !in notBefore)
    ensures Replace(a + b, pat, rep, notBefore)
      == Replace(a, pat, rep, notBefore) + Replace(b, pat, rep, notBefore)
    decreases |a|
  {
    var s := a + b;
    if |a| == 0 {
      assert s == b;
    } else {
      NoStraddleHead(a, b, pat, notBefore);
      if ReplacesAt(a, pat, notBefore, 0) {
        assert s[|pat|..] == a[|pat|..] + b;
        NoStraddleSuffix(a, b, pat, |pat|);
        ReplaceSplit(a[|pat|..], b, pat, rep, notBefore);
      } else {
        assert s[1..] == a[1..] + b;
        NoStraddleSuffix(a, b, pat, 1);
        ReplaceSplit(a[1..], b, pat, rep, notBefore);
      }
    }
  }

  /** A character that the pattern does not hold, and that the pattern may precede, splits a
      replacement: no occurrence can reach across it, and an occurrence just before it is
      replaced as it would be at the end of the text, so either side is replaced on its own. */
  lemma {:induction false} ReplaceAcross(a: string, c: char, b: string, pat: string, rep: string, notBefore: set<char>)
    requires |pat| > 0 && c !in pat && c !in notBefore
    ensures Replace(a + [c] + b, pat, rep, notBefore)
      == Replace(a, pat, rep, notBefore) + [c] + Replace(b, pat, rep, notBefore)
  {
    var cb := [c] + b;
    assert a + [c] + b == a + cb;
    forall i | 0 <= i < |a| < i + |pat| ensures !OccursAt(a + cb, pat, i) {
      assert i + |pat| <= |a + cb| ==> (a + cb)[i..i + |pat|][|a| - i] == c;
    }
    ReplaceSplit(a, cb, pat, rep, notBefore);
    assert |pat| <= |cb| ==> cb[0..|pat|][0] == c;
    assert cb[1..] == b;
  }

  /** The first character of a replaced text: the replacement's when the pattern starts the text,
      and the text's own otherwise. */
  lemma {:induction false} ReplaceHead(s: string, pat: string, rep: string, notBefore: set<char>)
    requires |pat| > 0 && |rep| > 0 && |s| > 0
    ensures |Replace(s, pat, rep, notBefore)| > 0
    ensures Replace(s, pat, rep, notBefore)[0] == if ReplacesAt(s, pat, notBefore, 0) then rep[0] else s[0]
  {
  }

  function DigitChar(d: nat): char
    requires d < 10
  {
    ['0', '1', '2', '3', '4', '5', '6', '7', '8', '9'][d]
  }

  /** The value of a string of decimal digits. */
  function DigitsValue(s: string): nat
    requires AllDigits(s)
    decreases |s|
  {
    if |s| == 0 then 0 else DigitsValue(s[..|s| - 1]) * 10 + (s[|s| - 1] as int - '0' as int)
  }

  /** The decimal text of a whole number, as JavaScript prints it. */
  function NatToString(n: nat): (r: string)
    ensures |r| >= 1 && AllDigits(r)
    ensures |r| > 1 ==> r[0] != '0'
    decreases n
  {
    if n < 10 then [DigitChar(n)] else NatToString(n / 10) + [DigitChar(n % 10)]
  }

  /** Reading back the decimal text of a number gives the number. */
  lemma {:induction false} NatToStringValue(n: nat)
    ensures DigitsValue(NatToString(n)) == n
    decreases n
  {
    if n >= 10 {
      NatToStringValue(n / 10);
      var r := NatToString(n);
      assert r[..|r| - 1] == NatToString(n / 10);
    }
  }

  function Pow10(k: nat): (r: nat)
    ensures r >= 1
  {
    if k == 0 then 1 else 10 * Pow10(k - 1)
  }

  /** `parseFloat(s)` for a text made only of digits and dots (the class `[\d.]+`): the value of
      its longest decimal-literal prefix, or None where JavaScript gives NaN. */
  function ParseDecimal(s: string): (r: Option<real>)
    requires AllDigitsOrDots(s)
    ensures r.Some? <==> (|s| > 0 && IsDigit(s[0])) || (|s| > 1 && s[0] == '.' && IsDigit(s[1]))
    ensures r.Some? ==> r.value >= 0.0
    ensures AllDigits(s) && |s| > 0 ==> r == Some(DigitsValue(s) as real)
  {
    var intEnd := RunEnd(s, 0, IsDigit);
    var hasDot := intEnd < |s|;
    var fracEnd := if hasDot then RunEnd(s, intEnd + 1, IsDigit) else intEnd;
    if intEnd == 0 && fracEnd <= 1 then None
    else
      var whole := DigitsValue(s[..intEnd]) as real;
      if hasDot then
        var frac := s[intEnd + 1..fracEnd];
        Some(whole + (DigitsValue(frac) as real) / (Pow10(|frac|) as real))
      else
        assert s[..intEnd] == s;
        Some(whole)
  }

  /** `parseFloat` of a score with a fractional part: the whole digits, the dot and the fraction
      digits give their decimal value, whatever a further dot and what follows it say. */
  lemma {:induction false} ParseDecimalFraction(a: string, b: string, rest: string)
    requires AllDigits(a) && AllDigits(b) && |b| > 0
    requires AllDigitsOrDots(rest) && (rest == "" || rest[0] == '.')
    ensures AllDigitsOrDots(a + "." + b + rest)
    ensures ParseDecimal(a + "." + b + rest)
         == Some(DigitsValue(a) as real + (DigitsValue(b) as real) / (Pow10(|b|) as real))
  {
    var s := a + "." + b + rest;
    forall i | 0 <= i < |s| ensures IsDigitOrDot(s[i]) {
      if i < |a| {
        assert s[i] == a[i];
      } else if i == |a| {
        assert s[i] == '.';
      } else if i < |a| + 1 + |b| {
        assert s[i] == b[i - |a| - 1];
      } else {
        assert s[i] == rest[i - |a| - 1 - |b|];
      }
    }
    forall k | 0 <= k < |a| ensures IsDigit(s[k]) {
      assert s[k] == a[k];
    }
    RunEndAt(s, 0, IsDigit, |a|);
    forall k | |a| + 1 <= k < |a| + 1 + |b| ensures IsDigit(s[k]) {
      assert s[k] == b[k - |a| - 1];
    }
    if rest != "" {
      assert s[|a| + 1 + |b|] == rest[0];
    }
    RunEndAt(s, |a| + 1, IsDigit, |a| + 1 + |b|);
    assert s[..|a|] == a;
    assert s[|a| + 1..|a| + 1 + |b|] == b;
  }
}
