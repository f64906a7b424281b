/** The edit-count statistics of the report: how many participants fall into each range of
    edit counts. */
module EditBuckets {
  import opened Text

  /** The range names, which are also the keys of the count table, in the order the ranges are
      tested. */
  const BucketNames: seq<string> := ["0-99", "100-499", "500-999", "1000-4999", "5000-9999", "10000+"]

  /** The lowest count of each range; every range but the last ends below the next one's lowest. */
  const Lowest: seq<int> := [0, 100, 500, 1000, 5000, 10000]

  /** The range an edit count is counted in, tested as the chain of `if`s does: a missing count
      (a user without `editcount`) and a negative count are counted nowhere. */
  function BucketOf(editCount: Option<int>): (b: Option<nat>)
    ensures b.Some? ==> b.value < |BucketNames|
  {
    match editCount
    case None => None
    case Some(c) =>
      if c >= 0 && c <= 99 then Some(0)
      else if c >= 100 && c <= 499 then Some(1)
      else if c >= 500 && c <= 999 then Some(2)
      else if c >= 1000 && c <= 4999 then Some(3)
      else if c >= 5000 && c <= 9999 then Some(4)
      else if c >= 10000 then Some(5)
      else None
  }

  /** Range `k` as its bounds: from its lowest count up to just below the next range's. */
  predicate InRange(c: int, k: nat) {
    k < |Lowest| && Lowest[k] <= c && (k == |Lowest| - 1 || c < Lowest[k + 1])
  }

  /** A count is in range `k` exactly when the chain of tests picks `k`; a negative count is in
      none, and every other count is in exactly one. */
  lemma {:induction false} BucketOfRanges(c: int)
    ensures forall k :: 0 <= k < |BucketNames| ==> (BucketOf(Some(c)) == Some(k) <==> InRange(c, k))
    ensures BucketOf(Some(c)).None? <==> c < 0
    ensures forall j: nat, k: nat :: InRange(c, j) && InRange(c, k) ==> j == k
  {
  }

  /** The range names are pairwise different keys. */
  lemma {:induction false} BucketNamesDistinct()
    ensures forall j, k :: 0 <= j < k < |BucketNames| ==> BucketNames[j] != BucketNames[k]
  {
    forall j, k | 0 <= j < k < |BucketNames| ensures BucketNames[j] != BucketNames[k] {
      if |BucketNames[j]| == |BucketNames[k]| {
        assert BucketNames[j][0] != BucketNames[k][0];
      }
    }
  }

  /** How many of `editCounts` fall into range `k`. */
  function CountIn(editCounts: seq<Option<int>>, k: nat): (n: nat)
    ensures n <= |editCounts|
  {
    if |editCounts| == 0 then 0
    else
      var last := editCounts[|editCounts| - 1];
      CountIn(editCounts[..|editCounts| - 1], k) + (if BucketOf(last) == Some(k) then 1 else 0)
  }

  /** How many of `editCounts` are present and non-negative. */
  function Counted(editCounts: seq<Option<int>>): (n: nat)
    ensures n <= |editCounts|
  {
    if |editCounts| == 0 then 0
    else
      var last := editCounts[|editCounts| - 1];
      Counted(editCounts[..|editCounts| - 1]) + (if last.Some? && last.value >= 0 then 1 else 0)
  }

  function SumCounts(editCounts: seq<Option<int>>, k: nat): nat
    decreases |BucketNames| - k
  {
    if k >= |BucketNames| then 0 else CountIn(editCounts, k) + SumCounts(editCounts, k + 1)
  }

  /** The ranges split the counted participants: their counts add up to the number of present,
      non-negative edit counts. */
  lemma {:induction false} BucketsPartition(editCounts: seq<Option<int>>)
    ensures SumCounts(editCounts, 0) == Counted(editCounts)
    decreases |editCounts|
  {
    if |editCounts| > 0 {
      var init := editCounts[..|editCounts| - 1];
      var last := editCounts[|editCounts| - 1];
      BucketsPartition(init);
      SumSnoc(init, last, 0);
      if last.Some? {
        BucketOfRanges(last.value);
      }
    }
  }

  /** Adding one count adds one to the sum of the ranges from `k` on when it falls into one of them. */
  lemma {:induction false} SumSnoc(init: seq<Option<int>>, last: Option<int>, k: nat)
    ensures SumCounts(init + [last], k)
         == SumCounts(init, k) + (if BucketOf(last).Some? && BucketOf(last).value >= k then 1 else 0)
    decreases |BucketNames| - k
  {
    var s := init + [last];
    assert s[..|s| - 1] == init;
    if k < |BucketNames| {
      SumSnoc(init, last, k + 1);
    }
  }

  /** The keys of the count table. */
  function Keys(): set<string> {
    set k | 0 <= k < |BucketNames| :: BucketNames[k]
  }

  /** The count table before the loop: every range at zero. */
  function ZeroTable(): (t: map<string, nat>)
    ensures t.Keys == Keys() && forall k :: 0 <= k < |BucketNames| ==> t[BucketNames[k]] == 0
  {
    map[BucketNames[0] := 0, BucketNames[1] := 0, BucketNames[2] := 0,
        BucketNames[3] := 0, BucketNames[4] := 0, BucketNames[5] := 0]
  }

  /** One pass of the loop: the range of the next count, if any, goes up by one. */
  lemma {:induction false} CountStep(buckets: map<string, nat>, editCounts: seq<Option<int>>, i: nat)
    requires i < |editCounts| && buckets.Keys == Keys()
    requires forall k :: 0 <= k < |BucketNames| ==> buckets[BucketNames[k]] == CountIn(editCounts[..i], k)
    ensures var b := BucketOf(editCounts[i]);
            var next := if b.Some? then buckets[BucketNames[b.value] := buckets[BucketNames[b.value]] + 1] else buckets;
            && next.Keys == Keys()
            && forall k :: 0 <= k < |BucketNames| ==> next[BucketNames[k]] == CountIn(editCounts[..i + 1], k)
  {
    BucketNamesDistinct();
    assert editCounts[..i + 1][..i] == editCounts[..i];
  }

  /** The count table after the loop over the users: each range name mapped to how many edit counts
      fall into that range, and no other keys. */
  method CountEditBuckets(editCounts: seq<Option<int>>) returns (buckets: map<string, nat>)
    ensures buckets.Keys == Keys()
    ensures forall k :: 0 <= k < |BucketNames| ==> buckets[BucketNames[k]] == CountIn(editCounts, k)
  {
    buckets := ZeroTable();
    var i := 0;
    while i < |editCounts|
      invariant 0 <= i <= |editCounts|
      invariant buckets.Keys == Keys()
      invariant forall k :: 0 <= k < |BucketNames| ==> buckets[BucketNames[k]] == CountIn(editCounts[..i], k)
    {
      CountStep(buckets, editCounts, i);
      var b := BucketOf(editCounts[i]);
      if b.Some? {
        var name := BucketNames[b.value];
        buckets := buckets[name := buckets[name] + 1];
      }
      i := i + 1;
    }
    assert editCounts[..i] == editCounts;
  }
}
