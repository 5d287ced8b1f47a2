/** Team-size vectors, the `sizes` array of the draft loop: the minimum and
    maximum size, the first position of the minimum, the bucket of positions
    at the minimum, and how one pick at the minimum moves these. */
module Sizes {

  /** The first position holding the smallest size: no entry is smaller,
      every earlier entry is larger. */
  function FirstMinOf(xs: seq<nat>): (i: nat)
    requires |xs| > 0
    ensures i < |xs|
    ensures forall j :: 0 <= j < |xs| ==> xs[i] <= xs[j]
    ensures forall j :: 0 <= j < i ==> xs[j] > xs[i]
  {
    if |xs| == 1 then 0
    else
      var k := 1 + FirstMinOf(xs[1..]);
      assert forall j :: 1 <= j < |xs| ==> xs[j] == xs[1..][j - 1];
      if xs[0] <= xs[k] then 0 else k
  }

  /** A position holding the largest size. */
  function ArgMax(xs: seq<nat>): (i: nat)
    requires |xs| > 0
    ensures i < |xs|
    ensures forall j :: 0 <= j < |xs| ==> xs[j] <= xs[i]
  {
    if |xs| == 1 then 0
    else
      var k := 1 + ArgMax(xs[1..]);
      assert forall j :: 1 <= j < |xs| ==> xs[j] == xs[1..][j - 1];
      if xs[0] >= xs[k] then 0 else k
  }

  /** `Math.min.apply(null, sizes)` on a non-empty vector. */
  function MinOf(xs: seq<nat>): (m: nat)
    requires |xs| > 0
    ensures forall i :: 0 <= i < |xs| ==> m <= xs[i]
  {
    xs[FirstMinOf(xs)]
  }

  /** The largest size of a non-empty vector. */
  function MaxOf(xs: seq<nat>): (m: nat)
    requires |xs| > 0
    ensures forall i :: 0 <= i < |xs| ==> xs[i] <= m
  {
    xs[ArgMax(xs)]
  }

  /** One more pick for slot `t`. */
  function Bump(xs: seq<nat>, t: nat): (r: seq<nat>)
    requires t < |xs|
    ensures |r| == |xs|
  {
    xs[t := xs[t] + 1]
  }

  lemma MinIs(xs: seq<nat>, v: nat, w: nat)
    requires w < |xs| && xs[w] == v
    requires forall i :: 0 <= i < |xs| ==> v <= xs[i]
    ensures MinOf(xs) == v
  {
  }

  lemma MaxIs(xs: seq<nat>, v: nat, w: nat)
    requires w < |xs| && xs[w] == v
    requires forall i :: 0 <= i < |xs| ==> xs[i] <= v
    ensures MaxOf(xs) == v
  {
  }

  /** A pick at a minimum slot: the minimum does not fall and rises by at
      most one. */
  lemma BumpMin(xs: seq<nat>, t: nat)
    requires t < |xs| && xs[t] == MinOf(xs)
    ensures MinOf(xs) <= MinOf(Bump(xs, t)) <= MinOf(xs) + 1
  {
    var r := Bump(xs, t);
    assert r[t] == MinOf(xs) + 1;
  }

  /** A pick at a minimum slot: the maximum stays, unless all sizes were
      equal, in which case it rises by one. */
  lemma BumpMax(xs: seq<nat>, t: nat)
    requires t < |xs| && xs[t] == MinOf(xs)
    ensures MaxOf(Bump(xs, t)) == if MaxOf(xs) > MinOf(xs) then MaxOf(xs) else MinOf(xs) + 1
  {
    var r := Bump(xs, t);
    var m, big := MinOf(xs), MaxOf(xs);
    if big > m {
      MaxIs(r, big, ArgMax(xs));
    } else {
      MaxIs(r, m + 1, t);
    }
  }

  /** The positions below `n` holding `m`, ascending: the draft loop's
      `order.filter(t => size(t) === minSize)`, as positions in the order. */
  function Bucket(xs: seq<nat>, m: nat, n: nat): (b: seq<nat>)
    requires n <= |xs|
    ensures forall k :: k in b <==> 0 <= k < n && xs[k] == m
    ensures forall x, y :: 0 <= x < y < |b| ==> b[x] < b[y]
    ensures forall x :: 0 <= x < |b| ==> b[x] < n
  {
    if n == 0 then []
    else Bucket(xs, m, n - 1) + (if xs[n - 1] == m then [n - 1] else [])
  }

  /** The bucket of the minimum is never empty. */
  lemma BucketNonEmpty(xs: seq<nat>)
    requires |xs| > 0
    ensures |Bucket(xs, MinOf(xs), |xs|)| > 0
  {
    assert FirstMinOf(xs) in Bucket(xs, MinOf(xs), |xs|);
  }

  /** The sizes while a bucket is being served: the first `i` bucket members
      have picked once more, every other slot is as it was at the start. */
  predicate Served(start: seq<nat>, cur: seq<nat>, bucket: seq<nat>, i: nat) {
    && |cur| == |start| > 0
    && bucket == Bucket(start, MinOf(start), |start|)
    && (forall t :: 0 <= t < |cur| && start[t] != MinOf(start) ==> cur[t] == start[t])
    && (forall x :: 0 <= x < |bucket| ==> cur[bucket[x]] == MinOf(start) + (if x < i then 1 else 0))
  }

  lemma ServedStart(start: seq<nat>)
    requires |start| > 0
    ensures Served(start, start, Bucket(start, MinOf(start), |start|), 0)
  {
    var bucket := Bucket(start, MinOf(start), |start|);
    forall x | 0 <= x < |bucket|
      ensures start[bucket[x]] == MinOf(start)
    {
      assert bucket[x] in bucket;
    }
  }

  /** Inside a bucket, the next bucket member is the first position of the
      minimum of the current sizes, and that minimum has not moved. */
  lemma BucketHeadIsFirstMin(start: seq<nat>, cur: seq<nat>, bucket: seq<nat>, i: nat)
    requires i < |bucket| && Served(start, cur, bucket, i)
    ensures MinOf(cur) == MinOf(start)
    ensures FirstMinOf(cur) == bucket[i]
  {
    var m := MinOf(start);
    var t := bucket[i];
    assert cur[t] == m;
    forall j | 0 <= j < |cur|
      ensures cur[j] >= m
      ensures j < t ==> cur[j] > m
    {
      if start[j] == m {
        assert j in bucket;
        var x :| 0 <= x < |bucket| && bucket[x] == j;
        assert j < t ==> x < i;
      }
    }
    MinIs(cur, m, t);
  }

  /** Serving the next bucket member keeps the sizes in the served shape. */
  lemma ServedNext(start: seq<nat>, cur: seq<nat>, bucket: seq<nat>, i: nat)
    requires i < |bucket| && Served(start, cur, bucket, i)
    ensures Served(start, Bump(cur, bucket[i]), bucket, i + 1)
  {
    var next := Bump(cur, bucket[i]);
    var m := MinOf(start);
    assert bucket[i] in bucket;
    forall t | 0 <= t < |next| && start[t] != m
      ensures next[t] == start[t]
    {
      assert t != bucket[i];
    }
    forall x | 0 <= x < |bucket|
      ensures next[bucket[x]] == m + (if x < i + 1 then 1 else 0)
    {
      if x != i {
        assert bucket[x] != bucket[i];
      }
    }
  }
}
