/** The fair-allocation scheduler: teams are ordered by size (stably), then
    the ranked pool is handed out one fighter at a time, only ever to a team
    whose current size is the smallest. */
module Allocation {
  import opened Fighters
  import opened Sizes
  import opened Seqs

  // ---------------------------------------------------------------------------
  // sortTeamsBySize

  predicate SizeSorted<T>(s: seq<Roster<T>>) {
    forall i, j :: 0 <= i < j < |s| ==> |s[i].members| <= |s[j].members|
  }

  /** The rosters of `s` with exactly `k` members, in order. */
  function OfSize<T>(s: seq<Roster<T>>, k: nat): seq<Roster<T>> {
    if |s| == 0 then [] else (if |s[0].members| == k then [s[0]] else []) + OfSize(s[1..], k)
  }

  lemma {:induction false} OfSizeAppend<T>(a: seq<Roster<T>>, b: seq<Roster<T>>, k: nat)
    ensures OfSize(a + b, k) == OfSize(a, k) + OfSize(b, k)
  {
    if |a| == 0 {
      assert a + b == b;
    } else {
      assert (a + b)[1..] == a[1..] + b;
      OfSizeAppend(a[1..], b, k);
    }
  }

  lemma {:induction false} OfSizeNone<T>(s: seq<Roster<T>>, k: nat)
    requires forall i :: 0 <= i < |s| ==> |s[i].members| > k
    ensures OfSize(s, k) == []
  {
    if |s| > 0 {
      OfSizeNone(s[1..], k);
    }
  }

  predicate AtLeast<T>(s: seq<Roster<T>>, k: nat) {
    forall i :: 0 <= i < |s| ==> |s[i].members| >= k
  }

  /** Inserts roster `t` after every roster of `s` that is not larger. */
  function InsertBySize<T>(s: seq<Roster<T>>, t: Roster<T>): (r: seq<Roster<T>>)
    requires SizeSorted(s)
    ensures multiset(r) == multiset(s) + multiset{t}
    ensures SizeSorted(r)
    decreases |s|, 0
  {
    if |s| == 0 then [t]
    else if |t.members| < |s[0].members| then
      SortedCons(t, s);
      [t] + s
    else
      var rest := InsertBySize(s[1..], t);
      InsertKeepsBound(s[1..], t, |s[0].members|);
      SortedCons(s[0], rest);
      assert s == [s[0]] + s[1..];
      [s[0]] + rest
  }

  /** A roster no larger than every roster of a sorted list goes in front. */
  lemma SortedCons<T>(x: Roster<T>, s: seq<Roster<T>>)
    requires SizeSorted(s)
    requires |s| > 0 ==> |x.members| <= |s[0].members|
    ensures SizeSorted([x] + s)
  {
    var r := [x] + s;
    forall i, j | 0 <= i < j < |r|
      ensures |r[i].members| <= |r[j].members|
    {
      if i > 0 {
        assert r[i] == s[i - 1] && r[j] == s[j - 1];
      } else {
        assert r[j] == s[j - 1];
      }
    }
  }

  lemma {:induction false} InsertKeepsBound<T>(s: seq<Roster<T>>, t: Roster<T>, k: nat)
    requires SizeSorted(s) && AtLeast(s, k) && |t.members| >= k
    ensures AtLeast(InsertBySize(s, t), k)
    decreases |s|, 1
  {
    if |s| > 0 && |t.members| >= |s[0].members| {
      InsertKeepsBound(s[1..], t, k);
    }
  }

  lemma OfSizeCons<T>(x: Roster<T>, s: seq<Roster<T>>, k: nat)
    ensures OfSize([x] + s, k) == (if |x.members| == k then [x] else []) + OfSize(s, k)
  {
    assert ([x] + s)[1..] == s;
  }

  /** Inserting keeps rosters of equal size in their order, `t` last. */
  lemma {:induction false} InsertBySizeStable<T>(s: seq<Roster<T>>, t: Roster<T>, k: nat)
    requires SizeSorted(s)
    ensures OfSize(InsertBySize(s, t), k) == OfSize(s, k) + (if |t.members| == k then [t] else [])
  {
    if |s| == 0 {
    } else if |t.members| < |s[0].members| {
      InsertInFront(s, t, k);
    } else {
      InsertBySizeStable(s[1..], t, k);
      InsertAfterHead(s, t, k);
    }
  }

  lemma InsertInFront<T>(s: seq<Roster<T>>, t: Roster<T>, k: nat)
    requires SizeSorted(s) && |s| > 0 && |t.members| < |s[0].members|
    ensures OfSize(InsertBySize(s, t), k) == OfSize(s, k) + (if |t.members| == k then [t] else [])
  {
    OfSizeCons(t, s, k);
    if |t.members| == k {
      OfSizeNone(s, k);
    } else {
      RightUnit(OfSize(s, k));
    }
  }

  lemma InsertAfterHead<T>(s: seq<Roster<T>>, t: Roster<T>, k: nat)
    requires SizeSorted(s) && |s| > 0 && |t.members| >= |s[0].members|
    requires OfSize(InsertBySize(s[1..], t), k) == OfSize(s[1..], k) + (if |t.members| == k then [t] else [])
    ensures OfSize(InsertBySize(s, t), k) == OfSize(s, k) + (if |t.members| == k then [t] else [])
  {
    var tail := if |t.members| == k then [t] else [];
    var head := if |s[0].members| == k then [s[0]] else [];
    OfSizeCons(s[0], InsertBySize(s[1..], t), k);
    assert OfSize(s, k) == head + OfSize(s[1..], k);
    Assoc(head, OfSize(s[1..], k), tail);
  }

  /** `sortTeamsBySize`: a permutation of the rosters, ascending by size. */
  function SortBySize<T>(s: seq<Roster<T>>): (r: seq<Roster<T>>)
    ensures multiset(r) == multiset(s)
    ensures SizeSorted(r)
  {
    if |s| == 0 then []
    else
      var pre, last := s[..|s| - 1], s[|s| - 1];
      assert s == pre + [last];
      InsertBySize(SortBySize(pre), last)
  }

  /** The sort is stable: rosters of equal size keep their relative order, as
      `Array.prototype.sort` guarantees. */
  lemma {:induction false} SortBySizeStable<T>(s: seq<Roster<T>>, k: nat)
    ensures OfSize(SortBySize(s), k) == OfSize(s, k)
  {
    if |s| > 0 {
      var pre, last := s[..|s| - 1], s[|s| - 1];
      var x := if |last.members| == k then [last] else [];
      assert s == pre + [last];
      SortBySizeStable(pre, k);
      InsertBySizeStable(SortBySize(pre), last, k);
      assert OfSize(SortBySize(s), k) == OfSize(pre, k) + x;
      OfSizeAppend(pre, [last], k);
      assert [last][1..] == [];
      assert OfSize([last], k) == x + [];
      assert x + [] == x;
    }
  }

  // ---------------------------------------------------------------------------
  // Draft slots and the reference allocation rule

  /** A team during a draft: its name, its members before the draft, and the
      fighters it picked so far, in pick order. */
  datatype Slot<T> = Slot(name: string, members: seq<T>, picks: seq<T>)

  function Size<T>(s: Slot<T>): nat {
    |s.members| + |s.picks|
  }

  /** The draft loop's `sizes`: members plus picks, slot by slot. */
  function SizesOf<T>(order: seq<Slot<T>>): (r: seq<nat>)
    ensures |r| == |order|
    ensures forall i :: 0 <= i < |order| ==> r[i] == Size(order[i])
  {
    seq(|order|, i requires 0 <= i < |order| => Size(order[i]))
  }

  /** The draft order built from rosters: every slot starts with no picks. */
  function Slots<T>(teams: seq<Roster<T>>): (r: seq<Slot<T>>)
    ensures |r| == |teams|
    ensures forall i :: 0 <= i < |teams| ==> r[i] == Slot(teams[i].name, teams[i].members, [])
  {
    seq(|teams|, i requires 0 <= i < |teams| => Slot(teams[i].name, teams[i].members, []))
  }

  /** The slot that receives the next pick: the first slot, in draft order,
      whose size is the minimum. */
  function FirstMin<T>(order: seq<Slot<T>>): (i: nat)
    requires |order| > 0
    ensures i < |order|
  {
    FirstMinOf(SizesOf(order))
  }

  /** Appends fighter `f` to the picks of slot `i`: that slot grows by one,
      no other slot changes size. */
  function Give<T>(order: seq<Slot<T>>, i: nat, f: T): (r: seq<Slot<T>>)
    requires i < |order|
    ensures |r| == |order|
    ensures SizesOf(r) == Bump(SizesOf(order), i)
  {
    var r := order[i := order[i].(picks := order[i].picks + [f])];
    assert forall j :: 0 <= j < |r| ==> SizesOf(r)[j] == Bump(SizesOf(order), i)[j];
    r
  }

  /** The reference allocation: each ranked fighter in turn goes to the first
      slot of minimum size. Names and pre-draft members never change. */
  function Allocate<T>(order: seq<Slot<T>>, ranked: seq<T>): (r: seq<Slot<T>>)
    requires |order| > 0
    ensures |r| == |order|
    ensures forall i :: 0 <= i < |order| ==> r[i].name == order[i].name && r[i].members == order[i].members
  {
    if |ranked| == 0 then order
    else
      var prev := Allocate(order, ranked[..|ranked| - 1]);
      Give(prev, FirstMin(prev), ranked[|ranked| - 1])
  }

  /** The slot that receives each pick: the first minimum slot of the
      allocation of the fighters before it. */
  function Targets<T>(order: seq<Slot<T>>, ranked: seq<T>): (t: seq<nat>)
    requires |order| > 0
    ensures |t| == |ranked|
    ensures forall k :: 0 <= k < |ranked| ==> t[k] < |order|
  {
    if |ranked| == 0 then []
    else
      var n := |ranked| - 1;
      Targets(order, ranked[..n]) + [FirstMin(Allocate(order, ranked[..n]))]
  }

  /** The fighters of `xs` whose target in `ts` is slot `i`, in order. */
  function PicksFor<T>(xs: seq<T>, ts: seq<nat>, i: nat): seq<T>
    requires |xs| == |ts|
  {
    if |xs| == 0 then []
    else PicksFor(xs[..|xs| - 1], ts[..|ts| - 1], i) + (if ts[|ts| - 1] == i then [xs[|xs| - 1]] else [])
  }

  /** The target of pick `k` is the first minimum slot after the first `k`
      picks. */
  lemma {:induction false} TargetsAt<T>(order: seq<Slot<T>>, ranked: seq<T>, k: nat)
    requires |order| > 0 && k < |ranked|
    ensures Targets(order, ranked)[k] == FirstMin(Allocate(order, ranked[..k]))
  {
    var n := |ranked| - 1;
    var part := Targets(order, ranked[..n]);
    var last := FirstMin(Allocate(order, ranked[..n]));
    SnocAt(part, last, k);
    if k < n {
      TargetsAt(order, ranked[..n], k);
      PrefixOfPrefix(ranked, n, k);
    }
  }

  /** Every pick goes to a slot whose size is the minimum at that moment, and
      every slot before it in the draft order is strictly larger. */
  lemma AllocateFair<T>(order: seq<Slot<T>>, ranked: seq<T>, k: nat)
    requires |order| > 0 && k < |ranked|
    ensures var s := SizesOf(Allocate(order, ranked[..k]));
            var t := Targets(order, ranked)[k];
            t < |s| && s[t] == MinOf(s) && forall j :: 0 <= j < t ==> s[j] > MinOf(s)
  {
    TargetsAt(order, ranked, k);
  }

  lemma TargetsPrefix<T>(order: seq<Slot<T>>, ranked: seq<T>)
    requires |order| > 0 && |ranked| > 0
    ensures Targets(order, ranked)[..|ranked| - 1] == Targets(order, ranked[..|ranked| - 1])
  {
    var n := |ranked| - 1;
    var part := Targets(order, ranked[..n]);
    assert (part + [FirstMin(Allocate(order, ranked[..n]))])[..n] == part;
  }

  /** Completeness in rank order: each slot's picks are its earlier picks
      followed by exactly the ranked fighters targeted at it, in rank order. */
  lemma {:induction false} AllocatePicks<T>(order: seq<Slot<T>>, ranked: seq<T>, i: nat)
    requires |order| > 0 && i < |order|
    ensures Allocate(order, ranked)[i].picks == order[i].picks + PicksFor(ranked, Targets(order, ranked), i)
  {
    if |ranked| > 0 {
      var n := |ranked| - 1;
      AllocatePicks(order, ranked[..n], i);
      TargetsPrefix(order, ranked);
    }
  }

  /** All picks, slot by slot. */
  function AllPicks<T>(order: seq<Slot<T>>): seq<T> {
    if |order| == 0 then [] else order[0].picks + AllPicks(order[1..])
  }

  lemma {:induction false} GiveAddsOne<T>(order: seq<Slot<T>>, i: nat, f: T)
    requires i < |order|
    ensures multiset(AllPicks(Give(order, i, f))) == multiset(AllPicks(order)) + multiset{f}
  {
    var r := Give(order, i, f);
    assert r == order[i := order[i].(picks := order[i].picks + [f])];
    if i == 0 {
      assert r[1..] == order[1..];
      PicksSplit(order[0].picks, [f], AllPicks(order[1..]));
    } else {
      GiveAddsOne(order[1..], i - 1, f);
      assert r[1..] == Give(order[1..], i - 1, f);
      assert r[0] == order[0];
    }
  }

  lemma PicksSplit<T>(a: seq<T>, b: seq<T>, c: seq<T>)
    ensures multiset(a + b + c) == multiset(a + c) + multiset(b)
  {
  }

  /** Every ranked fighter is picked exactly once: the picks grow by exactly
      the ranked fighters, so their number grows by the pool size. */
  lemma {:induction false} AllocateExactlyOnce<T>(order: seq<Slot<T>>, ranked: seq<T>)
    requires |order| > 0
    ensures multiset(AllPicks(Allocate(order, ranked))) == multiset(AllPicks(order)) + multiset(ranked)
    ensures |AllPicks(Allocate(order, ranked))| == |AllPicks(order)| + |ranked|
  {
    if |ranked| > 0 {
      AllocateExactlyOnce(order, ranked[..|ranked| - 1]);
      ExactlyOnceStep(order, ranked);
    }
    CardOfSum(AllPicks(Allocate(order, ranked)), AllPicks(order), ranked);
  }

  lemma ExactlyOnceStep<T>(order: seq<Slot<T>>, ranked: seq<T>)
    requires |order| > 0 && |ranked| > 0
    requires var prev := Allocate(order, ranked[..|ranked| - 1]);
             multiset(AllPicks(prev)) == multiset(AllPicks(order)) + multiset(ranked[..|ranked| - 1])
    ensures multiset(AllPicks(Allocate(order, ranked))) == multiset(AllPicks(order)) + multiset(ranked)
  {
    var n := |ranked| - 1;
    var prev := Allocate(order, ranked[..n]);
    GiveAddsOne(prev, FirstMin(prev), ranked[n]);
    SnocMultiset(ranked);
  }

  lemma CardOfSum<T>(s: seq<T>, t: seq<T>, u: seq<T>)
    requires multiset(s) == multiset(t) + multiset(u)
    ensures |s| == |t| + |u|
  {
    assert |multiset(s)| == |s|;
  }

  /** The difference between the largest and the smallest team. */
  function Spread(xs: seq<nat>): nat
    requires |xs| > 0
  {
    MaxOf(xs) - MinOf(xs)
  }

  /** One pick by the rule: the minimum size does not fall, and the spread
      does not grow beyond the larger of its old value and one. */
  lemma GiveAtMinimum<T>(order: seq<Slot<T>>, f: T)
    requires |order| > 0
    ensures var before, after := SizesOf(order), SizesOf(Give(order, FirstMin(order), f));
            && MinOf(before) <= MinOf(after)
            && Spread(after) <= (if Spread(before) > 1 then Spread(before) else 1)
  {
    var xs := SizesOf(order);
    BumpMin(xs, FirstMin(order));
    BumpMax(xs, FirstMin(order));
  }

  /** Splitting the ranked sequence splits the allocation. */
  lemma {:induction false} AllocateAppend<T>(order: seq<Slot<T>>, a: seq<T>, b: seq<T>)
    requires |order| > 0
    ensures Allocate(order, a + b) == Allocate(Allocate(order, a), b)
  {
    if |b| == 0 {
      assert a + b == a;
    } else {
      var n := |b| - 1;
      assert (a + b)[..|a + b| - 1] == a + b[..n];
      AllocateAppend(order, a, b[..n]);
    }
  }

  /** Over a whole run the minimum size never decreases, and the spread never
      grows beyond the larger of its initial value and one. */
  lemma {:induction false} AllocateMonotone<T>(order: seq<Slot<T>>, ranked: seq<T>)
    requires |order| > 0
    ensures MinOf(SizesOf(order)) <= MinOf(SizesOf(Allocate(order, ranked)))
    ensures var s, s' := SizesOf(order), SizesOf(Allocate(order, ranked));
            Spread(s') <= (if Spread(s) > 1 then Spread(s) else 1)
  {
    if |ranked| > 0 {
      var n := |ranked| - 1;
      AllocateMonotone(order, ranked[..n]);
      var prev := Allocate(order, ranked[..n]);
      GiveAtMinimum(prev, ranked[n]);
    }
  }

  /** Between any two moments of a run (after the fighters `a`, and after
      `a` followed by `b`) the minimum size does not decrease, and once the
      spread is at most one it stays at most one. */
  lemma AllocateStaysFair<T>(order: seq<Slot<T>>, a: seq<T>, b: seq<T>)
    requires |order| > 0
    ensures MinOf(SizesOf(Allocate(order, a))) <= MinOf(SizesOf(Allocate(order, a + b)))
    ensures Spread(SizesOf(Allocate(order, a))) <= 1 ==> Spread(SizesOf(Allocate(order, a + b))) <= 1
  {
    AllocateAppend(order, a, b);
    AllocateMonotone(Allocate(order, a), b);
  }

  /** Two teams: while the first is smaller (or level), it takes every pick,
      because ties go to the team earlier in the draft order. */
  lemma {:induction false} CatchUp<T>(order: seq<Slot<T>>, ranked: seq<T>)
    requires |order| == 2 && Size(order[0]) + |ranked| <= Size(order[1]) + 1
    ensures Allocate(order, ranked)[0].picks == order[0].picks + ranked
    ensures Allocate(order, ranked)[1] == order[1]
  {
    if |ranked| > 0 {
      CatchUp(order, ranked[..|ranked| - 1]);
      CatchUpStep(order, ranked);
    }
  }

  lemma CatchUpStep<T>(order: seq<Slot<T>>, ranked: seq<T>)
    requires |order| == 2 && |ranked| > 0 && Size(order[0]) + |ranked| <= Size(order[1]) + 1
    requires var prev := Allocate(order, ranked[..|ranked| - 1]);
             prev[0].picks == order[0].picks + ranked[..|ranked| - 1] && prev[1] == order[1]
    ensures Allocate(order, ranked)[0].picks == order[0].picks + ranked
    ensures Allocate(order, ranked)[1] == order[1]
  {
    var n := |ranked| - 1;
    var prev := Allocate(order, ranked[..n]);
    FirstOfTwo(prev);
    TakeNext(ranked, n);
    assert ranked[..n + 1] == ranked;
  }

  /** Of two slots, the first is the first minimum unless it is larger. */
  lemma FirstOfTwo<T>(order: seq<Slot<T>>)
    requires |order| == 2 && Size(order[0]) <= Size(order[1])
    ensures FirstMin(order) == 0
  {
    var xs := SizesOf(order);
    MinIs(xs, xs[0], 0);
  }

  /** Worked example: pre-draft sizes 0 and 3 and four ranked fighters. The
      first team is the unique minimum for three picks; then both have size 3
      and the first team, earlier in the order, takes the fourth fighter too. */
  lemma ExampleZeroThree<T>(m: seq<T>, a: T, b: T, c: T, d: T)
    requires |m| == 3
    ensures var order := [Slot("T0", [], []), Slot("T1", m, [])];
            var r := Allocate(order, [a, b, c, d]);
            r[0].picks == [a, b, c, d] && r[1].picks == []
  {
    CatchUp([Slot("T0", [], []), Slot("T1", m, [])], [a, b, c, d]);
  }

  // ---------------------------------------------------------------------------
  // The bucketed round robin of runDraft

  /** One more pick extends the allocation by one step of the rule. */
  lemma AllocateNext<T>(order: seq<Slot<T>>, ranked: seq<T>, idx: nat)
    requires |order| > 0 && idx < |ranked|
    ensures var prev := Allocate(order, ranked[..idx]);
            Allocate(order, ranked[..idx + 1]) == Give(prev, FirstMin(prev), ranked[idx])
  {
    PrefixOfPrefix(ranked, idx + 1, idx);
  }

  /** One step of the inner loop stays in step with the reference rule. */
  lemma BucketStep<T>(start: seq<Slot<T>>, rest: seq<T>, j: nat, cur: seq<Slot<T>>, bucket: seq<nat>)
    requires j < |rest| && j < |bucket|
    requires Served(SizesOf(start), SizesOf(cur), bucket, j)
    requires cur == Allocate(start, rest[..j])
    ensures Give(cur, bucket[j], rest[j]) == Allocate(start, rest[..j + 1])
    ensures Served(SizesOf(start), SizesOf(Give(cur, bucket[j], rest[j])), bucket, j + 1)
  {
    BucketHeadIsFirstMin(SizesOf(start), SizesOf(cur), bucket, j);
    AllocateNext(start, rest, j);
    ServedNext(SizesOf(start), SizesOf(cur), bucket, j);
  }

  /** One pass of `runDraft`'s outer loop: every slot of the current minimum
      size picks once, in draft order, until the fighters in `rest` run out.
      At least one fighter is handed out, each as the reference rule would. */
  method ServeBucket<T>(start: seq<Slot<T>>, rest: seq<T>) returns (cur: seq<Slot<T>>, n: nat)
    requires |start| > 0 && |rest| > 0
    ensures 0 < n <= |rest|
    ensures cur == Allocate(start, rest[..n])
  {
    var sizes := SizesOf(start);
    var minSize := MinOf(sizes);
    var bucket := Bucket(sizes, minSize, |sizes|);
    BucketNonEmpty(sizes);
    ServedStart(sizes);
    assert rest[..0] == [];
    cur := start;
    var i := 0;
    while i < |bucket| && i < |rest|
      invariant 0 <= i <= |bucket| && i <= |rest|
      invariant cur == Allocate(start, rest[..i])
      invariant Served(sizes, SizesOf(cur), bucket, i)
      decreases |bucket| - i
    {
      var t := bucket[i];
      BucketStep(start, rest, i, cur, bucket);
      cur := Give(cur, t, rest[i]);
      i := i + 1;
    }
    n := i;
  }

  /** Allocating a prefix and then the next `n` fighters is allocating the
      longer prefix. */
  lemma AllocateResume<T>(order: seq<Slot<T>>, ranked: seq<T>, idx: nat, n: nat, cur: seq<Slot<T>>)
    requires |order| > 0 && idx + n <= |ranked|
    requires cur == Allocate(order, ranked[..idx])
    ensures Allocate(cur, ranked[idx..][..n]) == Allocate(order, ranked[..idx + n])
  {
    PrefixSplit(ranked, idx, n);
    AllocateAppend(order, ranked[..idx], ranked[idx..][..n]);
  }

  /** `runDraft`'s loop as written: repeatedly take the minimum size and let
      every slot of that size pick once in draft order, until the ranked pool
      runs out. Its result is the reference allocation. */
  method DraftLoop<T>(order: seq<Slot<T>>, ranked: seq<T>) returns (cur: seq<Slot<T>>)
    requires |order| > 0
    ensures cur == Allocate(order, ranked)
  {
    cur := order;
    var idx := 0;
    assert ranked[..0] == [];
    while idx < |ranked|
      invariant 0 <= idx <= |ranked|
      invariant cur == Allocate(order, ranked[..idx])
      decreases |ranked| - idx
    {
      var next, n := ServeBucket(cur, ranked[idx..]);
      AllocateResume(order, ranked, idx, n, cur);
      cur, idx := next, idx + n;
    }
    assert ranked[..idx] == ranked;
  }

  /** `runDraft` after ranking: with no ranked fighters or no teams it
      returns the order untouched, otherwise it runs the draft loop. */
  method RunBuckets<T>(order: seq<Slot<T>>, ranked: seq<T>) returns (result: seq<Slot<T>>)
    ensures |order| == 0 ==> result == order
    ensures |order| > 0 ==> result == Allocate(order, ranked)
  {
    if |ranked| == 0 || |order| == 0 {
      return order;
    }
    result := DraftLoop(order, ranked);
  }
}
