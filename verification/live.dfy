/** The live draft (`runDraftLive`) as a trace of the events it produces:
    the bucketed round robin of the batch draft, with a pick event and an
    optional pause after every pick. */
module Live {
  import opened Sizes
  import opened Seqs
  import opened Allocation

  /** What the live draft does, in order: the `onInit` call with the ranked
      pool and the initial order, one `onPick` call per pick (the running
      pick number, the slot and its team name, the fighter, and how many
      fighters remain), and a pause of `ms` milliseconds after a pick. */
  datatype Event<T> =
    | Init(ranked: seq<T>, order: seq<Slot<T>>)
    | Pick(pickNo: nat, slot: nat, team: string, fighter: T, remaining: nat)
    | Sleep(ms: real)

  /** The team name of slot `t`; the draft only asks for slots of the
      order, so the fallback for any other `t` is never used. */
  function NameOf<T>(order: seq<Slot<T>>, t: nat): string {
    if t < |order| then order[t].name else ""
  }

  /** The events of pick `k` (from 0): fighter `ranked[k]` goes to slot `t`,
      then a pause when the delay is positive. */
  function PickStep<T>(order: seq<Slot<T>>, ranked: seq<T>, t: nat, delay: real, k: nat): seq<Event<T>>
    requires k < |ranked|
  {
    [Pick(k + 1, t, NameOf(order, t), ranked[k], |ranked| - (k + 1))]
      + (if delay > 0.0 then [Sleep(delay)] else [])
  }

  /** The events of the first `|ts|` picks, when pick `j` goes to slot
      `ts[j]`. */
  function PickEvents<T>(order: seq<Slot<T>>, ranked: seq<T>, ts: seq<nat>, delay: real): seq<Event<T>>
    requires |ts| <= |ranked|
  {
    if |ts| == 0 then []
    else
      var n := |ts| - 1;
      PickEvents(order, ranked, ts[..n], delay) + PickStep(order, ranked, ts[n], delay, n)
  }

  /** The events of the whole live draft of `ranked`: every pick goes where
      the reference rule puts it. */
  function LiveEvents<T>(order: seq<Slot<T>>, ranked: seq<T>, delay: real): seq<Event<T>>
    requires |order| > 0
  {
    PickEvents(order, ranked, Targets(order, ranked), delay)
  }

  /** Where the events of pick `j` (from 0) start: each pick is one event,
      followed by a pause when the delay is positive. */
  function EventPos(delay: real, j: nat): nat {
    if delay > 0.0 then 2 * j else j
  }

  /** The shape of the pick events: pick `j` (from 0) sits at a fixed
      position and carries the pick number `j + 1`, its slot and team name,
      the `j`-th ranked fighter and the number of fighters after it; with a
      positive delay a pause of that length follows each pick, and nothing
      else is emitted. */
  lemma {:induction false} PickEventsAt<T>(order: seq<Slot<T>>, ranked: seq<T>, ts: seq<nat>, delay: real)
    requires |ts| <= |ranked|
    ensures |PickEvents(order, ranked, ts, delay)| == EventPos(delay, |ts|)
    ensures forall j :: 0 <= j < |ts| ==>
      && EventPos(delay, j) < |PickEvents(order, ranked, ts, delay)|
      && PickEvents(order, ranked, ts, delay)[EventPos(delay, j)]
         == Pick(j + 1, ts[j], NameOf(order, ts[j]), ranked[j], |ranked| - (j + 1))
    ensures delay > 0.0 ==> forall j :: 0 <= j < |ts| ==> PickEvents(order, ranked, ts, delay)[2 * j + 1] == Sleep(delay)
  {
    if |ts| > 0 {
      PickEventsAt(order, ranked, ts[..|ts| - 1], delay);
    }
  }

  /** Pick `j` (from 0) of a run over `ranked`: it sits at its position,
      carries the pick number `j + 1` and the `j`-th ranked fighter, and
      counts the fighters still to pick after it. */
  ghost predicate NumberedPick<T>(events: seq<Event<T>>, delay: real, ranked: seq<T>, j: nat)
    requires j < |ranked|
  {
    && EventPos(delay, j) < |events|
    && events[EventPos(delay, j)].Pick?
    && events[EventPos(delay, j)].pickNo == j + 1
    && events[EventPos(delay, j)].fighter == ranked[j]
    && events[EventPos(delay, j)].remaining + j + 1 == |ranked|
  }

  /** Pick `j` of the live events: its number, its fighter and the count
      of fighters still to come. */
  lemma LiveEventAt<T>(order: seq<Slot<T>>, ranked: seq<T>, delay: real, j: nat)
    requires |order| > 0 && j < |ranked|
    ensures NumberedPick(LiveEvents(order, ranked, delay), delay, ranked, j)
  {
    PickEventsAt(order, ranked, Targets(order, ranked), delay);
  }

  /** The fighters the pick events give to slot `i`, in order. */
  function TeamPicks<T>(events: seq<Event<T>>, i: nat): seq<T> {
    if |events| == 0 then []
    else
      var e := events[|events| - 1];
      TeamPicks(events[..|events| - 1], i) + (if e.Pick? && e.slot == i then [e.fighter] else [])
  }

  lemma {:induction false} TeamPicksAppend<T>(a: seq<Event<T>>, b: seq<Event<T>>, i: nat)
    ensures TeamPicks(a + b, i) == TeamPicks(a, i) + TeamPicks(b, i)
  {
    if |b| == 0 {
      assert a + b == a;
    } else {
      assert (a + b)[..|a + b| - 1] == a + b[..|b| - 1];
      TeamPicksAppend(a, b[..|b| - 1], i);
    }
  }

  lemma TeamPicksStep<T>(order: seq<Slot<T>>, ranked: seq<T>, t: nat, delay: real, k: nat, i: nat)
    requires k < |ranked|
    ensures TeamPicks(PickStep(order, ranked, t, delay, k), i) == if t == i then [ranked[k]] else []
  {
    var step := PickStep(order, ranked, t, delay, k);
    var p := Pick(k + 1, t, NameOf(order, t), ranked[k], |ranked| - (k + 1));
    var mine := if t == i then [ranked[k]] else [];
    assert TeamPicks([p], i) == TeamPicks([p][..0], i) + mine;
    if delay > 0.0 {
      assert step == [p, Sleep(delay)];
      assert step[..1] == [p];
      assert TeamPicks(step, i) == TeamPicks(step[..1], i) + [];
    } else {
      assert step == [p];
    }
  }

  /** The fighters the pick events hand to slot `i` are the ranked fighters
      whose target is `i`, in rank order. */
  lemma {:induction false} TeamPicksOfEvents<T>(order: seq<Slot<T>>, ranked: seq<T>, ts: seq<nat>, delay: real, i: nat)
    requires |ts| <= |ranked|
    ensures TeamPicks(PickEvents(order, ranked, ts, delay), i) == PicksFor(ranked[..|ts|], ts, i)
  {
    if |ts| > 0 {
      var n := |ts| - 1;
      TeamPicksOfEvents(order, ranked, ts[..n], delay, i);
      TeamPicksAppend(PickEvents(order, ranked, ts[..n], delay), PickStep(order, ranked, ts[n], delay, n), i);
      TeamPicksStep(order, ranked, ts[n], delay, n, i);
      PrefixOfPrefix(ranked, n + 1, n);
    }
  }

  /** The live draft and the batch draft agree: the fighters the live events
      hand to a slot, after its earlier picks, are exactly that slot's picks
      in the reference allocation. */
  lemma LiveMatchesBatch<T>(order: seq<Slot<T>>, ranked: seq<T>, delay: real, i: nat)
    requires |order| > 0 && i < |order|
    ensures order[i].picks + TeamPicks(LiveEvents(order, ranked, delay), i) == Allocate(order, ranked)[i].picks
  {
    TeamPicksOfEvents(order, ranked, Targets(order, ranked), delay, i);
    assert ranked[..|ranked|] == ranked;
    AllocatePicks(order, ranked, i);
  }

  /** The reference targets of one more fighter: those of the shorter
      prefix, then the first minimum slot of its allocation. */
  lemma TargetsNext<T>(order: seq<Slot<T>>, ranked: seq<T>, idx: nat, cur: seq<Slot<T>>)
    requires |order| > 0 && idx < |ranked| && cur == Allocate(order, ranked[..idx])
    ensures Targets(order, ranked[..idx + 1]) == Targets(order, ranked[..idx]) + [FirstMin(cur)]
  {
    PrefixOfPrefix(ranked, idx + 1, idx);
  }

  /** Splitting the ranked fighters splits the targets: the later fighters
      are targeted as if the draft started from the allocation of the
      earlier ones. */
  lemma {:induction false} TargetsAppend<T>(order: seq<Slot<T>>, a: seq<T>, b: seq<T>)
    requires |order| > 0
    ensures Targets(order, a + b) == Targets(order, a) + Targets(Allocate(order, a), b)
  {
    if |b| == 0 {
      assert a + b == a;
    } else {
      var n := |b| - 1;
      assert (a + b)[..|a + b| - 1] == a + b[..n];
      TargetsAppend(order, a, b[..n]);
      AllocateAppend(order, a, b[..n]);
    }
  }

  /** After a bucket served from the allocation of the first `idx0`
      fighters, the draft is at the allocation and targets of the first
      `idx == idx0 + n`. */
  lemma BucketResume<T>(order: seq<Slot<T>>, ranked: seq<T>, idx0: nat, n: nat, idx: nat, cur0: seq<Slot<T>>,
                        chosen0: seq<nat>, cur: seq<Slot<T>>, chosen: seq<nat>)
    requires |order| > 0 && idx == idx0 + n <= |ranked|
    requires cur0 == Allocate(order, ranked[..idx0]) && chosen0 == Targets(order, ranked[..idx0])
    requires cur == Allocate(cur0, ranked[idx0..][..n]) && chosen == chosen0 + Targets(cur0, ranked[idx0..][..n])
    ensures cur == Allocate(order, ranked[..idx]) && chosen == Targets(order, ranked[..idx])
  {
    var part := ranked[idx0..][..n];
    var whole := ranked[..idx];
    PrefixSplit(ranked, idx0, n);
    ResumeParts(order, ranked[..idx0], part, whole, cur0, chosen0, cur, chosen);
  }

  lemma ResumeParts<T>(order: seq<Slot<T>>, done: seq<T>, part: seq<T>, whole: seq<T>, cur0: seq<Slot<T>>,
                       chosen0: seq<nat>, cur: seq<Slot<T>>, chosen: seq<nat>)
    requires |order| > 0 && whole == done + part
    requires cur0 == Allocate(order, done) && chosen0 == Targets(order, done)
    requires cur == Allocate(cur0, part) && chosen == chosen0 + Targets(cur0, part)
    ensures cur == Allocate(order, whole) && chosen == Targets(order, whole)
  {
    AllocateAppend(order, done, part);
    TargetsAppend(order, done, part);
  }

  /** Within one bucket the reference targets are the bucket members in
      draft order, and the sizes stay in the served shape. */
  lemma {:induction false} BucketTargets<T>(start: seq<Slot<T>>, rest: seq<T>, n: nat)
    requires |start| > 0 && n <= |rest|
    requires n <= |Bucket(SizesOf(start), MinOf(SizesOf(start)), |start|)|
    ensures var bucket := Bucket(SizesOf(start), MinOf(SizesOf(start)), |start|);
            && Targets(start, rest[..n]) == bucket[..n]
            && Served(SizesOf(start), SizesOf(Allocate(start, rest[..n])), bucket, n)
  {
    var bucket := Bucket(SizesOf(start), MinOf(SizesOf(start)), |start|);
    if n == 0 {
      assert rest[..0] == [];
      ServedStart(SizesOf(start));
    } else {
      var k := n - 1;
      BucketTargets(start, rest, k);
      var cur := Allocate(start, rest[..k]);
      BucketStep(start, rest, k, cur, bucket);
      BucketHeadIsFirstMin(SizesOf(start), SizesOf(cur), bucket, k);
      TargetsNext(start, rest, k, cur);
      TakeNext(bucket, k);
    }
  }

  /** The events of one more pick extend the trace: the pick, then a pause
      when the delay is positive. */
  lemma EventsNext<T>(order: seq<Slot<T>>, ranked: seq<T>, ts: seq<nat>, delay: real, k: nat, t: nat, name: string)
    requires k == |ts| < |ranked| && name == NameOf(order, t)
    ensures delay > 0.0 ==> PickEvents(order, ranked, ts + [t], delay)
                            == PickEvents(order, ranked, ts, delay) + [Pick(k + 1, t, name, ranked[k], |ranked| - (k + 1))]
                               + [Sleep(delay)]
    ensures delay <= 0.0 ==> PickEvents(order, ranked, ts + [t], delay)
                             == PickEvents(order, ranked, ts, delay) + [Pick(k + 1, t, name, ranked[k], |ranked| - (k + 1))]
  {
    var prev := PickEvents(order, ranked, ts, delay);
    var e := Pick(k + 1, t, name, ranked[k], |ranked| - (k + 1));
    var step := PickStep(order, ranked, t, delay, k);
    assert (ts + [t])[..|ts|] == ts;
    assert PickEvents(order, ranked, ts + [t], delay) == prev + step;
    if delay > 0.0 {
      assert step == [e] + [Sleep(delay)];
      Assoc(prev, [e], [Sleep(delay)]);
    } else {
      assert step == [e] + [];
      RightUnit([e]);
    }
  }

  function Snoc<U>(s: seq<U>, x: U): (r: seq<U>)
    ensures r == s + [x]
  {
    s + [x]
  }

  /** Whether two orders have the same team names, slot by slot. */
  predicate SameNames<T>(a: seq<Slot<T>>, b: seq<Slot<T>>) {
    |a| == |b| && forall j :: 0 <= j < |a| ==> a[j].name == b[j].name
  }

  /** The inner loop of `runDraftLive` from pick `idx0` on, starting from
      the order `start`: the slots of the current minimum size pick once
      each, in draft order, until the bucket or the pool runs out; each pick
      emits its event and, with a positive delay, a pause. */
  method ServeLive<T>(order: seq<Slot<T>>, ranked: seq<T>, delay: real, idx0: nat,
                      start: seq<Slot<T>>, events0: seq<Event<T>>, ghost chosen0: seq<nat>)
    returns (cur: seq<Slot<T>>, events: seq<Event<T>>, n: nat, ghost chosen: seq<nat>)
    requires |order| > 0 && idx0 < |ranked| && SameNames(start, order)
    requires |chosen0| == idx0
    requires events0 == PickEvents(order, ranked, chosen0, delay)
    ensures 0 < n <= |ranked| - idx0
    ensures cur == Allocate(start, ranked[idx0..][..n])
    ensures chosen == chosen0 + Targets(start, ranked[idx0..][..n])
    ensures |chosen| == idx0 + n
    ensures events == PickEvents(order, ranked, chosen, delay)
  {
    ghost var rest := ranked[idx0..];
    var sizes := SizesOf(start);
    var minSize := MinOf(sizes);
    var bucket := Bucket(sizes, minSize, |sizes|);
    BucketNonEmpty(sizes);
    ServedStart(sizes);
    TakeNone(rest);
    cur, events, chosen := start, events0, chosen0;
    var idx := idx0;
    var pickNo := idx0 + 1;
    var i := 0;
    while i < |bucket| && idx < |ranked|
      invariant 0 <= i <= |bucket| && idx == idx0 + i <= |ranked|
      invariant pickNo == idx + 1
      invariant cur == Allocate(start, rest[..i])
      invariant Served(sizes, SizesOf(cur), bucket, i)
      invariant chosen == chosen0 + bucket[..i]
      invariant |chosen| == idx
      invariant events == PickEvents(order, ranked, chosen, delay)
      decreases |bucket| - i
    {
      cur, events, chosen := LivePick(order, ranked, delay, idx0, start, rest, bucket, i, cur, events, chosen0, chosen);
      idx := idx + 1;
      pickNo := pickNo + 1;
      i := i + 1;
    }
    n := i;
    BucketTargets(start, rest, n);
  }

  /** One pick of the inner loop: the next bucket member takes the next
      ranked fighter, and its event (with a pause when the delay is
      positive) is emitted. */
  method LivePick<T>(order: seq<Slot<T>>, ranked: seq<T>, delay: real, idx0: nat, start: seq<Slot<T>>,
                     ghost rest: seq<T>, bucket: seq<nat>, i: nat, cur0: seq<Slot<T>>,
                     events0: seq<Event<T>>, ghost chosen0: seq<nat>, ghost before: seq<nat>)
    returns (cur: seq<Slot<T>>, events: seq<Event<T>>, ghost chosen: seq<nat>)
    requires |start| > 0 && SameNames(start, order)
    requires i < |bucket| && idx0 + i < |ranked| && rest == ranked[idx0..]
    requires cur0 == Allocate(start, rest[..i])
    requires Served(SizesOf(start), SizesOf(cur0), bucket, i)
    requires before == chosen0 + bucket[..i] && |before| == idx0 + i
    requires events0 == PickEvents(order, ranked, before, delay)
    ensures cur == Allocate(start, rest[..i + 1])
    ensures Served(SizesOf(start), SizesOf(cur), bucket, i + 1)
    ensures chosen == chosen0 + bucket[..i + 1] && |chosen| == idx0 + i + 1
    ensures events == PickEvents(order, ranked, chosen, delay)
  {
    var idx := idx0 + i;
    var t := bucket[i];
    var fighter := ranked[idx];
    BucketStep(start, rest, i, cur0, bucket);
    var name := cur0[t].name;
    assert name == NameOf(order, t);
    var e := Pick(idx + 1, t, name, fighter, |ranked| - (idx + 1));
    EventsNext(order, ranked, before, delay, idx, t, name);
    ExtendPrefix(chosen0, bucket, i);
    cur := Give(cur0, t, fighter);
    chosen := Snoc<nat>(before, t);
    events := events0 + [e];
    if delay > 0.0 {
      events := events + [Sleep(delay)];
    }
  }

  /** One pass of `runDraftLive`'s outer loop, in terms of the whole draft:
      from `idx0` picks on it reaches a later point of the reference
      allocation, its targets and their events. */
  method LiveBucket<T>(order: seq<Slot<T>>, ranked: seq<T>, delay: real, idx0: nat,
                       cur0: seq<Slot<T>>, events0: seq<Event<T>>, ghost chosen0: seq<nat>)
    returns (cur: seq<Slot<T>>, events: seq<Event<T>>, idx: nat, ghost chosen: seq<nat>)
    requires |order| > 0 && idx0 < |ranked|
    requires cur0 == Allocate(order, ranked[..idx0])
    requires chosen0 == Targets(order, ranked[..idx0])
    requires events0 == PickEvents(order, ranked, chosen0, delay)
    ensures idx0 < idx <= |ranked|
    ensures cur == Allocate(order, ranked[..idx])
    ensures chosen == Targets(order, ranked[..idx])
    ensures events == PickEvents(order, ranked, chosen, delay)
  {
    var n;
    cur, events, n, chosen := ServeLive(order, ranked, delay, idx0, cur0, events0, chosen0);
    idx := idx0 + n;
    BucketResume(order, ranked, idx0, n, idx, cur0, chosen0, cur, chosen);
  }

  /** `runDraftLive`'s loop: buckets until the ranked pool runs out. It ends
      with the reference allocation and the live events of every fighter. */
  method LiveLoop<T>(order: seq<Slot<T>>, ranked: seq<T>, delay: real)
    returns (cur: seq<Slot<T>>, events: seq<Event<T>>)
    requires |order| > 0
    ensures cur == Allocate(order, ranked)
    ensures events == LiveEvents(order, ranked, delay)
  {
    cur, events := order, [];
    ghost var chosen: seq<nat> := [];
    var idx := 0;
    assert ranked[..0] == [];
    while idx < |ranked|
      invariant 0 <= idx <= |ranked|
      invariant cur == Allocate(order, ranked[..idx])
      invariant chosen == Targets(order, ranked[..idx])
      invariant events == PickEvents(order, ranked, chosen, delay)
      decreases |ranked| - idx
    {
      cur, events, idx, chosen := LiveBucket(order, ranked, delay, idx, cur, events, chosen);
    }
    assert ranked[..idx] == ranked;
  }
}
