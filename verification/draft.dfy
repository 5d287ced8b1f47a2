/** The draft as a whole: reading and classifying the stored fighters,
    ranking the pool, ordering the teams, and running the bucketed round
    robin, both in one go (`runDraft`) and as a stream of live events
    (`runDraftLive`). */
module Draft {
  import opened Wrappers
  import opened Fighters
  import opened Sizes
  import opened Allocation
  import opened Live
  import Ranking

  // ---------------------------------------------------------------------------
  // The batch draft

  /** The ranked pool and the initial draft order of a fighter collection:
      the pool ranked by power, the rosters as slots in ascending size order. */
  function Prepare(all: seq<Fighter>): (seq<Fighter>, seq<Slot<Fighter>>) {
    var c := Classify(all);
    (Ranking.RankByStatPower(c.pool), Slots(SortBySize(c.teams)))
  }

  /** The draft order has one slot per team. */
  lemma OrderSize(all: seq<Fighter>)
    ensures |Prepare(all).1| == |Classify(all).teams|
  {
    var c := Classify(all);
    assert |multiset(SortBySize(c.teams))| == |multiset(c.teams)|;
  }

  lemma {:induction false} NoPicksYet<T>(order: seq<Slot<T>>)
    requires forall i :: 0 <= i < |order| ==> order[i].picks == []
    ensures AllPicks(order) == []
  {
    if |order| > 0 {
      NoPicksYet(order[1..]);
    }
  }

  /** `runDraft`: reads the stored fighters, classifies and ranks them, and
      runs the bucketed allocation; with no pool or no teams nobody picks.
      The order has one slot per team and the slots are the reference
      allocation of the ranked pool. */
  method RunDraft(data: Option<StoredFighters>) returns (ranked: seq<Fighter>, order: seq<Slot<Fighter>>)
    ensures ranked == Prepare(GetFighters(data)).0
    ensures multiset(ranked) == multiset(Classify(GetFighters(data)).pool)
    ensures |order| == |Classify(GetFighters(data)).teams|
    ensures |order| > 0 ==> order == Allocate(Prepare(GetFighters(data)).1, ranked)
    ensures |ranked| == 0 ==> AllPicks(order) == []
  {
    var all := GetFighters(data);
    OrderSize(all);
    var prepared := Prepare(all);
    ranked := prepared.0;
    var initial := prepared.1;
    order := RunBuckets(initial, ranked);
    if |ranked| == 0 {
      NoPicksYet(initial);
      if |initial| > 0 {
        assert ranked == [];
      }
    }
  }

  /** Some stored fighter belongs to a team, that is, is not in the pool. */
  predicate SomeTeamMember(all: seq<Fighter>) {
    exists k :: 0 <= k < |all| && !InPool(all[k])
  }

  /** A fighter outside the pool puts its team in the draft order. */
  lemma HasTeam(all: seq<Fighter>)
    requires SomeTeamMember(all)
    ensures |Prepare(all).1| > 0
  {
    var k :| 0 <= k < |all| && !InPool(all[k]);
    TeamNamesCover(all, all[k]);
    assert |Names(Classify(all).teams)| > 0;
    OrderSize(all);
  }

  /** End to end: when some fighter is on a team, the drafted fighters are
      exactly the pool, each picked once. */
  lemma DraftCompleteness(all: seq<Fighter>)
    requires SomeTeamMember(all)
    ensures var p := Prepare(all);
            && |p.1| > 0
            && multiset(AllPicks(Allocate(p.1, p.0))) == multiset(Classify(all).pool)
  {
    var p := Prepare(all);
    HasTeam(all);
    NoPicksYet(p.1);
    AllocateExactlyOnce(p.1, p.0);
  }

  // ---------------------------------------------------------------------------
  // The live draft

  /** `runDraftLive`: the `onInit` event comes first, with the ranked pool
      and the initial order, whether or not anybody can pick; then, when
      there is a pool and a team, the pick events of every ranked fighter,
      each going where the reference rule puts it. It ends with the same
      order as the batch draft. */
  method RunDraftLive(data: Option<StoredFighters>, delay: real)
    returns (ranked: seq<Fighter>, order: seq<Slot<Fighter>>, trace: seq<Event<Fighter>>)
    ensures ranked == Prepare(GetFighters(data)).0
    ensures |order| == |Classify(GetFighters(data)).teams|
    ensures |ranked| == 0 ==> order == Prepare(GetFighters(data)).1
    ensures |ranked| == 0 || |order| == 0 ==> trace == [Init(ranked, Prepare(GetFighters(data)).1)]
    ensures |ranked| > 0 && |order| > 0 ==>
      var initial := Prepare(GetFighters(data)).1;
      && order == Allocate(initial, ranked)
      && trace == [Init(ranked, initial)] + LiveEvents(initial, ranked, delay)
  {
    var all := GetFighters(data);
    OrderSize(all);
    var prepared := Prepare(all);
    ranked := prepared.0;
    var initial := prepared.1;
    var start := Init(ranked, initial);
    if |ranked| == 0 || |initial| == 0 {
      return ranked, initial, [start];
    }
    var events;
    order, events := LiveLoop(initial, ranked, delay);
    trace := [start] + events;
  }

  /** The whole live trace of a fighter collection with some team member:
      the picks are numbered 1, 2, ... in the order of the ranked pool, the
      remaining count falls to zero, and every team ends with the fighters
      the batch draft gives it. */
  lemma LiveTrace(all: seq<Fighter>, delay: real)
    requires SomeTeamMember(all)
    ensures var p := Prepare(all);
            && |p.1| > 0
            && var events := LiveEvents(p.1, p.0, delay);
            && (forall j :: 0 <= j < |p.0| ==> NumberedPick(events, delay, p.0, j))
            && (forall i :: 0 <= i < |p.1| ==> TeamPicks(events, i) == Allocate(p.1, p.0)[i].picks)
  {
    var p := Prepare(all);
    HasTeam(all);
    forall j | 0 <= j < |p.0|
      ensures NumberedPick(LiveEvents(p.1, p.0, delay), delay, p.0, j)
    {
      LiveEventAt(p.1, p.0, delay, j);
    }
    forall i | 0 <= i < |p.1|
      ensures TeamPicks(LiveEvents(p.1, p.0, delay), i) == Allocate(p.1, p.0)[i].picks
    {
      LiveMatchesBatch(p.1, p.0, delay, i);
      assert p.1[i].picks == [];
    }
  }
}
