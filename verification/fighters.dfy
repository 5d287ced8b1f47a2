/** Fighter records as the draft reads them from storage, and the pool
    classifier that splits them into the draftable pool (free agents and
    custom fighters) and the existing team rosters. */
module Fighters {
  import opened Wrappers
  import Text
  import Seqs

  /** A win, loss or draw count: a non-negative number. */
  type Count = x: real | 0.0 <= x

  /** A stored fighter. A numeric field is `None` when it is missing or does
      not convert to a finite number; a missing `Team` or `Name` is "". */
  datatype Fighter = Fighter(
    id: int,
    name: string,
    team: string,
    isCustom: bool,
    strength: Option<real>,
    speed: Option<real>,
    endurance: Option<real>,
    technique: Option<real>,
    wins: Option<Count>,
    losses: Option<Count>,
    draws: Option<Count>)

  /** `safeNum`: a missing or non-numeric field counts as 0. */
  function SafeNum(v: Option<real>): (r: real)
    ensures v.None? ==> r == 0.0
    ensures v.Some? ==> r == v.value
  {
    v.GetOr(0.0)
  }

  /** What the store holds under the key "fighters": an array of fighter
      records, or some other JSON value. */
  datatype StoredFighters = FighterArray(items: seq<Fighter>) | NotAnArray

  /** `getFighters`: anything but an array (including nothing stored at all)
      reads as an empty collection. */
  function GetFighters(data: Option<StoredFighters>): (r: seq<Fighter>)
    ensures data.Some? && data.value.FighterArray? ==> r == data.value.items
    ensures data.None? || data.value.NotAnArray? ==> r == []
  {
    match data
    case Some(FighterArray(items)) => items
    case _ => []
  }

  /** The team name a fighter is grouped under: trimmed, original case. */
  function TeamKey(f: Fighter): string {
    Text.Trim(f.team)
  }

  /** The team names, in lower case, that mark a free agent or a custom
      fighter. */
  const FreeAgentMarkers: set<string> := {"", "free agent", "free agents", "fa"}
  const CustomMarkers: set<string> := {"custom fighter", "custom fighters", "custom"}

  /** No team, or a free-agent marker in any letter case. */
  predicate IsFreeAgent(f: Fighter) {
    Text.ToLower(TeamKey(f)) in FreeAgentMarkers
  }

  /** The custom flag, or a custom-fighter marker in any letter case. */
  predicate IsCustomFighter(f: Fighter) {
    f.isCustom || Text.ToLower(TeamKey(f)) in CustomMarkers
  }

  /** Whether a fighter is draftable, that is, goes to the pool. */
  predicate InPool(f: Fighter) {
    IsFreeAgent(f) || IsCustomFighter(f)
  }

  /** Whether a fighter is an existing member of the team called `name`. */
  predicate OnTeam(f: Fighter, name: string) {
    !InPool(f) && TeamKey(f) == name
  }

  /** A team and its current members, in collection order. */
  datatype Roster<T> = Roster(name: string, members: seq<T>)

  datatype Classified = Classified(pool: seq<Fighter>, teams: seq<Roster<Fighter>>)

  function Names(teams: seq<Roster<Fighter>>): (r: seq<string>)
    ensures |r| == |teams|
    ensures forall i :: 0 <= i < |teams| ==> r[i] == teams[i].name
  {
    seq(|teams|, i requires 0 <= i < |teams| => teams[i].name)
  }

  predicate Distinct(s: seq<string>) {
    forall i, j :: 0 <= i < j < |s| ==> s[i] != s[j]
  }

  // Reference definitions of what the classifier computes, by filtering.

  /** The pool fighters of `arr`, in order. */
  function PoolOf(arr: seq<Fighter>): (r: seq<Fighter>)
    ensures forall f :: f in r <==> f in arr && InPool(f)
  {
    if |arr| == 0 then []
    else
      var last := arr[|arr| - 1];
      assert arr == arr[..|arr| - 1] + [last];
      PoolOf(arr[..|arr| - 1]) + (if InPool(last) then [last] else [])
  }

  /** The members of team `name` in `arr`, in order. */
  function MembersOf(arr: seq<Fighter>, name: string): (r: seq<Fighter>)
    ensures forall f :: f in r <==> f in arr && OnTeam(f, name)
  {
    if |arr| == 0 then []
    else
      var last := arr[|arr| - 1];
      assert arr == arr[..|arr| - 1] + [last];
      MembersOf(arr[..|arr| - 1], name) + (if OnTeam(last, name) then [last] else [])
  }

  /** The team names of `arr` in order of first appearance. */
  function TeamNamesOf(arr: seq<Fighter>): (r: seq<string>)
    ensures Distinct(r)
  {
    if |arr| == 0 then []
    else
      var last := arr[|arr| - 1];
      var prev := TeamNamesOf(arr[..|arr| - 1]);
      assert arr == arr[..|arr| - 1] + [last];
      if InPool(last) || TeamKey(last) in prev then prev else prev + [TeamKey(last)]
  }

  /** Appends `f` to the roster called `key`, opening a new roster at the end
      when there is none (a JavaScript `Map` keeps insertion order). */
  function Join(teams: seq<Roster<Fighter>>, key: string, f: Fighter): (r: seq<Roster<Fighter>>)
    requires Distinct(Names(teams))
    ensures Joined(teams, key, f, r)
  {
    if |teams| == 0 then [Roster(key, [f])]
    else if teams[0].name == key then
      JoinHere(teams, key, f);
      [teams[0].(members := teams[0].members + [f])] + teams[1..]
    else
      DistinctTail(teams);
      var rest := Join(teams[1..], key, f);
      JoinLater(teams, key, f, rest);
      [teams[0]] + rest
  }

  lemma NamesCons(t: Roster<Fighter>, rest: seq<Roster<Fighter>>)
    ensures Names([t] + rest) == [t.name] + Names(rest)
  {
  }

  lemma DistinctTail(teams: seq<Roster<Fighter>>)
    requires |teams| > 0 && Distinct(Names(teams))
    ensures Distinct(Names(teams[1..]))
  {
    var n, m := Names(teams), Names(teams[1..]);
    forall i, j | 0 <= i < j < |m|
      ensures m[i] != m[j]
    {
      assert m[i] == n[i + 1] && m[j] == n[j + 1];
    }
  }

  /** The names after `key` joins: a new name goes at the end. */
  function AddName(names: seq<string>, key: string): seq<string> {
    if key in names then names else names + [key]
  }

  lemma AddNameCons(n: string, names: seq<string>, key: string)
    requires n != key
    ensures AddName([n] + names, key) == [n] + AddName(names, key)
  {
    if key !in names {
      assert key !in [n] + names;
      Seqs.Assoc([n], names, [key]);
    } else {
      assert key in [n] + names;
    }
  }

  /** What Join promises about `r`, the rosters after `f` joins `key`. */
  predicate Joined(teams: seq<Roster<Fighter>>, key: string, f: Fighter, r: seq<Roster<Fighter>>) {
    && Names(r) == AddName(Names(teams), key)
    && (forall i :: 0 <= i < |teams| ==>
          r[i].members == teams[i].members + (if teams[i].name == key then [f] else []))
    && (key !in Names(teams) ==> r[|teams|].members == [f])
  }

  /** Join's step when the first roster is the one joined. */
  lemma JoinHere(teams: seq<Roster<Fighter>>, key: string, f: Fighter)
    requires |teams| > 0 && teams[0].name == key && Distinct(Names(teams))
    ensures Joined(teams, key, f, [teams[0].(members := teams[0].members + [f])] + teams[1..])
  {
    var head := teams[0].(members := teams[0].members + [f]);
    var r := [head] + teams[1..];
    NamesCons(head, teams[1..]);
    NamesCons(teams[0], teams[1..]);
    assert teams == [teams[0]] + teams[1..];
    forall i | 0 < i < |teams|
      ensures teams[i].name != key
    {
      assert Names(teams)[i] != Names(teams)[0];
    }
  }

  /** Join's step past a first roster of another name. */
  lemma JoinLater(teams: seq<Roster<Fighter>>, key: string, f: Fighter, rest: seq<Roster<Fighter>>)
    requires |teams| > 0 && teams[0].name != key
    requires Joined(teams[1..], key, f, rest)
    ensures Joined(teams, key, f, [teams[0]] + rest)
  {
    assert teams == [teams[0]] + teams[1..];
    LaterNames(teams[0], teams[1..], key, rest);
    LaterMembers(teams[0], teams[1..], key, f, rest);
  }

  lemma LaterNames(t: Roster<Fighter>, tail: seq<Roster<Fighter>>, key: string, rest: seq<Roster<Fighter>>)
    requires t.name != key && Names(rest) == AddName(Names(tail), key)
    ensures Names([t] + rest) == AddName(Names([t] + tail), key)
    ensures key in Names([t] + tail) <==> key in Names(tail)
  {
    NamesCons(t, tail);
    NamesCons(t, rest);
    AddNameCons(t.name, Names(tail), key);
  }

  lemma LaterMembers(t: Roster<Fighter>, tail: seq<Roster<Fighter>>, key: string, f: Fighter, rest: seq<Roster<Fighter>>)
    requires t.name != key && |rest| >= |tail|
    requires forall i :: 0 <= i < |tail| ==>
               rest[i].members == tail[i].members + (if tail[i].name == key then [f] else [])
    ensures forall i :: 0 <= i < |tail| + 1 ==>
              ([t] + rest)[i].members == ([t] + tail)[i].members + (if ([t] + tail)[i].name == key then [f] else [])
    ensures ([t] + rest)[|tail| + 1..] == rest[|tail|..]
  {
    assert ([t] + rest)[|tail| + 1..] == rest[|tail|..];
  }

  /** `classifyFighters`: the pool is exactly the draftable fighters, the
      rosters are the team names in order of first appearance, and each roster
      holds exactly its fighters; all in collection order. */
  function Classify(arr: seq<Fighter>): (r: Classified)
    ensures r.pool == PoolOf(arr)
    ensures Names(r.teams) == TeamNamesOf(arr)
    ensures forall i :: 0 <= i < |r.teams| ==> r.teams[i].members == MembersOf(arr, r.teams[i].name)
  {
    if |arr| == 0 then Classified([], [])
    else
      var pre := arr[..|arr| - 1];
      var f := arr[|arr| - 1];
      var c := Classify(pre);
      if InPool(f) then Classified(c.pool + [f], c.teams)
      else
        var key := TeamKey(f);
        assert key !in Names(c.teams) ==> MembersOf(pre, key) == [] by {
          if key !in Names(c.teams) {
            MembersOfAbsent(pre, key);
          }
        }
        Classified(c.pool, Join(c.teams, key, f))
  }

  lemma {:induction false} MembersOfAbsent(arr: seq<Fighter>, name: string)
    requires name !in TeamNamesOf(arr)
    ensures MembersOf(arr, name) == []
  {
    if |arr| > 0 {
      MembersOfAbsent(arr[..|arr| - 1], name);
    }
  }

  /** Every team fighter's trimmed team appears among the team names. */
  lemma {:induction false} TeamNamesCover(arr: seq<Fighter>, f: Fighter)
    requires f in arr && !InPool(f)
    ensures TeamKey(f) in TeamNamesOf(arr)
  {
    var pre := arr[..|arr| - 1];
    assert arr == pre + [arr[|arr| - 1]];
    if f in pre {
      TeamNamesCover(pre, f);
    }
  }

  /** All roster members, roster by roster. */
  function AllMembers(teams: seq<Roster<Fighter>>): seq<Fighter> {
    if |teams| == 0 then [] else teams[0].members + AllMembers(teams[1..])
  }

  lemma {:induction false} JoinAddsOne(teams: seq<Roster<Fighter>>, key: string, f: Fighter)
    requires Distinct(Names(teams))
    ensures multiset(AllMembers(Join(teams, key, f))) == multiset(AllMembers(teams)) + multiset{f}
  {
    if |teams| == 0 {
      assert AllMembers([Roster(key, [f])]) == [f] + AllMembers([]);
    } else if teams[0].name == key {
      var r := Join(teams, key, f);
      assert r[1..] == teams[1..];
    } else {
      assert Names(teams) == [teams[0].name] + Names(teams[1..]);
      JoinAddsOne(teams[1..], key, f);
      var r := Join(teams, key, f);
      assert r[1..] == Join(teams[1..], key, f);
    }
  }

  /** The classification is a partition: pool and rosters together hold every
      input fighter exactly as often as the input does. */
  lemma {:induction false} ClassifyPartition(arr: seq<Fighter>)
    ensures multiset(Classify(arr).pool) + multiset(AllMembers(Classify(arr).teams)) == multiset(arr)
  {
    if |arr| > 0 {
      var pre := arr[..|arr| - 1];
      var f := arr[|arr| - 1];
      assert arr == pre + [f];
      ClassifyPartition(pre);
      if !InPool(f) {
        JoinAddsOne(Classify(pre).teams, TeamKey(f), f);
      }
    }
  }

  /** Each fighter goes to exactly one place: a pool fighter to the pool and
      to no roster; any other fighter to the one roster named by its trimmed
      team, and not to the pool. */
  lemma ClassifyRoutes(arr: seq<Fighter>, f: Fighter)
    requires f in arr
    ensures InPool(f) ==> f in Classify(arr).pool
    ensures InPool(f) ==> forall i :: 0 <= i < |Classify(arr).teams| ==> f !in Classify(arr).teams[i].members
    ensures !InPool(f) ==> f !in Classify(arr).pool
    ensures !InPool(f) ==> exists i :: 0 <= i < |Classify(arr).teams| && Classify(arr).teams[i].name == TeamKey(f)
                                      && f in Classify(arr).teams[i].members
    ensures !InPool(f) ==> forall i :: 0 <= i < |Classify(arr).teams| && f in Classify(arr).teams[i].members
                                      ==> Classify(arr).teams[i].name == TeamKey(f)
  {
    var c := Classify(arr);
    if !InPool(f) {
      TeamNamesCover(arr, f);
      var i :| 0 <= i < |Names(c.teams)| && Names(c.teams)[i] == TeamKey(f);
      assert f in c.teams[i].members;
    }
  }

  /** Sample markers: surrounding whitespace and letter case do not matter. */
  lemma FreeAgentMarker(f: Fighter)
    requires f.team == "  Fa "
    ensures InPool(f)
  {
    TrimFa();
    LowerFa();
  }

  lemma TrimFa()
    ensures Text.Trim("  Fa ") == "Fa"
  {
    assert "  Fa " == "  " + "Fa" + " ";
    Text.TrimPaddedWord("  ", "Fa", " ");
  }

  lemma LowerFa()
    ensures Text.ToLower("Fa") == "fa"
  {
    assert Text.ToLower("Fa")[0] == 'f';
  }

  lemma CustomMarker(f: Fighter)
    requires f.team == "\tCUSTOM"
    ensures InPool(f)
  {
    assert f.team == "\t" + "CUSTOM" + "";
    Text.TrimPaddedWord("\t", "CUSTOM", "");
    LowerCustom();
  }

  lemma LowerCustom()
    ensures Text.ToLower("CUSTOM") == "custom"
  {
    assert forall i :: 0 <= i < 6 ==> Text.ToLower("CUSTOM")[i] == "custom"[i];
  }

  /** Whitespace around the team name changes neither where a fighter goes
      nor the name it is grouped under. */
  lemma PaddingIgnored(f: Fighter, p: string, q: string)
    requires Text.AllSpace(p) && Text.AllSpace(q)
    ensures TeamKey(f.(team := p + f.team + q)) == TeamKey(f)
    ensures InPool(f.(team := p + f.team + q)) <==> InPool(f)
  {
    Text.TrimPadded(p, f.team, q);
  }
}
