/** The pairwise power-score ranker: how likely a pool fighter is to beat
    each other pool fighter stat by stat, averaged into a power score, and the
    order of the pool by power, record, stat total and name. */
module Ranking {
  import opened Wrappers
  import opened Fighters
  import Text
  import Seqs

  /** Strength, speed, endurance and technique, missing values read as 0. */
  function Stats(f: Fighter): (r: seq<real>)
    ensures |r| == 4
  {
    [SafeNum(f.strength), SafeNum(f.speed), SafeNum(f.endurance), SafeNum(f.technique)]
  }

  /** Whether stat values `x` and `y` take part in a comparison: their sum is positive. */
  predicate Counts(x: real, y: real) {
    x + y > 0.0
  }

  /** The number of stats that take part in comparing `xs` with `ys`. */
  function Qualifying(xs: seq<real>, ys: seq<real>): nat
    requires |xs| == |ys|
  {
    if |xs| == 0 then 0
    else (if Counts(xs[0], ys[0]) then 1 else 0) + Qualifying(xs[1..], ys[1..])
  }

  /** The sum of the per-stat win ratios `x / (x + y)` over the stats that
      take part. */
  function RatioSum(xs: seq<real>, ys: seq<real>): real
    requires |xs| == |ys|
  {
    if |xs| == 0 then 0.0
    else (if Counts(xs[0], ys[0]) then xs[0] / (xs[0] + ys[0]) else 0.0) + RatioSum(xs[1..], ys[1..])
  }

  /** `statProbBetween`: the mean per-stat win ratio of `a` over `b`, or
      exactly one half when no stat takes part. */
  function StatProb(a: Fighter, b: Fighter): real {
    var c := Qualifying(Stats(a), Stats(b));
    if c == 0 then 0.5 else RatioSum(Stats(a), Stats(b)) / c as real
  }

  lemma DivAdd(s: real, t: real, c: real)
    requires c != 0.0
    ensures s / c + t / c == (s + t) / c
  {
    var a, b, q := s / c, t / c, (s + t) / c;
    assert a * c == s && b * c == t && q * c == s + t;
    assert (q - (a + b)) * c == 0.0;
  }

  lemma {:induction false} RatioSumComplement(xs: seq<real>, ys: seq<real>)
    requires |xs| == |ys|
    ensures Qualifying(xs, ys) == Qualifying(ys, xs)
    ensures RatioSum(xs, ys) + RatioSum(ys, xs) == Qualifying(xs, ys) as real
  {
    if |xs| > 0 {
      RatioSumComplement(xs[1..], ys[1..]);
      if Counts(xs[0], ys[0]) {
        var x, y := xs[0], ys[0];
        DivAdd(x, y, x + y);
        assert (x + y) / (x + y) == 1.0;
      }
    }
  }

  /** The chance of `a` beating `b` and of `b` beating `a` add up to one. */
  lemma StatProbComplement(a: Fighter, b: Fighter)
    ensures StatProb(a, b) + StatProb(b, a) == 1.0
  {
    RatioSumComplement(Stats(a), Stats(b));
    var c := Qualifying(Stats(a), Stats(b)) as real;
    if c > 0.0 {
      var s, t := RatioSum(Stats(a), Stats(b)), RatioSum(Stats(b), Stats(a));
      DivAdd(s, t, c);
      assert c / c == 1.0;
    }
  }

  /** When no stat of the pair has a positive sum, the pair is an even match. */
  lemma StatProbEven(a: Fighter, b: Fighter)
    requires forall k :: 0 <= k < 4 ==> !Counts(Stats(a)[k], Stats(b)[k])
    ensures StatProb(a, b) == 0.5
  {
    var xs, ys := Stats(a), Stats(b);
    assert Qualifying(xs[3..], ys[3..]) == 0;
    assert Qualifying(xs[2..], ys[2..]) == 0;
    assert Qualifying(xs[1..], ys[1..]) == 0;
  }

  predicate NonNegative(xs: seq<real>) {
    forall k :: 0 <= k < |xs| ==> xs[k] >= 0.0
  }

  lemma {:induction false} RatioSumBounds(xs: seq<real>, ys: seq<real>)
    requires |xs| == |ys| && NonNegative(xs) && NonNegative(ys)
    ensures 0.0 <= RatioSum(xs, ys) <= Qualifying(xs, ys) as real
  {
    if |xs| > 0 {
      RatioSumBounds(xs[1..], ys[1..]);
      if Counts(xs[0], ys[0]) {
        DivUnit(xs[0], xs[0] + ys[0]);
      }
    }
  }

  lemma DivUnit(s: real, c: real)
    requires c > 0.0 && 0.0 <= s <= c
    ensures 0.0 <= s / c <= 1.0
  {
    var a := s / c;
    assert a * c == s;
    assert (a - 1.0) * c == s - c;
  }

  /** With non-negative stats the win chance is a probability. */
  lemma StatProbBounds(a: Fighter, b: Fighter)
    requires NonNegative(Stats(a)) && NonNegative(Stats(b))
    ensures 0.0 <= StatProb(a, b) <= 1.0
  {
    RatioSumBounds(Stats(a), Stats(b));
    var c := Qualifying(Stats(a), Stats(b));
    if c > 0 {
      DivUnit(RatioSum(Stats(a), Stats(b)), c as real);
    }
  }

  /** `smoothedRecordRate`: (wins + draws/2 + 1) / (games + 2), which lies
      strictly between 0 and 1, and is one half for a fighter with no games. */
  function RecordRate(f: Fighter): (r: real)
    ensures 0.0 < r < 1.0
    ensures SafeNum(f.wins) == 0.0 && SafeNum(f.losses) == 0.0 && SafeNum(f.draws) == 0.0 ==> r == 0.5
  {
    var w, l, d := SafeNum(f.wins), SafeNum(f.losses), SafeNum(f.draws);
    assert 0.0 <= w && 0.0 <= l && 0.0 <= d;
    var num, den := w + 0.5 * d + 1.0, w + l + d + 2.0;
    assert 0.0 < num < den;
    DivUnit(num, den);
    assert num / den < den / den;
    num / den
  }

  /** `totalStats`: the sum of the four stats. */
  function TotalStats(f: Fighter): real {
    var s := Stats(f);
    s[0] + s[1] + s[2] + s[3]
  }

  /** The sum of `StatProb(pool[i], pool[k])` over `k < j`, `k != i`. */
  function RowSum(pool: seq<Fighter>, i: nat, j: nat): real
    requires i < |pool| && j <= |pool|
  {
    if j == 0 then 0.0
    else RowSum(pool, i, j - 1) + (if j - 1 != i then StatProb(pool[i], pool[j - 1]) else 0.0)
  }

  /** The power score of `pool[i]`: its mean win chance against every other
      pool member. */
  function Power(pool: seq<Fighter>, i: nat): real
    requires i < |pool|
  {
    var c := |pool| - 1;
    if c > 0 then RowSum(pool, i, |pool|) / c as real else 0.5
  }

  predicate AllNonNegative(pool: seq<Fighter>) {
    forall k :: 0 <= k < |pool| ==> NonNegative(Stats(pool[k]))
  }

  lemma {:induction false} RowSumBounds(pool: seq<Fighter>, i: nat, j: nat)
    requires i < |pool| && j <= |pool| && AllNonNegative(pool)
    ensures 0.0 <= RowSum(pool, i, j)
    ensures RowSum(pool, i, j) <= (j - (if i < j then 1 else 0)) as real
  {
    if j > 0 {
      RowSumBounds(pool, i, j - 1);
      if j - 1 != i {
        StatProbBounds(pool[i], pool[j - 1]);
      }
    }
  }

  /** With non-negative stats every power score lies in [0, 1]. */
  lemma PowerBounds(pool: seq<Fighter>, i: nat)
    requires i < |pool| && AllNonNegative(pool)
    ensures 0.0 <= Power(pool, i) <= 1.0
  {
    RowSumBounds(pool, i, |pool|);
    if |pool| > 1 {
      DivUnit(RowSum(pool, i, |pool|), (|pool| - 1) as real);
    }
  }

  /** The power scores of `pool[..k]` keyed by ID; a later fighter with the
      same ID overwrites an earlier one, as `Map.set` does. */
  function PowerTableUpTo(pool: seq<Fighter>, k: nat): map<int, real>
    requires k <= |pool|
  {
    if k == 0 then map[] else PowerTableUpTo(pool, k - 1)[pool[k - 1].id := Power(pool, k - 1)]
  }

  function PowerTable(pool: seq<Fighter>): map<int, real> {
    PowerTableUpTo(pool, |pool|)
  }

  predicate UniqueIds(pool: seq<Fighter>) {
    forall i, j :: 0 <= i < j < |pool| ==> pool[i].id != pool[j].id
  }

  lemma {:induction false} PowerTableUpToLookup(pool: seq<Fighter>, k: nat, i: nat)
    requires UniqueIds(pool) && i < k <= |pool|
    ensures pool[i].id in PowerTableUpTo(pool, k)
    ensures PowerTableUpTo(pool, k)[pool[i].id] == Power(pool, i)
  {
    if i < k - 1 {
      PowerTableUpToLookup(pool, k - 1, i);
    }
  }

  /** With unique IDs the table holds each fighter's own power score. */
  lemma PowerTableLookup(pool: seq<Fighter>, i: nat)
    requires UniqueIds(pool) && i < |pool|
    ensures pool[i].id in PowerTable(pool)
    ensures PowerTable(pool)[pool[i].id] == Power(pool, i)
  {
    PowerTableUpToLookup(pool, |pool|, i);
  }

  /** The four sort keys of a fighter. */
  datatype RankKey = RankKey(power: real, rate: real, total: real, name: string)

  /** A missing power reads as 0 (`power.get(a.ID) || 0`). */
  function KeyOf(table: map<int, real>, f: Fighter): RankKey {
    RankKey(if f.id in table then table[f.id] else 0.0, RecordRate(f), TotalStats(f), f.name)
  }

  /** Whether key `a` ranks strictly ahead of key `b`: higher power, then
      higher record rate, then higher stat total, then the name first in
      ordinal order. */
  predicate Ahead(a: RankKey, b: RankKey) {
    || a.power > b.power
    || (a.power == b.power && a.rate > b.rate)
    || (a.power == b.power && a.rate == b.rate && a.total > b.total)
    || (a.power == b.power && a.rate == b.rate && a.total == b.total && Text.StrLess(a.name, b.name))
  }

  lemma AheadIrreflexive(a: RankKey)
    ensures !Ahead(a, a)
  {
    Text.StrLessIrreflexive(a.name);
  }

  lemma AheadTransitive(a: RankKey, b: RankKey, c: RankKey)
    requires Ahead(a, b) && Ahead(b, c)
    ensures Ahead(a, c)
  {
    if a.power == b.power == c.power && a.rate == b.rate == c.rate && a.total == b.total == c.total {
      Text.StrLessTransitive(a.name, b.name, c.name);
    }
  }

  /** The tie-break chain is a strict total order on keys: two keys that
      differ in any field are ordered one way or the other, never both. */
  lemma AheadTotal(a: RankKey, b: RankKey)
    ensures a != b ==> Ahead(a, b) || Ahead(b, a)
    ensures !(Ahead(a, b) && Ahead(b, a))
  {
    Text.StrLessTotal(a.name, b.name);
    Text.StrLessAsymmetric(a.name, b.name);
  }

  /** No fighter of `s` ranks strictly ahead of one placed before it. */
  predicate RankSorted(table: map<int, real>, s: seq<Fighter>) {
    forall i, j :: 0 <= i < j < |s| ==> !Ahead(KeyOf(table, s[j]), KeyOf(table, s[i]))
  }

  lemma SortedCons(table: map<int, real>, f: Fighter, s: seq<Fighter>)
    requires RankSorted(table, s)
    requires forall j :: 0 <= j < |s| ==> !Ahead(KeyOf(table, s[j]), KeyOf(table, f))
    ensures RankSorted(table, [f] + s)
  {
    var r := [f] + s;
    forall i, j | 0 <= i < j < |r|
      ensures !Ahead(KeyOf(table, r[j]), KeyOf(table, r[i]))
    {
      if i > 0 {
        assert r[i] == s[i - 1] && r[j] == s[j - 1];
      } else {
        assert r[j] == s[j - 1];
      }
    }
  }

  /** Inserts `f` into a ranked sequence after every fighter it does not rank
      strictly ahead of. */
  function Insert(table: map<int, real>, s: seq<Fighter>, f: Fighter): (r: seq<Fighter>)
    requires RankSorted(table, s)
    ensures multiset(r) == multiset(s) + multiset{f}
    ensures RankSorted(table, r)
    decreases |s|, 1
  {
    if |s| == 0 then [f]
    else if Ahead(KeyOf(table, f), KeyOf(table, s[0])) then
      assert forall j :: 0 <= j < |s| ==> !Ahead(KeyOf(table, s[j]), KeyOf(table, f)) by {
        forall j | 0 <= j < |s|
          ensures !Ahead(KeyOf(table, s[j]), KeyOf(table, f))
        {
          AheadTotal(KeyOf(table, f), KeyOf(table, s[0]));
          if j > 0 && Ahead(KeyOf(table, s[j]), KeyOf(table, f)) {
            AheadTransitive(KeyOf(table, s[j]), KeyOf(table, f), KeyOf(table, s[0]));
          }
        }
      }
      SortedCons(table, f, s);
      [f] + s
    else
      InsertBehind(table, s, f)
  }

  /** The case of `Insert` where `f` goes behind the head of `s`. */
  function InsertBehind(table: map<int, real>, s: seq<Fighter>, f: Fighter): (r: seq<Fighter>)
    requires RankSorted(table, s) && |s| > 0
    requires !Ahead(KeyOf(table, f), KeyOf(table, s[0]))
    ensures multiset(r) == multiset(s) + multiset{f}
    ensures RankSorted(table, r)
    decreases |s|, 0
  {
    var rest := Insert(table, s[1..], f);
    assert s == [s[0]] + s[1..];
    HeadFirst(table, s, f, rest);
    SortedCons(table, s[0], rest);
    [s[0]] + rest
  }

  /** Nothing of `s`'s tail, nor `f`, ranks ahead of the head of `s`. */
  lemma HeadFirst(table: map<int, real>, s: seq<Fighter>, f: Fighter, rest: seq<Fighter>)
    requires RankSorted(table, s) && |s| > 0
    requires !Ahead(KeyOf(table, f), KeyOf(table, s[0]))
    requires multiset(rest) == multiset(s[1..]) + multiset{f}
    ensures forall j :: 0 <= j < |rest| ==> !Ahead(KeyOf(table, rest[j]), KeyOf(table, s[0]))
  {
    forall j | 0 <= j < |rest|
      ensures !Ahead(KeyOf(table, rest[j]), KeyOf(table, s[0]))
    {
      assert rest[j] in multiset(rest);
      if rest[j] != f {
        assert rest[j] in s[1..];
        var k :| 0 <= k < |s[1..]| && s[1..][k] == rest[j];
        assert s[k + 1] == rest[j];
      }
    }
  }

  /** The fighters of key `k` among `f`, as a sequence of at most one. */
  function TieOf(table: map<int, real>, f: Fighter, k: RankKey): seq<Fighter> {
    if KeyOf(table, f) == k then [f] else []
  }

  /** The fighters of `s` whose four sort keys are exactly `k`, in their
      order in `s`: the fighters the comparator cannot tell apart. */
  function Ties(table: map<int, real>, s: seq<Fighter>, k: RankKey): seq<Fighter> {
    if |s| == 0 then []
    else TieOf(table, s[0], k) + Ties(table, s[1..], k)
  }

  lemma {:induction false} TiesAppend(table: map<int, real>, a: seq<Fighter>, b: seq<Fighter>, k: RankKey)
    ensures Ties(table, a + b, k) == Ties(table, a, k) + Ties(table, b, k)
  {
    if |a| == 0 {
      assert a + b == b;
    } else {
      assert (a + b)[0] == a[0] && (a + b)[1..] == a[1..] + b;
      TiesAppend(table, a[1..], b, k);
      Seqs.Assoc(TieOf(table, a[0], k), Ties(table, a[1..], k), Ties(table, b, k));
    }
  }

  /** In a ranked sequence nothing shares the key of a fighter that ranks
      ahead of its head. */
  lemma {:induction false} NoTiesBelow(table: map<int, real>, s: seq<Fighter>, f: Fighter)
    requires RankSorted(table, s) && |s| > 0
    requires Ahead(KeyOf(table, f), KeyOf(table, s[0]))
    ensures Ties(table, s, KeyOf(table, f)) == []
  {
    var k := KeyOf(table, f);
    assert KeyOf(table, s[0]) != k by {
      AheadIrreflexive(k);
    }
    if |s| > 1 {
      var t := s[1..];
      assert RankSorted(table, t);
      assert !Ahead(KeyOf(table, t[0]), KeyOf(table, s[0]));
      AheadTotal(KeyOf(table, t[0]), KeyOf(table, s[0]));
      if !Ahead(k, KeyOf(table, t[0])) {
        AheadTotal(k, KeyOf(table, t[0]));
        if KeyOf(table, t[0]) != k {
          AheadTransitive(KeyOf(table, t[0]), k, KeyOf(table, s[0]));
        }
      }
      NoTiesBelow(table, t, f);
    }
  }

  /** Inserting keeps the fighters of every key in their order and puts the
      new one after those of its own key. */
  lemma {:induction false} InsertTies(table: map<int, real>, s: seq<Fighter>, f: Fighter, k: RankKey)
    requires RankSorted(table, s)
    ensures Ties(table, Insert(table, s, f), k) == Ties(table, s, k) + TieOf(table, f, k)
    decreases |s|
  {
    if |s| == 0 {
      assert Insert(table, s, f) == [f];
    } else if Ahead(KeyOf(table, f), KeyOf(table, s[0])) {
      InsertTiesFront(table, s, f, k);
    } else {
      assert RankSorted(table, s[1..]);
      InsertTies(table, s[1..], f, k);
      InsertTiesBehind(table, s, f, k);
    }
  }

  lemma InsertTiesFront(table: map<int, real>, s: seq<Fighter>, f: Fighter, k: RankKey)
    requires RankSorted(table, s) && |s| > 0
    requires Ahead(KeyOf(table, f), KeyOf(table, s[0]))
    ensures Ties(table, Insert(table, s, f), k) == Ties(table, s, k) + TieOf(table, f, k)
  {
    assert Insert(table, s, f) == [f] + s;
    TiesAppend(table, [f], s, k);
    assert Ties(table, [f], k) == TieOf(table, f, k);
    if KeyOf(table, f) == k {
      NoTiesBelow(table, s, f);
    }
  }

  lemma InsertTiesBehind(table: map<int, real>, s: seq<Fighter>, f: Fighter, k: RankKey)
    requires RankSorted(table, s) && |s| > 0
    requires !Ahead(KeyOf(table, f), KeyOf(table, s[0]))
    requires RankSorted(table, s[1..])
    requires Ties(table, Insert(table, s[1..], f), k) == Ties(table, s[1..], k) + TieOf(table, f, k)
    ensures Ties(table, Insert(table, s, f), k) == Ties(table, s, k) + TieOf(table, f, k)
  {
    var rest := Insert(table, s[1..], f);
    assert Insert(table, s, f) == [s[0]] + rest;
    var head := TieOf(table, s[0], k);
    assert Ties(table, [s[0]] + rest, k) == head + Ties(table, rest, k) by {
      TiesAppend(table, [s[0]], rest, k);
    }
    assert Ties(table, s, k) == head + Ties(table, s[1..], k);
    Seqs.Assoc(head, Ties(table, s[1..], k), TieOf(table, f, k));
  }

  /** Stable insertion sort of `s` by rank. */
  function Sort(table: map<int, real>, s: seq<Fighter>): (r: seq<Fighter>)
    ensures multiset(r) == multiset(s)
    ensures RankSorted(table, r)
  {
    if |s| == 0 then []
    else
      assert s == s[..|s| - 1] + [s[|s| - 1]];
      Insert(table, Sort(table, s[..|s| - 1]), s[|s| - 1])
  }

  /** The sort is stable: fighters the comparator cannot tell apart keep
      their order in the input. */
  lemma {:induction false} SortStable(table: map<int, real>, s: seq<Fighter>, k: RankKey)
    ensures Ties(table, Sort(table, s), k) == Ties(table, s, k)
  {
    if |s| > 0 {
      var pre, f := s[..|s| - 1], s[|s| - 1];
      assert s == pre + [f];
      var sorted := Sort(table, pre);
      assert Sort(table, s) == Insert(table, sorted, f);
      SortStable(table, pre, k);
      InsertTies(table, sorted, f, k);
      TiesAppend(table, pre, [f], k);
      assert Ties(table, [f], k) == TieOf(table, f, k);
    }
  }

  /** `rankByStatPower`: a pool of at most one fighter is returned as is;
      otherwise the result is a permutation of the pool in which no fighter
      ranks strictly ahead of an earlier one, and fighters tied on all four
      keys keep their pool order, as the stable `Array.prototype.sort`
      keeps them. */
  function RankByStatPower(pool: seq<Fighter>): (r: seq<Fighter>)
    ensures |pool| <= 1 ==> r == pool
    ensures multiset(r) == multiset(pool)
    ensures |pool| > 1 ==> RankSorted(PowerTable(pool), r)
    ensures forall k :: Ties(PowerTable(pool), r, k) == Ties(PowerTable(pool), pool, k)
  {
    if |pool| <= 1 then pool
    else
      forall k
        ensures Ties(PowerTable(pool), Sort(PowerTable(pool), pool), k) == Ties(PowerTable(pool), pool, k)
      {
        SortStable(PowerTable(pool), pool, k);
      }
      Sort(PowerTable(pool), pool)
  }

  /** Ranking in terms of the power scores themselves: with unique IDs, a
      fighter placed before another has at least its power, and on equal
      power at least its record rate, and on equal rate at least its stat
      total, and on equal total a name not after it. */
  lemma RankOrder(pool: seq<Fighter>, i: nat, j: nat, pi: nat, pj: nat)
    requires UniqueIds(pool) && |pool| > 1
    requires i < j < |RankByStatPower(pool)|
    requires pi < |pool| && pool[pi] == RankByStatPower(pool)[i]
    requires pj < |pool| && pool[pj] == RankByStatPower(pool)[j]
    ensures Power(pool, pi) >= Power(pool, pj)
    ensures Power(pool, pi) == Power(pool, pj) ==> RecordRate(pool[pi]) >= RecordRate(pool[pj])
    ensures Power(pool, pi) == Power(pool, pj) && RecordRate(pool[pi]) == RecordRate(pool[pj])
            ==> TotalStats(pool[pi]) >= TotalStats(pool[pj])
    ensures Power(pool, pi) == Power(pool, pj) && RecordRate(pool[pi]) == RecordRate(pool[pj])
            && TotalStats(pool[pi]) == TotalStats(pool[pj])
            ==> !Text.StrLess(pool[pj].name, pool[pi].name)
  {
    PowerTableLookup(pool, pi);
    PowerTableLookup(pool, pj);
  }

  const FighterA := Fighter(1, "A", "", false, Some(80.0), Some(50.0), Some(50.0), Some(50.0),
                            Some(0.0), Some(0.0), Some(0.0))
  const FighterB := Fighter(2, "B", "", false, Some(20.0), Some(50.0), Some(50.0), Some(50.0),
                            Some(0.0), Some(0.0), Some(0.0))

  /** Worked example: A beats B on strength 80 to 20 and ties the rest, so
      its win chance is (0.8 + 0.5 + 0.5 + 0.5) / 4. */
  lemma ExampleStatProb()
    ensures StatProb(FighterA, FighterB) == 0.575
    ensures StatProb(FighterB, FighterA) == 0.425
  {
    var xs, ys := Stats(FighterA), Stats(FighterB);
    assert xs == [80.0, 50.0, 50.0, 50.0] && ys == [20.0, 50.0, 50.0, 50.0];
    assert Qualifying(xs, ys) == 4;
    assert RatioSum(xs[3..], ys[3..]) == 0.5;
    assert RatioSum(xs[2..], ys[2..]) == 1.0;
    assert RatioSum(xs[1..], ys[1..]) == 1.5;
    assert RatioSum(xs, ys) == 2.3;
    StatProbComplement(FighterA, FighterB);
  }

  /** Worked example: the pool [B, A] ranks as [A, B]. */
  lemma ExampleRank()
    ensures RankByStatPower([FighterB, FighterA]) == [FighterA, FighterB]
  {
    var pool := [FighterB, FighterA];
    ExamplePowerTable();
    var table := PowerTable(pool);
    assert Ahead(KeyOf(table, FighterA), KeyOf(table, FighterB));
    assert Sort(table, pool[..1]) == [FighterB];
  }

  /** The power table of the pool [B, A]. */
  lemma ExamplePowerTable()
    ensures PowerTable([FighterB, FighterA]) == map[2 := 0.425][1 := 0.575]
  {
    var pool := [FighterB, FighterA];
    ExamplePowers();
    assert PowerTableUpTo(pool, 1) == map[2 := 0.425];
  }

  lemma ExamplePowers()
    ensures Power([FighterB, FighterA], 0) == 0.425
    ensures Power([FighterB, FighterA], 1) == 0.575
  {
    var pool := [FighterB, FighterA];
    ExampleStatProb();
    assert Power(pool, 0) == 0.425 by {
      assert RowSum(pool, 0, 1) == 0.0;
      assert RowSum(pool, 0, 2) == StatProb(FighterB, FighterA);
    }
    assert RowSum(pool, 1, 1) == StatProb(FighterA, FighterB);
    assert RowSum(pool, 1, 2) == StatProb(FighterA, FighterB);
  }
}
