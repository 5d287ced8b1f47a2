/** The pacing controls of the draft page: the seconds allowed per pick, the
    delay before a scheduled start, and the human-readable duration of the
    estimator (`humanDuration`). */
module Pacing {
  import opened Wrappers
  import opened Decimal

  /** The seconds per pick, `Math.max(1, Math.min(3600, Number(v) || 10))`.
      `None` is an input that converts to `NaN`; like `NaN`, a zero falls
      back to 10. */
  function PickSeconds(v: Option<real>): (r: real)
    ensures 1.0 <= r <= 3600.0
    ensures v.None? || v == Some(0.0) ==> r == 10.0
    ensures v.Some? && v.value != 0.0 && 1.0 <= v.value <= 3600.0 ==> r == v.value
    ensures v.Some? && v.value != 0.0 && v.value < 1.0 ==> r == 1.0
    ensures v.Some? && v.value > 3600.0 ==> r == 3600.0
  {
    var x := if v.None? || v.value == 0.0 then 10.0 else v.value;
    var capped := if x < 3600.0 then x else 3600.0;
    if capped > 1.0 then capped else 1.0
  }

  /** The countdown per pick in milliseconds. */
  function IntervalMs(v: Option<real>): (r: real)
    ensures 1000.0 <= r <= 3600000.0
    ensures r / 1000.0 == PickSeconds(v)
  {
    PickSeconds(v) * 1000.0
  }

  /** The wait before the draft starts: the time left until the chosen start
      `target` (in milliseconds), or nothing when no start time is set or it
      is not a finite date (`None`). */
  function StartDelay(target: Option<int>, now: int): (r: nat)
    ensures target.None? ==> r == 0
    ensures target.Some? && target.value <= now ==> r == 0
    ensures target.Some? && target.value > now ==> now + r == target.value
  {
    if target.Some? && target.value - now > 0 then target.value - now else 0
  }

  /** Whether the start countdown runs at all: only for a start in the
      future. */
  lemma CountdownOnlyForFutureStart(target: Option<int>, now: int)
    ensures StartDelay(target, now) > 0 <==> target.Some? && target.value > now
  {
  }

  /** `parts.join(sep)`. */
  function Join(parts: seq<string>, sep: string): string {
    if |parts| == 0 then ""
    else if |parts| == 1 then parts[0]
    else parts[0] + sep + Join(parts[1..], sep)
  }

  /** The parts of `humanDuration`: hours when there are any, minutes when
      there are any or there are hours, and always the seconds. */
  function DurationParts(s: nat): seq<string> {
    var h := s / 3600;
    var m := s % 3600 / 60;
    var sec := s % 60;
    (if h != 0 then [NatToString(h) + "h"] else [])
      + (if m != 0 || h != 0 then [NatToString(m) + "m"] else [])
      + [NatToString(sec) + "s"]
  }

  /** `humanDuration`: "1h 2m 5s", "2m 5s" or "5s". */
  function HumanDuration(t: real): (r: string)
    ensures |r| >= 2 && r[|r| - 1] == 's'
  {
    var parts := DurationParts(Whole(t));
    assert |parts| > 0 && parts[|parts| - 1][|parts[|parts| - 1]| - 1] == 's';
    JoinEndsWithLast(parts, " ");
    Join(parts, " ")
  }

  lemma {:induction false} JoinEndsWithLast(parts: seq<string>, sep: string)
    requires |parts| > 0
    ensures |Join(parts, sep)| >= |parts[|parts| - 1]|
    ensures Join(parts, sep)[|Join(parts, sep)| - |parts[|parts| - 1]|..] == parts[|parts| - 1]
  {
    if |parts| > 1 {
      JoinEndsWithLast(parts[1..], sep);
      var rest := Join(parts[1..], sep);
      var last := parts[|parts| - 1];
      assert parts[1..][|parts[1..]| - 1] == last;
      var pre := parts[0] + sep;
      assert Join(parts, sep) == pre + rest;
      assert (pre + rest)[|pre + rest| - |last|..] == rest[|rest| - |last|..];
    }
  }

  // ---------------------------------------------------------------------------
  // Reading a duration back

  /** Reads fields with the units `units`, in that order and separated by
      single spaces, each counting sixty of the next; `acc` is the value
      read so far. */
  function ReadUnits(acc: nat, s: string, units: string): Option<nat>
    decreases |units|
  {
    if |units| == 0 then None
    else
      match Field(s)
      case None => None
      case Some((a, u, rest)) =>
        if u != units[0] then None
        else if |units| == 1 then (if rest == [] then Some(acc * 60 + a) else None)
        else if |rest| == 0 || rest[0] != ' ' then None
        else ReadUnits(acc * 60 + a, rest[1..], units[1..])
  }

  /** The number of seconds a `humanDuration` string stands for, or `None`
      when the string is not of that form. */
  function ReadDuration(s: string): Option<nat> {
    var hms := ReadUnits(0, s, "hms");
    var ms := ReadUnits(0, s, "ms");
    if hms.Some? then hms else if ms.Some? then ms else ReadUnits(0, s, "s")
  }

  lemma JoinTwo(a: string, b: string)
    ensures Join([a, b], " ") == a + " " + b
  {
    assert [a, b][1..] == [b];
  }

  lemma JoinThree(a: string, b: string, c: string)
    ensures Join([a, b, c], " ") == a + " " + (b + " " + c)
  {
    assert [a, b, c][1..] == [b, c];
    JoinTwo(b, c);
  }

  /** The three shapes of a duration, by whether there are hours or
      minutes. */
  lemma DurationShape(s: nat)
    ensures var h, m, sec := s / 3600, s % 3600 / 60, s % 60;
            Join(DurationParts(s), " ")
            == if h != 0 then NatToString(h) + "h" + " " + (NatToString(m) + "m" + " " + (NatToString(sec) + "s"))
               else if m != 0 then NatToString(m) + "m" + " " + (NatToString(sec) + "s")
               else NatToString(sec) + "s"
  {
    var h, m, sec := s / 3600, s % 3600 / 60, s % 60;
    if h != 0 {
      JoinThree(NatToString(h) + "h", NatToString(m) + "m", NatToString(sec) + "s");
    } else if m != 0 {
      JoinTwo(NatToString(m) + "m", NatToString(sec) + "s");
    }
  }

  /** A field and a space, then the remaining fields. */
  lemma ReadUnitsNext(acc: nat, n: nat, u: char, us: string, tail: string, acc': nat)
    requires !IsDigit(u) && |us| > 0 && acc' == acc * 60 + n
    ensures ReadUnits(acc, NatToString(n) + [u] + " " + tail, [u] + us) == ReadUnits(acc', tail, us)
  {
    FieldOf(n, u, " " + tail);
    assert NatToString(n) + [u] + " " + tail == NatToString(n) + [u] + (" " + tail);
    assert ([u] + us)[1..] == us;
    assert (" " + tail)[1..] == tail;
  }

  /** The last field. */
  lemma ReadUnitsLast(acc: nat, n: nat, u: char)
    requires !IsDigit(u)
    ensures ReadUnits(acc, NatToString(n) + [u], [u]) == Some(acc * 60 + n)
  {
    FieldOf(n, u, []);
    assert NatToString(n) + [u] + [] == NatToString(n) + [u];
  }

  /** A field whose unit is not the one expected. */
  lemma ReadUnitsMismatch(acc: nat, n: nat, u: char, tail: string, units: string)
    requires !IsDigit(u) && |units| > 0 && units[0] != u
    ensures ReadUnits(acc, NatToString(n) + [u] + tail, units) == None
  {
    FieldOf(n, u, tail);
  }

  lemma ReadHours(h: nat, m: nat, sec: nat)
    ensures ReadDuration(NatToString(h) + "h" + " " + (NatToString(m) + "m" + " " + (NatToString(sec) + "s")))
            == Some(h * 3600 + m * 60 + sec)
  {
    var tail := NatToString(sec) + ['s'];
    var mid := NatToString(m) + ['m'] + " " + tail;
    var str := NatToString(h) + ['h'] + " " + mid;
    ReadThreeUnits(h, m, sec, 'h', 'm', 's', tail, mid, str);
    assert "hms" == ['h', 'm', 's'];
    assert str == NatToString(h) + "h" + " " + (NatToString(m) + "m" + " " + (NatToString(sec) + "s"));
  }

  lemma ReadThreeUnits(a: nat, b: nat, c: nat, u: char, v: char, w: char, tail: string, mid: string, str: string)
    requires !IsDigit(u) && !IsDigit(v) && !IsDigit(w)
    requires tail == NatToString(c) + [w]
    requires mid == NatToString(b) + [v] + " " + tail
    requires str == NatToString(a) + [u] + " " + mid
    ensures ReadUnits(0, str, [u, v, w]) == Some(a * 3600 + b * 60 + c)
  {
    assert [u, v, w] == [u] + [v, w];
    ReadUnitsNext(0, a, u, [v, w], mid, a);
    ReadTwoUnits(a, b, c, v, w, tail, mid);
  }

  lemma ReadTwoUnits(acc: nat, b: nat, c: nat, v: char, w: char, tail: string, mid: string)
    requires !IsDigit(v) && !IsDigit(w)
    requires tail == NatToString(c) + [w]
    requires mid == NatToString(b) + [v] + " " + tail
    ensures ReadUnits(acc, mid, [v, w]) == Some(acc * 3600 + b * 60 + c)
  {
    assert [v, w] == [v] + [w];
    ReadUnitsNext(acc, b, v, [w], tail, acc * 60 + b);
    ReadUnitsLast(acc * 60 + b, c, w);
  }

  lemma ReadMinutes(m: nat, sec: nat)
    ensures ReadDuration(NatToString(m) + "m" + " " + (NatToString(sec) + "s")) == Some(m * 60 + sec)
  {
    var tail := NatToString(sec) + ['s'];
    var str := NatToString(m) + ['m'] + " " + tail;
    assert "ms" == ['m'] + ['s'];
    assert str == NatToString(m) + ['m'] + (" " + tail);
    ReadUnitsMismatch(0, m, 'm', " " + tail, "hms");
    calc {
      ReadUnits(0, str, "ms");
      { ReadUnitsNext(0, m, 'm', ['s'], tail, m); }
      ReadUnits(m, tail, ['s']);
      { ReadUnitsLast(m, sec, 's'); }
      Some(m * 60 + sec);
    }
    assert str == NatToString(m) + "m" + " " + (NatToString(sec) + "s");
  }

  lemma ReadSeconds(sec: nat)
    ensures ReadDuration(NatToString(sec) + "s") == Some(sec)
  {
    var str := NatToString(sec) + ['s'];
    ReadOneUnit(sec, 'h', 'm', 's', str);
    assert "hms" == ['h', 'm', 's'] && "ms" == ['m', 's'] && "s" == ['s'];
  }

  lemma ReadOneUnit(c: nat, u: char, v: char, w: char, str: string)
    requires !IsDigit(w) && u != w && v != w
    requires str == NatToString(c) + [w]
    ensures ReadUnits(0, str, [u, v, w]) == None
    ensures ReadUnits(0, str, [v, w]) == None
    ensures ReadUnits(0, str, [w]) == Some(c)
  {
    assert str == NatToString(c) + [w] + [];
    ReadUnitsMismatch(0, c, w, [], [u, v, w]);
    ReadUnitsMismatch(0, c, w, [], [v, w]);
    ReadUnitsLast(0, c, w);
  }

  /** Round trip: reading the duration back gives the whole seconds it was
      made from; negative and fractional inputs read as their clamped,
      floored value. */
  lemma HumanDurationRoundTrip(t: real)
    ensures ReadDuration(HumanDuration(t)) == Some(Whole(t))
  {
    var s := Whole(t);
    var h, m, sec := s / 3600, s % 3600 / 60, s % 60;
    DurationShape(s);
    SplitSeconds(s);
    if h != 0 {
      ReadHours(h, m, sec);
    } else if m != 0 {
      ReadMinutes(m, sec);
    } else {
      ReadSeconds(sec);
    }
  }

  /** Hours, minutes and seconds make up the whole. */
  lemma SplitSeconds(s: nat)
    ensures s / 3600 * 3600 + s % 3600 / 60 * 60 + s % 60 == s
    ensures s / 3600 == 0 ==> s % 3600 / 60 * 60 + s % 60 == s
    ensures s / 3600 == 0 && s % 3600 / 60 == 0 ==> s % 60 == s
  {
  }

  /** Two estimates print alike exactly when they have the same whole
      seconds. */
  lemma HumanDurationInjective(t: real, u: real)
    ensures HumanDuration(t) == HumanDuration(u) <==> Whole(t) == Whole(u)
  {
    HumanDurationRoundTrip(t);
    HumanDurationRoundTrip(u);
  }

  /** Sample durations: an hour, two minutes and five seconds; a minute on
      the dot; and anything up to zero. */
  lemma ExampleHours()
    ensures HumanDuration(3725.9) == "1h 2m 5s"
  {
    assert Whole(3725.9) == 3725;
    assert NatToString(5) == "5" && NatToString(2) == "2" && NatToString(1) == "1";
    assert 3725 / 3600 == 1 && 3725 % 3600 / 60 == 2 && 3725 % 60 == 5;
    assert NatToString(1) + "h" == "1h" && NatToString(2) + "m" == "2m" && NatToString(5) + "s" == "5s";
    assert DurationParts(3725) == ["1h", "2m", "5s"];
    JoinThree("1h", "2m", "5s");
  }

  lemma ExampleMinute()
    ensures HumanDuration(60.0) == "1m 0s"
  {
    assert NatToString(1) == "1" && NatToString(0) == "0";
    DurationShape(60);
  }

  lemma ExampleNegative()
    ensures HumanDuration(-4.0) == "0s"
  {
    assert NatToString(0) == "0";
    DurationShape(0);
  }

  /** The estimate of `updateEstimate`: the seconds per pick times the
      number of picks, as a duration. */
  function Estimate(v: Option<real>, picks: nat): (r: string)
    ensures ReadDuration(r) == Some(Whole(PickSeconds(v) * picks as real))
  {
    HumanDurationRoundTrip(PickSeconds(v) * picks as real);
    HumanDuration(PickSeconds(v) * picks as real)
  }
}
