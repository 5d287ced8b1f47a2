/** The countdown shown during the live draft: the `MM:SS.CS` formatter and
    the timer's duration, end time and running state. The clock
    (`performance.now()`) is a parameter of every operation that reads it. */
module Timer {
  import opened Wrappers
  import opened Decimal

  /** `pad2` on a non-negative integer: a leading zero below ten. */
  function Pad2(n: nat): (r: string)
    ensures |r| >= 2 && AllDigits(r)
    ensures n < 100 ==> |r| == 2
    ensures n >= 10 ==> r == NatToString(n)
    ensures ParseNat(r) == n
  {
    var ds := NatToString(n);
    if n < 10 then
      ReadDigitsAppend(0, "0", ds);
      ParseNatToString(n);
      "0" + ds
    else
      ParseNatToString(n);
      ds
  }

  /** `clamp`, that is `Math.max(lo, Math.min(hi, v))`. */
  function Clamp(v: real, lo: real, hi: real): (r: real)
    ensures r >= lo
    ensures lo <= hi ==> r <= hi
    ensures lo <= v <= hi ==> r == v
    ensures v < lo ==> r == lo
    ensures lo <= hi < v ==> r == hi
  {
    var low := if hi < v then hi else v;
    if lo > low then lo else low
  }

  /** The minutes, seconds and hundredths of `formatTime`. */
  datatype Clock = Clock(minutes: nat, seconds: nat, centis: nat)

  /** The fields of a time: seconds below 60, hundredths below 100, and
      together the whole milliseconds rounded down to a hundredth. */
  function Fields(ms: real): (c: Clock)
    ensures c.seconds < 60 && c.centis < 100
    ensures c.minutes * 60000 + c.seconds * 1000 + c.centis * 10 == Whole(ms) - Whole(ms) % 10
  {
    var total := Whole(ms);
    Sexagesimal(total);
    Clock(total / 60000, total % 60000 / 1000, total % 1000 / 10)
  }

  lemma Sexagesimal(total: nat)
    ensures total / 60000 * 60000 + total % 60000 / 1000 * 1000 + total % 1000 / 10 * 10 == total - total % 10
    ensures total % 60000 / 1000 < 60 && total % 1000 / 10 < 100
  {
    NestedMod(total);
    var r, r' := total % 60000, total % 1000;
    assert total / 60000 * 60000 == total - r;
    assert r / 1000 * 1000 == r - r';
    assert r' / 10 * 10 == r' - total % 10;
  }

  /** Remainders by nested moduli. */
  lemma NestedMod(a: nat)
    ensures a % 60000 % 1000 == a % 1000
    ensures a % 1000 % 10 == a % 10
  {
    var q, r := a / 60000, a % 60000;
    assert a == (q * 60 + r / 1000) * 1000 + r % 1000;
    var p, t := a / 1000, a % 1000;
    assert a == (p * 100 + t / 10) * 10 + t % 10;
  }

  /** `formatTime`: "MM:SS.CS". */
  function FormatTime(ms: real): (r: string)
    ensures |r| >= 8 && r[|r| - 3] == '.' && r[|r| - 6] == ':'
    ensures Fields(ms).minutes < 100 ==> |r| == 8
  {
    var c := Fields(ms);
    Pad2(c.minutes) + ":" + Pad2(c.seconds) + "." + Pad2(c.centis)
  }

  /** Reads a "MM:SS.CS" string back, or `None` when it is not of that
      form. */
  function ReadTime(s: string): Option<Clock> {
    match Field(s)
    case None => None
    case Some((m, colon, rest)) =>
      if colon != ':' then None
      else
        match Field(rest)
        case None => None
        case Some((sec, dot, rest')) =>
          if dot != '.' then None
          else
            match Digits(rest')
            case None => None
            case Some(cs) => Some(Clock(m, sec, cs))
  }

  /** Round trip: the display reads back as the fields it was made from. */
  lemma FormatTimeRoundTrip(ms: real)
    ensures ReadTime(FormatTime(ms)) == Some(Fields(ms))
  {
    var c := Fields(ms);
    var a, b, d := Pad2(c.minutes), Pad2(c.seconds), Pad2(c.centis);
    var rest := b + ['.'] + d;
    assert FormatTime(ms) == a + [':'] + rest;
    FieldOfDigits(a, ':', rest);
    FieldOfDigits(b, '.', d);
    DigitsOf(d);
  }

  /** What a display stands for, in milliseconds. */
  function ClockMs(c: Clock): nat {
    c.minutes * 60000 + c.seconds * 1000 + c.centis * 10
  }

  /** The display loses only the milliseconds below a hundredth: reading it
      back gives the time rounded down to a multiple of ten. */
  lemma FormatTimeValue(ms: real)
    requires ms >= 0.0
    ensures ReadTime(FormatTime(ms)).Some?
    ensures var v := ClockMs(ReadTime(FormatTime(ms)).value);
            v % 10 == 0 && v as real <= ms < v as real + 10.0
  {
    FormatTimeRoundTrip(ms);
  }

  /** Nothing left, or less than nothing, shows as zeros. */
  lemma FormatTimeZero(ms: real)
    requires ms <= 0.0
    ensures FormatTime(ms) == "00:00.00"
  {
    assert NatToString(0) == "0";
  }

  /** A time of 100 minutes or more shows all its minute digits. */
  lemma FormatTimeLongMinutes(ms: real)
    requires Fields(ms).minutes >= 100
    ensures |FormatTime(ms)| > 8
  {
  }

  // ---------------------------------------------------------------------------
  // The timer

  /** The state of `createFancyTimer`: the duration, the end time, whether
      it counts down, and whether an animation frame is pending (`raf`). */
  datatype State = State(durationMs: real, endAt: real, running: bool, scheduled: bool)

  const Initial := State(0.0, 0.0, false, false)

  /** The state the operations keep: a duration that is not negative, and
      a pending frame exactly while the timer runs. */
  predicate Valid(t: State) {
    t.durationMs >= 0.0 && (t.running <==> t.scheduled)
  }

  /** `setDurationMs`: a value that does not convert to a number (`None`),
      a zero or a negative value all give 0. */
  function SetDurationMs(t: State, ms: Option<real>): (r: State)
    ensures r.durationMs >= 0.0
    ensures ms.None? ==> r.durationMs == 0.0
    ensures ms.Some? && ms.value >= 0.0 ==> r.durationMs == ms.value
    ensures ms.Some? && ms.value < 0.0 ==> r.durationMs == 0.0
    ensures r.endAt == t.endAt && r.running == t.running && r.scheduled == t.scheduled
  {
    var x := ms.GetOr(0.0);
    t.(durationMs := if x > 0.0 then x else 0.0)
  }

  /** `start`: with a positive duration the countdown restarts from `now`
      and the timer runs; otherwise nothing changes. */
  function Start(t: State, now: real): (r: State)
    ensures t.durationMs <= 0.0 ==> r == t
    ensures t.durationMs > 0.0 ==> r.endAt == now + t.durationMs && r.running
    ensures t.durationMs > 0.0 && !t.running ==> r.scheduled
    ensures r.durationMs == t.durationMs
    ensures t.running ==> r.scheduled == t.scheduled
  {
    if t.durationMs <= 0.0 then t
    else
      var r := t.(endAt := now + t.durationMs);
      if !t.running then r.(running := true, scheduled := true) else r
  }

  /** `reset`: optionally a new duration (never negative), then the
      countdown restarts from `now` and the timer runs, even with a zero
      duration. */
  function Reset(t: State, now: real, newDuration: Option<real>): (r: State)
    ensures newDuration.None? ==> r.durationMs == t.durationMs
    ensures newDuration.Some? ==> r.durationMs == if newDuration.value > 0.0 then newDuration.value else 0.0
    ensures r.endAt == now + r.durationMs
    ensures r.running
    ensures t.running ==> r.scheduled == t.scheduled
    ensures !t.running ==> r.scheduled
  {
    var d := if newDuration.Some? then (if newDuration.value > 0.0 then newDuration.value else 0.0)
             else t.durationMs;
    var r := t.(durationMs := d, endAt := now + d);
    if !t.running then r.(running := true, scheduled := true) else r
  }

  /** `stop`: cancels the pending frame and stops. */
  function Stop(t: State): (r: State)
    ensures !r.running && !r.scheduled
    ensures r.durationMs == t.durationMs && r.endAt == t.endAt
  {
    t.(running := false, scheduled := false)
  }

  /** What one animation frame shows: the time left, its `MM:SS.CS` text,
      the fraction of the bar, and whether the urgent style is on. */
  datatype Frame = Frame(remainMs: real, digits: string, fraction: real, urgent: bool)

  /** The share of the duration still left. */
  function Fraction(remain: real, d: real): (f: real)
    requires 0.0 <= remain <= d && d > 0.0
    ensures 0.0 <= f <= 1.0
    ensures f * d == remain
  {
    var f := remain / d;
    assert f * d == remain;
    assert (f - 1.0) * d == remain - d <= 0.0;
    f
  }

  /** `update`, one animation frame at time `now`: shows the time left and,
      once nothing is left, stops; otherwise it asks for the next frame. */
  function Update(t: State, now: real): (r: (State, Frame))
    requires t.durationMs >= 0.0
    ensures 0.0 <= r.1.remainMs <= t.durationMs
    ensures 0.0 <= t.endAt - now <= t.durationMs ==> r.1.remainMs == t.endAt - now
    ensures t.endAt - now < 0.0 ==> r.1.remainMs == 0.0
    ensures t.endAt - now > t.durationMs ==> r.1.remainMs == t.durationMs
    ensures 0.0 <= r.1.fraction <= 1.0
    ensures t.durationMs > 0.0 ==> r.1.fraction == Fraction(r.1.remainMs, t.durationMs)
    ensures r.1.digits == FormatTime(r.1.remainMs)
    ensures r.1.urgent <==> r.1.remainMs <= 10000.0
    ensures r.1.remainMs <= 0.0 ==> !r.0.running && !r.0.scheduled
    ensures r.1.remainMs > 0.0 ==> r.0.running == t.running && r.0.scheduled
    ensures r.0.durationMs == t.durationMs && r.0.endAt == t.endAt
  {
    var remain := Clamp(t.endAt - now, 0.0, t.durationMs);
    var fraction := if t.durationMs > 0.0 then Fraction(remain, t.durationMs) else 0.0;
    var frame := Frame(remain, FormatTime(remain), fraction, remain <= 10000.0);
    if remain <= 0.0 then (t.(running := false, scheduled := false), frame)
    else (t.(scheduled := true), frame)
  }

  /** Every operation keeps the timer's state valid; a frame only runs while
      one is pending. */
  lemma OperationsKeepValid(t: State, now: real, ms: Option<real>)
    requires Valid(t)
    ensures Valid(SetDurationMs(t, ms))
    ensures Valid(Start(t, now))
    ensures Valid(Reset(t, now, ms))
    ensures Valid(Stop(t))
    ensures t.scheduled ==> Valid(Update(t, now).0)
  {
  }

  lemma InitialValid()
    ensures Valid(Initial) && !Initial.running
  {
  }

  /** The countdown after a reset: `elapsed` milliseconds later the frame
      shows the duration minus the elapsed time, down to zero, and the
      timer stops exactly when nothing is left. */
  lemma CountdownAfterReset(t: State, now: real, d: Option<real>, elapsed: real)
    requires Valid(t) && elapsed >= 0.0
    ensures var r := Reset(t, now, d);
            var u := Update(r, now + elapsed);
            && u.1.remainMs == (if r.durationMs - elapsed > 0.0 then r.durationMs - elapsed else 0.0)
            && (u.0.running <==> r.durationMs > elapsed)
  {
  }

  /** The countdown after a start with a positive duration: `elapsed`
      milliseconds later the frame shows the duration minus the elapsed
      time, down to zero, and the timer stops exactly when nothing is left. */
  lemma CountdownAfterStart(t: State, now: real, elapsed: real)
    requires Valid(t) && t.durationMs > 0.0 && elapsed >= 0.0
    ensures Update(Start(t, now), now + elapsed).1.remainMs
            == if t.durationMs - elapsed > 0.0 then t.durationMs - elapsed else 0.0
    ensures Update(Start(t, now), now + elapsed).0.running <==> t.durationMs > elapsed
  {
    var r := Start(t, now);
    assert r.durationMs == t.durationMs && r.endAt - (now + elapsed) == t.durationMs - elapsed;
    var u := Update(r, now + elapsed);
    if elapsed <= t.durationMs {
      assert u.1.remainMs == t.durationMs - elapsed;
    } else {
      assert u.1.remainMs == 0.0;
    }
  }

  /** A frame after the end time shows zeros and stops the timer. */
  lemma UpdateAfterEnd(t: State, now: real)
    requires Valid(t) && now >= t.endAt
    ensures Update(t, now).1.digits == "00:00.00"
    ensures !Update(t, now).0.running
  {
    FormatTimeZero(Update(t, now).1.remainMs);
  }
}
