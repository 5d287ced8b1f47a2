/** Decimal digit strings: how JavaScript prints a non-negative integer
    (`String(n)`, a template literal `${n}`), and a scanner that reads digits
    back, used to state the round trips of the formatters built on them. */
module Decimal {
  import opened Wrappers

  predicate IsDigit(c: char) {
    '0' <= c <= '9'
  }

  predicate AllDigits(s: string) {
    forall i :: 0 <= i < |s| ==> IsDigit(s[i])
  }

  function DigitValue(c: char): nat
    requires IsDigit(c)
  {
    c as int - '0' as int
  }

  function DigitChar(d: nat): (c: char)
    requires d < 10
    ensures IsDigit(c) && DigitValue(c) == d
  {
    ('0' as int + d) as char
  }

  /** The whole units of a duration, `Math.max(0, Math.floor(x))`: the
      seconds of an estimate and the milliseconds of the timer alike. */
  function Whole(x: real): (n: nat)
    ensures x < 0.0 ==> n == 0
    ensures x >= 0.0 ==> n as real <= x < n as real + 1.0
  {
    if x.Floor < 0 then 0 else x.Floor
  }

  /** The shortest decimal spelling of `n`: no sign, no leading zero. */
  function NatToString(n: nat): (s: string)
    ensures |s| >= 1 && AllDigits(s)
    ensures s[0] == '0' ==> n == 0
    ensures n < 10 <==> |s| == 1
    ensures n < 100 <==> |s| <= 2
    decreases n
  {
    if n < 10 then [DigitChar(n)] else NatToString(n / 10) + [DigitChar(n % 10)]
  }

  /** Reads the digits `ds` after an already-read value `acc`. */
  function ReadDigits(acc: nat, ds: string): nat
    requires AllDigits(ds)
    decreases |ds|
  {
    if |ds| == 0 then acc else ReadDigits(acc * 10 + DigitValue(ds[0]), ds[1..])
  }

  /** The value of a digit string, leading zeros allowed. */
  function ParseNat(ds: string): nat
    requires AllDigits(ds)
  {
    ReadDigits(0, ds)
  }

  lemma {:induction false} ReadDigitsAppend(acc: nat, a: string, b: string)
    requires AllDigits(a) && AllDigits(b)
    ensures ReadDigits(acc, a + b) == ReadDigits(ReadDigits(acc, a), b)
    decreases |a|
  {
    if |a| == 0 {
      assert a + b == b;
    } else {
      assert (a + b)[1..] == a[1..] + b;
      ReadDigitsAppend(acc * 10 + DigitValue(a[0]), a[1..], b);
    }
  }

  /** Reading the printed form of `n` gives `n` back. */
  lemma {:induction false} ParseNatToString(n: nat)
    ensures ParseNat(NatToString(n)) == n
    decreases n
  {
    if n >= 10 {
      ParseNatToString(n / 10);
      var d := [DigitChar(n % 10)];
      ReadDigitsAppend(0, NatToString(n / 10), d);
      assert d[1..] == [];
      assert ReadDigits(n / 10, d) == ReadDigits(n / 10 * 10 + n % 10, []);
    }
  }

  /** Printing is injective: distinct numbers never print alike. */
  lemma NatToStringInjective(m: nat, n: nat)
    requires NatToString(m) == NatToString(n)
    ensures m == n
  {
    ParseNatToString(m);
    ParseNatToString(n);
  }

  /** Consumes the longest run of digits at the head of `s`, returning the
      value read and what follows. */
  function Scan(acc: nat, s: string): (r: (nat, string))
    ensures |r.1| <= |s|
    decreases |s|
  {
    if |s| > 0 && IsDigit(s[0]) then Scan(acc * 10 + DigitValue(s[0]), s[1..]) else (acc, s)
  }

  /** Scanning a digit string followed by a non-digit stops exactly at the
      non-digit, having read the digits' value. */
  lemma {:induction false} ScanDigits(acc: nat, ds: string, rest: string)
    requires AllDigits(ds)
    requires |rest| == 0 || !IsDigit(rest[0])
    ensures Scan(acc, ds + rest) == (ReadDigits(acc, ds), rest)
    decreases |ds|
  {
    if |ds| == 0 {
      assert ds + rest == rest;
    } else {
      assert (ds + rest)[1..] == ds[1..] + rest;
      ScanDigits(acc * 10 + DigitValue(ds[0]), ds[1..], rest);
    }
  }

  /** Scanning what `Scan` consumed: the part it skipped is a digit string
      whose value it returned. */
  lemma {:induction false} ScanConsumes(acc: nat, s: string)
    ensures AllDigits(s[..|s| - |Scan(acc, s).1|])
    ensures s == s[..|s| - |Scan(acc, s).1|] + Scan(acc, s).1
    ensures Scan(acc, s).0 == ReadDigits(acc, s[..|s| - |Scan(acc, s).1|])
    ensures |Scan(acc, s).1| > 0 ==> !IsDigit(Scan(acc, s).1[0])
    decreases |s|
  {
    if |s| > 0 && IsDigit(s[0]) {
      var acc' := acc * 10 + DigitValue(s[0]);
      ScanConsumes(acc', s[1..]);
      var sc := Scan(acc', s[1..]);
      ScanStep(acc, s, sc.0, sc.1, |s[1..]| - |sc.1|);
    } else {
      assert s[..0] == [];
    }
  }

  /** ScanConsumes for a leading digit, from the facts about the rest. */
  lemma ScanStep(acc: nat, s: string, v: nat, rest: string, k: nat)
    requires |s| > 0 && IsDigit(s[0]) && k <= |s| - 1
    requires (v, rest) == Scan(acc * 10 + DigitValue(s[0]), s[1..]) && k == |s| - 1 - |rest|
    requires AllDigits(s[1..][..k]) && s[1..] == s[1..][..k] + rest
    requires v == ReadDigits(acc * 10 + DigitValue(s[0]), s[1..][..k])
    ensures Scan(acc, s) == (v, rest)
    ensures AllDigits(s[..k + 1]) && s == s[..k + 1] + rest
    ensures v == ReadDigits(acc, s[..k + 1])
  {
    var head := s[..k + 1];
    assert head == [s[0]] + s[1..][..k];
    assert head[1..] == s[1..][..k];
  }

  /** One field of a formatted number: a non-empty run of digits and the
      character after it, with what follows that character. */
  function Field(s: string): Option<(nat, char, string)> {
    var sc := Scan(0, s);
    if |sc.1| == |s| || |sc.1| == 0 then None
    else Some((sc.0, sc.1[0], sc.1[1..]))
  }

  /** A digit string followed by a non-digit reads back as its value, that
      character and the rest. */
  lemma FieldOfDigits(ds: string, u: char, rest: string)
    requires |ds| > 0 && AllDigits(ds) && !IsDigit(u)
    ensures Field(ds + [u] + rest) == Some((ParseNat(ds), u, rest))
  {
    var tail := [u] + rest;
    assert ds + [u] + rest == ds + tail;
    ScanDigits(0, ds, tail);
    assert tail[1..] == rest;
  }

  /** A printed number followed by a non-digit reads back as that number. */
  lemma FieldOf(n: nat, u: char, rest: string)
    requires !IsDigit(u)
    ensures Field(NatToString(n) + [u] + rest) == Some((n, u, rest))
  {
    FieldOfDigits(NatToString(n), u, rest);
    ParseNatToString(n);
  }

  /** A whole string of digits, or `None` when it is empty or holds
      anything else. */
  function Digits(s: string): Option<nat> {
    var sc := Scan(0, s);
    if |s| == 0 || |sc.1| != 0 then None else Some(sc.0)
  }

  lemma DigitsOf(ds: string)
    requires |ds| > 0 && AllDigits(ds)
    ensures Digits(ds) == Some(ParseNat(ds))
  {
    ScanDigits(0, ds, []);
    assert ds + [] == ds;
  }

  /** The number of digits at the head of `s`. */
  function DigitRun(s: string): (k: nat)
    ensures k <= |s|
    ensures AllDigits(s[..k])
    ensures k < |s| ==> !IsDigit(s[k])
  {
    if |s| > 0 && IsDigit(s[0]) then
      var k' := DigitRun(s[1..]);
      assert s[..k' + 1] == [s[0]] + s[1..][..k'];
      k' + 1
    else 0
  }

  /** A digit string followed by a non-digit or by nothing: the run is the
      digit string. */
  lemma {:induction false} DigitRunOf(ds: string, rest: string)
    requires AllDigits(ds) && (|rest| == 0 || !IsDigit(rest[0]))
    ensures DigitRun(ds + rest) == |ds|
  {
    if |ds| > 0 {
      assert (ds + rest)[1..] == ds[1..] + rest;
      DigitRunOf(ds[1..], rest);
    } else {
      assert ds + rest == rest;
    }
  }
}
