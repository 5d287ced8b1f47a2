/** The sortable table: the sort key of a cell (`coerce`), the comparator
    (`compare`), and the order of the rows after a click on a header,
    ascending or its reverse. Rows are identified by their position in the
    table body. */
module Table {
  import opened Wrappers
  import opened Decimal
  import Text
  import opened Seqs

  /** A sort key: the empty key `''`, a number, or a lower-cased text. */
  datatype Key = Empty | Num(x: real) | Str(s: string)

  // ---------------------------------------------------------------------------
  // NUM_RE: /^-?\d+(?:\.\d+)?$/

  /** A decimal numeral: an optional minus sign, digits, and optionally a
      point followed by more digits (`frac` is empty when there is no
      point). */
  datatype Numeral = Numeral(neg: bool, whole: string, frac: string)

  predicate WellFormed(n: Numeral) {
    |n.whole| > 0 && AllDigits(n.whole) && AllDigits(n.frac)
  }

  /** How a numeral is written: the sign, then its unsigned part. */
  function Spell(n: Numeral): string {
    Signed(n.neg, Unsigned(n.whole, n.frac))
  }

  function Signed(neg: bool, body: string): string {
    if neg then ['-'] + body else body
  }

  function Unsigned(whole: string, frac: string): string {
    if |frac| == 0 then whole else whole + ['.'] + frac
  }

  /** `NUM_RE.test(s)`, returning the numeral it matched. */
  function MatchNum(s: string): Option<Numeral> {
    var neg := |s| > 0 && s[0] == '-';
    var body := if neg then s[1..] else s;
    match MatchUnsigned(body)
    case None => None
    case Some((whole, frac)) => Some(Numeral(neg, whole, frac))
  }

  /** The unsigned part of `NUM_RE`: `\d+(?:\.\d+)?`, whole and fraction
      digits. */
  function MatchUnsigned(body: string): Option<(string, string)> {
    var i := DigitRun(body);
    if i == 0 then None
    else if i == |body| then Some((body, ""))
    else if body[i] == '.' && i + 1 < |body| && DigitRun(body[i + 1..]) == |body| - (i + 1) then
      Some((body[..i], body[i + 1..]))
    else None
  }

  lemma MatchUnsignedSound(body: string)
    requires MatchUnsigned(body).Some?
    ensures var (w, f) := MatchUnsigned(body).value;
            |w| > 0 && AllDigits(w) && AllDigits(f) && Unsigned(w, f) == body
  {
    var i := DigitRun(body);
    if i == |body| {
      assert body[..i] == body;
    } else {
      var tail := body[i + 1..];
      assert tail[..|tail|] == tail;
      assert body == body[..i] + ['.'] + tail by {
        assert body == body[..i] + body[i..];
        assert body[i..] == [body[i]] + tail;
      }
    }
  }

  lemma MatchUnsignedComplete(w: string, f: string)
    requires |w| > 0 && AllDigits(w) && AllDigits(f)
    ensures MatchUnsigned(Unsigned(w, f)) == Some((w, f))
  {
    assert !IsDigit('.');
    if |f| == 0 {
      DigitRunOf(w, []);
      assert w + [] == w;
    } else {
      var body := Unsigned(w, f);
      var tail := ['.'] + f;
      assert body == w + tail;
      DigitRunOf(w, tail);
      var i := |w|;
      assert body[i] == '.';
      assert body[i + 1..] == f;
      assert body[..i] == w;
      DigitRunOf(f, []);
      assert f + [] == f;
    }
  }

  /** What the regular expression accepts is a well-formed numeral, written
      out. */
  lemma MatchNumSound(s: string)
    requires MatchNum(s).Some?
    ensures WellFormed(MatchNum(s).value) && Spell(MatchNum(s).value) == s
  {
    var neg := |s| > 0 && s[0] == '-';
    var body := if neg then s[1..] else s;
    MatchUnsignedSound(body);
    if neg {
      assert s == [s[0]] + s[1..];
    }
  }

  /** The regular expression accepts every well-formed numeral, and matches
      it as written. */
  lemma MatchNumComplete(n: Numeral)
    requires WellFormed(n)
    ensures MatchNum(Spell(n)) == Some(n)
  {
    var body := Unsigned(n.whole, n.frac);
    var s := Signed(n.neg, body);
    MatchUnsignedComplete(n.whole, n.frac);
    assert |body| > 0 && IsDigit(body[0]) by {
      if |n.frac| > 0 {
        assert body[0] == n.whole[0];
      }
    }
    if n.neg {
      assert s[1..] == body;
    }
  }

  function Pow10(k: nat): (r: nat)
    ensures r >= 1
  {
    if k == 0 then 1 else 10 * Pow10(k - 1)
  }

  /** `Number(s)` of a numeral, exactly. */
  function NumeralValue(n: Numeral): real
    requires WellFormed(n)
  {
    var magnitude := ParseNat(n.whole) as real + ParseNat(n.frac) as real / Pow10(|n.frac|) as real;
    if n.neg then -magnitude else magnitude
  }

  // ---------------------------------------------------------------------------
  // coerce

  /** `coerce`: nothing and blank text give the empty key, a numeral its
      value, a date its timestamp (`Date.parse`, here the parameter
      `dateParse`), and any other text its lower-cased, trimmed self. */
  function Coerce(val: Option<string>, dateParse: string -> Option<real>): (k: Key)
    ensures k.Str? ==> val.Some? && k.s == Text.ToLower(Text.Trim(val.value)) && k.s != ""
  {
    if val.None? then Empty
    else
      var s := Text.Trim(val.value);
      if s == "" then Empty
      else
        match MatchNum(s)
        case Some(n) =>
          MatchNumSound(s);
          Num(NumeralValue(n))
        case None =>
          match dateParse(s)
          case Some(d) => Num(d)
          case None => Str(Text.ToLower(s))
  }

  /** Blank text, and only blank text, gives the empty key. */
  lemma CoerceEmpty(v: string, dateParse: string -> Option<real>)
    ensures Coerce(Some(v), dateParse) == Empty <==> Text.AllSpace(v)
  {
    Text.TrimEmpty(v);
  }

  /** A numeral, with any whitespace around it, gives its value. */
  lemma CoerceNumeral(p: string, n: Numeral, q: string, dateParse: string -> Option<real>)
    requires Text.AllSpace(p) && Text.AllSpace(q) && WellFormed(n)
    ensures Coerce(Some(p + Spell(n) + q), dateParse) == Num(NumeralValue(n))
  {
    var s := Spell(n);
    assert |s| > 0;
    assert !Text.IsSpace(s[0]) by {
      if !n.neg {
        assert s[0] == n.whole[0];
      }
    }
    assert !Text.IsSpace(s[|s| - 1]) by {
      if |n.frac| == 0 {
        assert s[|s| - 1] == n.whole[|n.whole| - 1];
      } else {
        assert s[|s| - 1] == n.frac[|n.frac| - 1];
      }
    }
    Text.TrimPaddedWord(p, s, q);
    MatchNumComplete(n);
  }

  /** Text that is not blank, not a numeral and not a date gives a text
      key. */
  lemma CoerceText(v: string, dateParse: string -> Option<real>)
    requires !Text.AllSpace(v)
    requires MatchNum(Text.Trim(v)).None? && dateParse(Text.Trim(v)).None?
    ensures Coerce(Some(v), dateParse) == Str(Text.ToLower(Text.Trim(v)))
  {
    CoerceEmpty(v, dateParse);
  }

  /** The key of a table cell: a missing cell or one without text reads as
      "", and the text is trimmed before `coerce` trims it again, which
      changes nothing. */
  function CellKey(cell: Option<string>, dateParse: string -> Option<real>): (k: Key)
    ensures k == Coerce(Some(cell.GetOr("")), dateParse)
  {
    Text.TrimIdempotent(cell.GetOr(""));
    Coerce(Some(Text.Trim(cell.GetOr(""))), dateParse)
  }

  // ---------------------------------------------------------------------------
  // compare

  /** `compare`: 0 for equal keys; the empty key first; numbers by their
      difference; texts by their order. A number against a text falls to
      JavaScript's `<`, which reads the text as a number: `num` is that
      reading (`Number(s)`, `None` for `NaN`), as `coerce` keeps text such
      as "1e3" or "0x1f" that `NUM_RE` rejects. When the text reads as no
      number `<` is false, and the result is 1 either way. */
  function Compare(a: Key, b: Key, num: string -> Option<real>): real {
    if a == b then 0.0
    else if a.Empty? then -1.0
    else if b.Empty? then 1.0
    else if a.Num? && b.Num? then a.x - b.x
    else if a.Str? && b.Str? then (if Text.StrLess(a.s, b.s) then -1.0 else 1.0)
    else if a.Num? then (if num(b.s).Some? && a.x < num(b.s).value then -1.0 else 1.0)
    else (if num(a.s).Some? && num(a.s).value < b.x then -1.0 else 1.0)
  }

  /** Keys `compare` can order: not a number against a text. */
  predicate SameKind(a: Key, b: Key) {
    !(a.Num? && b.Str?) && !(a.Str? && b.Num?)
  }

  /** `compare` is zero exactly on equal keys. */
  lemma CompareZero(a: Key, b: Key, num: string -> Option<real>)
    ensures Compare(a, b, num) == 0.0 <==> a == b
  {
  }

  /** The empty key comes before every other key. */
  lemma CompareEmptyFirst(b: Key, num: string -> Option<real>)
    requires b != Empty
    ensures Compare(Empty, b, num) < 0.0 && Compare(b, Empty, num) > 0.0
  {
  }

  /** Numbers compare by value, texts by the string order. */
  lemma CompareNumbersAndTexts(x: real, y: real, s: string, t: string, num: string -> Option<real>)
    ensures Compare(Num(x), Num(y), num) < 0.0 <==> x < y
    ensures Compare(Str(s), Str(t), num) < 0.0 <==> Text.StrLess(s, t)
  {
    Text.StrLessIrreflexive(s);
  }

  /** Swapping two keys of one kind flips the sign. */
  lemma CompareAntisymmetric(a: Key, b: Key, num: string -> Option<real>)
    requires SameKind(a, b)
    ensures Compare(a, b, num) < 0.0 <==> Compare(b, a, num) > 0.0
  {
    if a.Str? && b.Str? && a != b {
      Text.StrLessTotal(a.s, b.s);
      Text.StrLessAsymmetric(a.s, b.s);
    }
  }

  /** Keys of one kind are ordered transitively. */
  lemma CompareTransitive(a: Key, b: Key, c: Key, num: string -> Option<real>)
    requires SameKind(a, b) && SameKind(b, c) && SameKind(a, c)
    requires Compare(a, b, num) <= 0.0 && Compare(b, c, num) <= 0.0
    ensures Compare(a, c, num) <= 0.0
  {
    if a.Str? && b.Str? && c.Str? && a != b && b != c {
      Text.StrLessTotal(a.s, b.s);
      Text.StrLessTotal(b.s, c.s);
      Text.StrLessTransitive(a.s, b.s, c.s);
      Text.StrLessIrreflexive(a.s);
    }
  }

  /** A number against a text: the text counts as the number it reads as,
      and a tie still sorts each after the other; a text that reads as no
      number sorts after the number and the number after it. Either way
      `compare` is not an order on a column that mixes the two kinds. */
  lemma CompareMixed(x: real, s: string, num: string -> Option<real>)
    ensures num(s).None? ==> Compare(Num(x), Str(s), num) > 0.0 && Compare(Str(s), Num(x), num) > 0.0
    ensures num(s).Some? ==> (Compare(Num(x), Str(s), num) < 0.0 <==> x < num(s).value)
    ensures num(s).Some? ==> (Compare(Str(s), Num(x), num) < 0.0 <==> num(s).value < x)
    ensures num(s) == Some(x) ==> Compare(Num(x), Str(s), num) > 0.0 && Compare(Str(s), Num(x), num) > 0.0
  {
  }

  // ---------------------------------------------------------------------------
  // Ordering the rows

  /** A column whose keys `compare` can order: no text, or no number. */
  predicate Comparable(keys: seq<Key>) {
    || (forall i :: 0 <= i < |keys| ==> !keys[i].Str?)
    || (forall i :: 0 <= i < |keys| ==> !keys[i].Num?)
  }

  /** The key of row `i` (rows past the column's end have none). */
  function KeyAt(keys: seq<Key>, i: nat): Key {
    if i < |keys| then keys[i] else Empty
  }

  lemma ComparableKeys(keys: seq<Key>, i: nat, j: nat)
    requires Comparable(keys)
    ensures SameKind(KeyAt(keys, i), KeyAt(keys, j))
  {
  }

  /** Inserts row `p` after every row before it whose key does not compare
      above its own: the step of a stable sort. */
  function Insert(keys: seq<Key>, s: seq<nat>, p: nat, num: string -> Option<real>): (r: seq<nat>)
    ensures |r| == |s| + 1
    ensures r[|s|] == p || (|s| > 0 && r[|s|] == s[|s| - 1])
    decreases |s|
  {
    if |s| == 0 then [p]
    else
      var last := s[|s| - 1];
      if Compare(KeyAt(keys, last), KeyAt(keys, p), num) <= 0.0 then s + [p]
      else Insert(keys, s[..|s| - 1], p, num) + [last]
  }

  /** Inserting adds exactly the row inserted. */
  lemma {:induction false} InsertPermutes(keys: seq<Key>, s: seq<nat>, p: nat, num: string -> Option<real>)
    ensures multiset(Insert(keys, s, p, num)) == multiset(s) + multiset{p}
    decreases |s|
  {
    if |s| > 0 {
      var n := |s| - 1;
      SnocMultiset(s);
      if Compare(KeyAt(keys, s[n]), KeyAt(keys, p), num) > 0.0 {
        InsertPermutes(keys, s[..n], p, num);
        SnocMultiset(Insert(keys, s, p, num));
        assert Insert(keys, s, p, num)[..n + 1] == Insert(keys, s[..n], p, num);
      }
    }
  }

  /** The rows `0, 1, ..., n - 1`. */
  function Rows(n: nat): (r: seq<nat>)
    ensures |r| == n
    ensures forall i :: 0 <= i < n ==> r[i] == i
  {
    if n == 0 then [] else Rows(n - 1) + [n - 1]
  }

  /** The first `n` rows, sorted ascending: `keyed.sort((x, y) =>
      compare(x.key, y.key))`. */
  function Ascend(keys: seq<Key>, n: nat, num: string -> Option<real>): (r: seq<nat>)
    ensures |r| == n
  {
    if n == 0 then [] else Insert(keys, Ascend(keys, n - 1, num), n - 1, num)
  }

  /** The sorted rows are the rows, each once. */
  lemma {:induction false} AscendPermutes(keys: seq<Key>, n: nat, num: string -> Option<real>)
    ensures multiset(Ascend(keys, n, num)) == multiset(Rows(n))
  {
    if n > 0 {
      AscendPermutes(keys, n - 1, num);
      InsertPermutes(keys, Ascend(keys, n - 1, num), n - 1, num);
      SnocMultiset(Rows(n));
      assert Rows(n)[..n - 1] == Rows(n - 1);
    }
  }

  lemma AscendBelow(keys: seq<Key>, n: nat, i: nat, num: string -> Option<real>)
    requires i < n
    ensures Ascend(keys, n, num)[i] < n
  {
    AscendPermutes(keys, n, num);
    var r := Ascend(keys, n, num);
    assert r[i] in multiset(Rows(n));
  }

  /** Adjacent rows never compare above each other. */
  predicate Ascending(keys: seq<Key>, s: seq<nat>, num: string -> Option<real>) {
    forall i :: 0 <= i < |s| - 1 ==> Compare(KeyAt(keys, s[i]), KeyAt(keys, s[i + 1]), num) <= 0.0
  }

  /** Rows with equal keys keep their relative order. */
  predicate Stable(keys: seq<Key>, s: seq<nat>) {
    forall i, j :: 0 <= i < j < |s| && KeyAt(keys, s[i]) == KeyAt(keys, s[j]) ==> s[i] < s[j]
  }

  lemma AscendingSnoc(keys: seq<Key>, r: seq<nat>, x: nat, num: string -> Option<real>)
    requires Ascending(keys, r, num)
    requires |r| > 0 ==> Compare(KeyAt(keys, r[|r| - 1]), KeyAt(keys, x), num) <= 0.0
    ensures Ascending(keys, r + [x], num)
  {
    var t := r + [x];
    forall i | 0 <= i < |t| - 1
      ensures Compare(KeyAt(keys, t[i]), KeyAt(keys, t[i + 1]), num) <= 0.0
    {
      if i + 1 < |r| {
        assert t[i] == r[i] && t[i + 1] == r[i + 1];
      } else {
        assert t[i] == r[|r| - 1] && t[i + 1] == x;
      }
    }
  }

  lemma AscendingPrefix(keys: seq<Key>, s: seq<nat>, n: nat, num: string -> Option<real>)
    requires Ascending(keys, s, num) && n <= |s|
    ensures Ascending(keys, s[..n], num)
  {
    var t := s[..n];
    forall i | 0 <= i < |t| - 1
      ensures Compare(KeyAt(keys, t[i]), KeyAt(keys, t[i + 1]), num) <= 0.0
    {
      assert t[i] == s[i] && t[i + 1] == s[i + 1];
    }
  }

  lemma {:induction false} InsertAscending(keys: seq<Key>, s: seq<nat>, p: nat, num: string -> Option<real>)
    requires Comparable(keys) && Ascending(keys, s, num)
    ensures Ascending(keys, Insert(keys, s, p, num), num)
    decreases |s|
  {
    if |s| > 0 {
      var n := |s| - 1;
      var last := s[n];
      if Compare(KeyAt(keys, last), KeyAt(keys, p), num) > 0.0 {
        AscendingPrefix(keys, s, n, num);
        InsertAscending(keys, s[..n], p, num);
        ComparableKeys(keys, last, p);
        CompareAntisymmetric(KeyAt(keys, last), KeyAt(keys, p), num);
        var r := Insert(keys, s[..n], p, num);
        if n > 0 {
          assert s[..n][n - 1] == s[n - 1];
        }
        AscendingSnoc(keys, r, last, num);
      } else {
        AscendingSnoc(keys, s, p, num);
      }
    }
  }

  lemma StableSnoc(keys: seq<Key>, r: seq<nat>, x: nat)
    requires Stable(keys, r)
    requires forall i :: 0 <= i < |r| && KeyAt(keys, r[i]) == KeyAt(keys, x) ==> r[i] < x
    ensures Stable(keys, r + [x])
  {
    var t := r + [x];
    forall i, j | 0 <= i < j < |t| && KeyAt(keys, t[i]) == KeyAt(keys, t[j])
      ensures t[i] < t[j]
    {
      assert t[i] == r[i];
      if j < |r| {
        assert t[j] == r[j];
      }
    }
  }

  lemma StablePrefix(keys: seq<Key>, s: seq<nat>, n: nat)
    requires Stable(keys, s) && n <= |s|
    ensures Stable(keys, s[..n])
  {
    var t := s[..n];
    forall i, j | 0 <= i < j < |t| && KeyAt(keys, t[i]) == KeyAt(keys, t[j])
      ensures t[i] < t[j]
    {
      assert t[i] == s[i] && t[j] == s[j];
    }
  }

  /** When the last row moves behind the inserted one, every row with its key
      left in front of it came before it in the table. */
  lemma EqualKeysBefore(keys: seq<Key>, s: seq<nat>, p: nat, r: seq<nat>, last: nat, num: string -> Option<real>)
    requires |s| > 0 && Stable(keys, s) && last == s[|s| - 1]
    requires Compare(KeyAt(keys, last), KeyAt(keys, p), num) > 0.0
    requires r == Insert(keys, s[..|s| - 1], p, num)
    ensures forall i :: 0 <= i < |r| && KeyAt(keys, r[i]) == KeyAt(keys, last) ==> r[i] < last
  {
    var n := |s| - 1;
    InsertPermutes(keys, s[..n], p, num);
    forall i | 0 <= i < |r| && KeyAt(keys, r[i]) == KeyAt(keys, last)
      ensures r[i] < last
    {
      assert r[i] in multiset(s[..n]) + multiset{p};
      assert r[i] != p;
      var k :| 0 <= k < n && s[..n][k] == r[i];
      assert s[k] == r[i];
    }
  }

  lemma {:induction false} InsertStable(keys: seq<Key>, s: seq<nat>, p: nat, num: string -> Option<real>)
    requires Stable(keys, s)
    requires forall i :: 0 <= i < |s| ==> s[i] < p
    ensures Stable(keys, Insert(keys, s, p, num))
    decreases |s|
  {
    if |s| > 0 {
      var n := |s| - 1;
      var last := s[n];
      if Compare(KeyAt(keys, last), KeyAt(keys, p), num) > 0.0 {
        StablePrefix(keys, s, n);
        InsertStable(keys, s[..n], p, num);
        var r := Insert(keys, s[..n], p, num);
        EqualKeysBefore(keys, s, p, r, last, num);
        StableSnoc(keys, r, last);
      } else {
        StableSnoc(keys, s, p);
      }
    }
  }

  lemma AscendSortedNext(keys: seq<Key>, n: nat, num: string -> Option<real>)
    requires n > 0 && Comparable(keys) && Ascending(keys, Ascend(keys, n - 1, num), num)
    ensures Ascending(keys, Ascend(keys, n, num), num)
  {
    InsertAscending(keys, Ascend(keys, n - 1, num), n - 1, num);
  }

  /** The ascending order is sorted. */
  lemma {:induction false} AscendSorted(keys: seq<Key>, n: nat, num: string -> Option<real>)
    requires Comparable(keys)
    ensures Ascending(keys, Ascend(keys, n, num), num)
  {
    if n > 0 {
      AscendSorted(keys, n - 1, num);
      AscendSortedNext(keys, n, num);
    }
  }

  lemma AscendStableNext(keys: seq<Key>, n: nat, num: string -> Option<real>)
    requires n > 0 && Stable(keys, Ascend(keys, n - 1, num))
    ensures Stable(keys, Ascend(keys, n, num))
  {
    var prev := Ascend(keys, n - 1, num);
    forall i | 0 <= i < |prev|
      ensures prev[i] < n - 1
    {
      AscendBelow(keys, n - 1, i, num);
    }
    InsertStable(keys, prev, n - 1, num);
  }

  /** The ascending order keeps rows with equal keys in table order. */
  lemma {:induction false} AscendStable(keys: seq<Key>, n: nat, num: string -> Option<real>)
    ensures Stable(keys, Ascend(keys, n, num))
  {
    if n > 0 {
      AscendStable(keys, n - 1, num);
      AscendStableNext(keys, n, num);
    }
  }

  /** `keyed.reverse()`. */
  function Reverse(s: seq<nat>): (r: seq<nat>)
    ensures |r| == |s|
    ensures forall i :: 0 <= i < |s| ==> r[i] == s[|s| - 1 - i]
  {
    if |s| == 0 then [] else [s[|s| - 1]] + Reverse(s[..|s| - 1])
  }

  lemma {:induction false} ReverseMultiset(s: seq<nat>)
    ensures multiset(Reverse(s)) == multiset(s)
  {
    if |s| > 0 {
      ReverseMultiset(s[..|s| - 1]);
      assert s == s[..|s| - 1] + [s[|s| - 1]];
    }
  }

  /** Reversing twice gives the rows back. */
  lemma ReverseReverse(s: seq<nat>)
    ensures Reverse(Reverse(s)) == s
  {
  }

  /** The sort direction of a header. */
  datatype Dir = Unsorted | Asc | Desc

  /** The rows after sorting in direction `dir`: ascending, or for `Desc`
      the ascending order reversed. */
  function Arrange(keys: seq<Key>, dir: Dir, num: string -> Option<real>): (r: seq<nat>)
    requires dir != Unsorted
    ensures |r| == |keys|
  {
    var asc := Ascend(keys, |keys|, num);
    if dir == Desc then Reverse(asc) else asc
  }

  /** Either way, every row appears exactly once. */
  lemma ArrangePermutes(keys: seq<Key>, dir: Dir, num: string -> Option<real>)
    requires dir != Unsorted
    ensures multiset(Arrange(keys, dir, num)) == multiset(Rows(|keys|))
  {
    AscendPermutes(keys, |keys|, num);
    ReverseMultiset(Ascend(keys, |keys|, num));
  }

  /** Ascending: no row compares above the next, and rows with equal keys
      keep their table order. */
  lemma ArrangeAscending(keys: seq<Key>, num: string -> Option<real>)
    requires Comparable(keys)
    ensures var r := Arrange(keys, Asc, num);
            && (forall i :: 0 <= i < |r| - 1 ==> Compare(KeyAt(keys, r[i]), KeyAt(keys, r[i + 1]), num) <= 0.0)
            && (forall i, j :: 0 <= i < j < |r| && KeyAt(keys, r[i]) == KeyAt(keys, r[j]) ==> r[i] < r[j])
  {
    AscendSorted(keys, |keys|, num);
    AscendStable(keys, |keys|, num);
  }

  /** Descending: no row compares below the next, and rows with equal keys
      come in reverse table order. */
  lemma ArrangeDescending(keys: seq<Key>, num: string -> Option<real>)
    requires Comparable(keys)
    ensures var r := Arrange(keys, Desc, num);
            && (forall i :: 0 <= i < |r| - 1 ==> Compare(KeyAt(keys, r[i + 1]), KeyAt(keys, r[i]), num) <= 0.0)
            && (forall i, j :: 0 <= i < j < |r| && KeyAt(keys, r[i]) == KeyAt(keys, r[j]) ==> r[i] > r[j])
  {
    var asc := Ascend(keys, |keys|, num);
    AscendSorted(keys, |keys|, num);
    AscendStable(keys, |keys|, num);
    ReverseDescends(keys, asc, num);
    ReverseUnstable(keys, asc);
  }

  lemma ReverseDescends(keys: seq<Key>, s: seq<nat>, num: string -> Option<real>)
    requires Ascending(keys, s, num)
    ensures var r := Reverse(s);
            forall i :: 0 <= i < |r| - 1 ==> Compare(KeyAt(keys, r[i + 1]), KeyAt(keys, r[i]), num) <= 0.0
  {
    var r := Reverse(s);
    var n := |s|;
    forall i | 0 <= i < n - 1
      ensures Compare(KeyAt(keys, r[i + 1]), KeyAt(keys, r[i]), num) <= 0.0
    {
      assert r[i + 1] == s[n - 2 - i] && r[i] == s[n - 1 - i];
    }
  }

  lemma ReverseUnstable(keys: seq<Key>, s: seq<nat>)
    requires Stable(keys, s)
    ensures var r := Reverse(s);
            forall i, j :: 0 <= i < j < |r| && KeyAt(keys, r[i]) == KeyAt(keys, r[j]) ==> r[i] > r[j]
  {
    var r := Reverse(s);
    var n := |s|;
    forall i, j | 0 <= i < j < n && KeyAt(keys, r[i]) == KeyAt(keys, r[j])
      ensures r[i] > r[j]
    {
      assert r[i] == s[n - 1 - i] && r[j] == s[n - 1 - j];
    }
  }

  /** The descending order is the ascending one read backwards, and the
      other way round. */
  lemma DescendingReversesAscending(keys: seq<Key>, num: string -> Option<real>)
    ensures Arrange(keys, Desc, num) == Reverse(Arrange(keys, Asc, num))
    ensures Arrange(keys, Asc, num) == Reverse(Arrange(keys, Desc, num))
  {
    ReverseReverse(Ascend(keys, |keys|, num));
  }

  /** The direction after a click: ascending, unless the header was
      ascending. */
  function NextDir(current: Dir): (r: Dir)
    ensures r != Unsorted
    ensures r == Desc <==> current == Asc
  {
    if current == Asc then Desc else Asc
  }

  /** A click on header `idx`: that header takes the next direction, every
      other header goes back to unsorted. */
  function Click(dirs: seq<Dir>, idx: nat): (r: seq<Dir>)
    requires idx < |dirs|
    ensures |r| == |dirs| && r[idx] == NextDir(dirs[idx])
    ensures forall i :: 0 <= i < |dirs| && i != idx ==> r[i] == Unsorted
  {
    seq(|dirs|, i requires 0 <= i < |dirs| => if i == idx then NextDir(dirs[idx]) else Unsorted)
  }

  /** Clicking one header again and again alternates ascending and
      descending, starting ascending unless it was already ascending. */
  lemma ClickAlternates(dirs: seq<Dir>, idx: nat)
    requires idx < |dirs|
    ensures var once := Click(dirs, idx);
            var twice := Click(once, idx);
            && twice[idx] != once[idx]
            && Click(twice, idx)[idx] == once[idx]
  {
  }

  /** The rows of a column of cells after a click on its header. */
  function SortColumn(cells: seq<Option<string>>, dir: Dir, dateParse: string -> Option<real>, num: string -> Option<real>): (r: seq<nat>)
    requires dir != Unsorted
    ensures |r| == |cells|
    ensures multiset(r) == multiset(Rows(|cells|))
  {
    var keys := seq(|cells|, i requires 0 <= i < |cells| => CellKey(cells[i], dateParse));
    ArrangePermutes(keys, dir, num);
    Arrange(keys, dir, num)
  }
}
