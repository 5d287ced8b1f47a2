/** String helpers shared by the classifier, the ranker and the table sorter:
    JavaScript's `trim`, ASCII lower-casing and the ordinal order of strings. */
module Text {
  import opened Seqs

  /** The characters `String.prototype.trim` removes: ECMAScript WhiteSpace
      (tab, vertical tab, form feed, space, no-break space, byte order mark and
      the Unicode space separators) and LineTerminator (LF, CR, LS, PS). */
  predicate IsSpace(c: char) {
    c in Spaces
  }

  const Spaces: set<char> := {
    '\t', '\n', '\U{0B}', '\U{0C}', '\r', ' ', '\U{A0}', '\U{1680}',
    '\U{2000}', '\U{2001}', '\U{2002}', '\U{2003}', '\U{2004}', '\U{2005}',
    '\U{2006}', '\U{2007}', '\U{2008}', '\U{2009}', '\U{200A}',
    '\U{2028}', '\U{2029}', '\U{202F}', '\U{205F}', '\U{3000}', '\U{FEFF}'
  }

  predicate AllSpace(s: string) {
    forall i :: 0 <= i < |s| ==> IsSpace(s[i])
  }

  /** Number of whitespace characters at the start of `s`. */
  function LeadingSpaces(s: string): (k: nat)
    ensures k <= |s|
    ensures AllSpace(s[..k])
    ensures k < |s| ==> !IsSpace(s[k])
  {
    if |s| > 0 && IsSpace(s[0]) then
      var k' := LeadingSpaces(s[1..]);
      DropTake(s, 1, k');
      k' + 1
    else 0
  }

  /** Number of whitespace characters at the end of `s`. */
  function TrailingSpaces(s: string): (k: nat)
    ensures k <= |s|
    ensures AllSpace(s[|s| - k..])
    ensures k < |s| ==> !IsSpace(s[|s| - k - 1])
  {
    if |s| > 0 && IsSpace(s[|s| - 1]) then
      var k' := TrailingSpaces(s[..|s| - 1]);
      DropSnoc(s, |s| - k' - 1);
      k' + 1
    else 0
  }

  /** Whether `s` neither starts nor ends with whitespace. */
  predicate Trimmed(s: string) {
    |s| == 0 || (!IsSpace(s[0]) && !IsSpace(s[|s| - 1]))
  }

  /** `s` without its leading whitespace. */
  function TrimStart(s: string): (r: string)
    ensures |r| <= |s|
    ensures |r| > 0 ==> !IsSpace(r[0])
  {
    s[LeadingSpaces(s)..]
  }

  /** `s` without its trailing whitespace. */
  function TrimEnd(s: string): (r: string)
    ensures |r| <= |s|
    ensures |r| > 0 ==> !IsSpace(r[|r| - 1])
  {
    s[..|s| - TrailingSpaces(s)]
  }

  /** JavaScript's `s.trim()`: `s` without whitespace at either end. */
  function Trim(s: string): (r: string)
    ensures Trimmed(r)
    ensures |r| <= |s|
  {
    var t := TrimStart(s);
    assert |TrimEnd(t)| > 0 ==> TrimEnd(t)[0] == t[0];
    TrimEnd(t)
  }

  /** What `Trim` removes is whitespace at both ends, and nothing else. */
  lemma TrimIsSlice(s: string)
    ensures exists i, j {:trigger s[i..j]} :: 0 <= i <= j <= |s| && Trim(s) == s[i..j]
                                              && AllSpace(s[..i]) && AllSpace(s[j..])
  {
    var i := LeadingSpaces(s);
    var t := s[i..];
    var k := TrailingSpaces(t);
    DropDrop(s, i, |t| - k);
    assert Trim(s) == s[i..|s| - k];
  }

  /** `Trim` leaves nothing exactly of whitespace-only text. */
  lemma TrimEmpty(s: string)
    ensures Trim(s) == "" <==> AllSpace(s)
  {
    var i := LeadingSpaces(s);
    if i < |s| {
      var t := TrimStart(s);
      assert t[0] == s[i];
      assert !IsSpace(s[i]);
    } else {
      assert s[..i] == s;
      TrimPadded(s, "", "");
      assert s + "" + "" == s;
    }
  }

  /** Surrounding `s` with whitespace does not change what `Trim` gives. */
  lemma TrimPadded(p: string, s: string, q: string)
    requires AllSpace(p) && AllSpace(q)
    ensures Trim(p + s + q) == Trim(s)
  {
    assert p + s + q == p + (s + q);
    TrimStartPadded(p, s + q);
    if LeadingSpaces(s) < |s| {
      TrimStartVisible(s, q);
      TrimEndPadded(TrimStart(s), q);
    } else {
      assert AllSpace(s + q);
      AllSpaceCount(s + q);
      AllSpaceCount(s);
    }
  }

  lemma TrimStartPadded(p: string, y: string)
    requires AllSpace(p)
    ensures TrimStart(p + y) == TrimStart(y)
  {
    LeadingPadded(p, y);
    assert (p + y)[|p| + LeadingSpaces(y)..] == y[LeadingSpaces(y)..];
  }

  lemma TrimStartVisible(s: string, q: string)
    requires LeadingSpaces(s) < |s|
    ensures TrimStart(s + q) == TrimStart(s) + q
  {
    LeadingPrefix(s, q);
    DropConcat(s, q, LeadingSpaces(s));
  }

  lemma TrimEndPadded(t: string, q: string)
    requires AllSpace(q)
    requires |t| > 0 && !IsSpace(t[0])
    ensures TrimEnd(t + q) == TrimEnd(t)
  {
    TrailingPadded(t, q);
    assert (t + q)[..|t + q| - (TrailingSpaces(t) + |q|)] == t[..|t| - TrailingSpaces(t)];
  }

  lemma AllSpaceConcat(a: string, b: string)
    requires AllSpace(a) && AllSpace(b)
    ensures AllSpace(a + b)
  {
  }

  lemma {:induction false} AllSpaceCount(s: string)
    requires AllSpace(s)
    ensures LeadingSpaces(s) == |s|
  {
    if |s| > 0 {
      AllSpaceCount(s[1..]);
    }
  }

  lemma {:induction false} LeadingPadded(p: string, s: string)
    requires AllSpace(p)
    ensures LeadingSpaces(p + s) == |p| + LeadingSpaces(s)
  {
    if |p| > 0 {
      assert (p + s)[1..] == p[1..] + s;
      LeadingPadded(p[1..], s);
    } else {
      assert p + s == s;
    }
  }

  lemma {:induction false} LeadingPrefix(s: string, q: string)
    requires LeadingSpaces(s) < |s|
    ensures LeadingSpaces(s + q) == LeadingSpaces(s)
  {
    if IsSpace(s[0]) {
      assert (s + q)[1..] == s[1..] + q;
      LeadingPrefix(s[1..], q);
    }
  }

  lemma {:induction false} TrailingPadded(s: string, q: string)
    requires AllSpace(q)
    requires |s| > 0 && !IsSpace(s[0])
    ensures TrailingSpaces(s + q) == TrailingSpaces(s) + |q|
  {
    if |q| > 0 {
      assert (s + q)[..|s + q| - 1] == s + q[..|q| - 1];
      TrailingPadded(s, q[..|q| - 1]);
    } else {
      assert s + q == s;
    }
  }

  /** A string without whitespace at either end is its own trim. */
  lemma TrimOfTrimmed(s: string)
    requires Trimmed(s)
    ensures Trim(s) == s
  {
    assert LeadingSpaces(s) == 0;
    assert s[0..] == s;
    assert TrailingSpaces(s) == 0;
    assert s[..|s| - 0] == s;
  }

  /** Trimming a word surrounded by whitespace gives the word. */
  lemma TrimPaddedWord(p: string, w: string, q: string)
    requires AllSpace(p) && AllSpace(q) && Trimmed(w)
    ensures Trim(p + w + q) == w
  {
    TrimPadded(p, w, q);
    TrimOfTrimmed(w);
  }

  /** Trimming twice is the same as trimming once. */
  lemma TrimIdempotent(s: string)
    ensures Trim(Trim(s)) == Trim(s)
  {
    var t := Trim(s);
    assert LeadingSpaces(t) == 0;
    assert t[0..] == t;
    assert TrailingSpaces(t) == 0;
    assert t[..|t| - 0] == t;
  }

  predicate IsUpper(c: char) {
    'A' <= c <= 'Z'
  }

  function LowerChar(c: char): char {
    if IsUpper(c) then (c as int + 32) as char else c
  }

  /** `toLowerCase` restricted to the ASCII letters. */
  function ToLower(s: string): (r: string)
    ensures |r| == |s|
    ensures forall i :: 0 <= i < |s| ==> r[i] == LowerChar(s[i])
  {
    if |s| == 0 then [] else [LowerChar(s[0])] + ToLower(s[1..])
  }

  /** Lower-casing leaves no upper-case ASCII letter and changes nothing else;
      so it is idempotent. */
  lemma ToLowerSpec(s: string)
    ensures forall i :: 0 <= i < |s| ==> !IsUpper(ToLower(s)[i])
    ensures forall i :: 0 <= i < |s| && !IsUpper(s[i]) ==> ToLower(s)[i] == s[i]
    ensures ToLower(ToLower(s)) == ToLower(s)
  {
  }

  /** Strict ordinal lexicographic order: the order of JavaScript's `<` on
      strings, comparing character codes. */
  predicate StrLess(a: string, b: string)
    decreases |a|
  {
    if |a| == 0 then |b| > 0
    else if |b| == 0 then false
    else a[0] < b[0] || (a[0] == b[0] && StrLess(a[1..], b[1..]))
  }

  lemma {:induction false} StrLessIrreflexive(a: string)
    ensures !StrLess(a, a)
  {
    if |a| > 0 {
      StrLessIrreflexive(a[1..]);
    }
  }

  lemma {:induction false} StrLessAsymmetric(a: string, b: string)
    ensures StrLess(a, b) ==> !StrLess(b, a)
  {
    if |a| > 0 && |b| > 0 && a[0] == b[0] {
      StrLessAsymmetric(a[1..], b[1..]);
    }
  }

  lemma {:induction false} StrLessTransitive(a: string, b: string, c: string)
    requires StrLess(a, b) && StrLess(b, c)
    ensures StrLess(a, c)
  {
    if |a| > 0 && a[0] == b[0] && b[0] == c[0] {
      StrLessTransitive(a[1..], b[1..], c[1..]);
    }
  }

  /** Distinct strings are always ordered one way or the other. */
  lemma {:induction false} StrLessTotal(a: string, b: string)
    ensures a == b || StrLess(a, b) || StrLess(b, a)
  {
    if |a| > 0 && |b| > 0 && a[0] == b[0] {
      StrLessTotal(a[1..], b[1..]);
      if a[1..] == b[1..] {
        assert a == [a[0]] + a[1..] && b == [b[0]] + b[1..];
      }
    }
  }
}
