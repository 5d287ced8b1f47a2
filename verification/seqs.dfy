/** Small facts about sequences, stated once and used where a proof needs
    one of them spelled out. */
module Seqs {
  lemma SnocAt<T>(s: seq<T>, x: T, k: nat)
    requires k <= |s|
    ensures (s + [x])[k] == if k < |s| then s[k] else x
  {
  }

  lemma PrefixOfPrefix<T>(r: seq<T>, n: nat, k: nat)
    requires k <= n <= |r|
    ensures r[..n][..k] == r[..k]
  {
  }

  lemma PrefixSplit<T>(r: seq<T>, i: nat, n: nat)
    requires i + n <= |r|
    ensures r[..i] + r[i..][..n] == r[..i + n]
  {
  }

  lemma SnocMultiset<T>(r: seq<T>)
    requires |r| > 0
    ensures multiset(r) == multiset(r[..|r| - 1]) + multiset{r[|r| - 1]}
  {
    assert r == r[..|r| - 1] + [r[|r| - 1]];
  }

  lemma TakeNone<T>(s: seq<T>)
    ensures s[..0] == []
  {
  }

  lemma TakeNext<T>(s: seq<T>, k: nat)
    requires k < |s|
    ensures s[..k + 1] == s[..k] + [s[k]]
  {
  }

  lemma Assoc<T>(a: seq<T>, b: seq<T>, c: seq<T>)
    ensures a + (b + c) == a + b + c
  {
  }

  lemma RightUnit<T>(a: seq<T>)
    ensures a + [] == a
  {
  }

  lemma ExtendPrefix<T>(a: seq<T>, b: seq<T>, i: nat)
    requires i < |b|
    ensures a + b[..i] + [b[i]] == a + b[..i + 1]
  {
    assert b[..i + 1] == b[..i] + [b[i]];
  }

  lemma DropConcat<T>(s: seq<T>, q: seq<T>, k: nat)
    requires k <= |s|
    ensures (s + q)[k..] == s[k..] + q
  {
  }

  lemma TakeConcat<T>(s: seq<T>, q: seq<T>, k: nat)
    requires k <= |s|
    ensures (s + q)[..k] == s[..k]
  {
  }

  lemma DropTake<T>(s: seq<T>, i: nat, j: nat)
    requires i + j <= |s|
    ensures s[i..][..j] == s[i..i + j]
  {
  }

  lemma DropDrop<T>(s: seq<T>, i: nat, j: nat)
    requires i + j <= |s|
    ensures s[i..][j..] == s[i + j..]
  {
  }

  lemma DropSnoc<T>(s: seq<T>, j: nat)
    requires j < |s|
    ensures s[..|s| - 1][j..] + [s[|s| - 1]] == s[j..]
  {
  }
}
