/** Rearrangements of sequences, kept out of the proofs that need them. */
module Sequences {

  lemma Regroup<T>(a: seq<T>, b: seq<T>, c: seq<T>)
    ensures a + b + c == a + (b + c)
  {
  }

  lemma SlicesOf<T>(s: seq<T>, lo: nat, hi: nat)
    requires lo <= hi <= |s|
    ensures s[lo..][..hi - lo] == s[lo..hi] && s[lo..][hi - lo..] == s[hi..]
  {
  }

  lemma SliceOfSlice<T>(s: seq<T>, lo: nat, hi: nat, k: nat)
    requires lo <= lo + k <= hi <= |s|
    ensures s[lo..hi][k..] == s[lo + k..hi]
  {
  }

  lemma SuffixGrows<T>(p: seq<T>, s: seq<T>, more: seq<T>)
    requires p <= s
    ensures p <= s + more && (s + more)[|p|..] == s[|p|..] + more
  {
  }

  lemma PrefixDrops<T>(s: seq<T>, n: nat, c: seq<T>)
    requires n <= |s|
    ensures s[..n] + c <= s <==> c <= s[n..]
    ensures c <= s[n..] ==> s[n + |c|..] == s[n..][|c|..]
  {
    if s[..n] + c <= s {
      assert (s[..n] + c)[n..] == c;
      assert s[..n + |c|] == s[..n] + c;
      assert s[n..][..|c|] == s[..n + |c|][n..];
    }
    if c <= s[n..] {
      assert s == s[..n] + s[n..];
    }
  }

  lemma DropFront<T>(s: seq<T>, more: seq<T>, j: nat)
    requires 1 <= j <= |s|
    ensures (s + more)[1..][j - 1..] == s[j..] + more
  {
  }

  lemma TakeMore<T>(s: seq<T>, i: nat)
    requires i < |s|
    ensures s[..i + 1] == s[..i] + [s[i]]
  {
  }

  lemma TakeEnds<T>(s: seq<T>)
    ensures s[..0] == [] && s[..|s|] == s
  {
  }

  lemma SplitFirst<T>(s: seq<T>)
    requires s != []
    ensures s == [s[0]] + s[1..]
  {
  }

  lemma SplitLast<T>(s: seq<T>) returns (init: seq<T>, last: T)
    requires s != []
    ensures s == init + [last] && |init| < |s|
  {
    init, last := s[..|s| - 1], s[|s| - 1];
  }
}
