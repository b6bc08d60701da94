/** A few facts about slices of sequences. */
module Seqs {
  lemma PrefixSnoc<T>(s: seq<T>, i: nat)
    requires i < |s|
    ensures s[..i + 1][..i] == s[..i]
    ensures s[..i + 1] == s[..i] + [s[i]]
  {
  }

  lemma SliceOfSlice<T>(s: seq<T>, lo: nat, hi: nat, from: nat, to: nat)
    requires lo <= hi <= |s| && from <= to <= hi - lo
    ensures s[lo..hi][from..to] == s[lo + from..lo + to]
  {
    var inner, direct := s[lo..hi][from..to], s[lo + from..lo + to];
    forall k | 0 <= k < to - from ensures inner[k] == direct[k] {
      assert inner[k] == s[lo..hi][from + k] == s[lo + (from + k)];
    }
  }

  lemma SliceOfPrefix<T>(p: seq<T>, s: seq<T>, lo: nat, hi: nat)
    requires p <= s && lo <= hi <= |p|
    ensures p[lo..hi] == s[lo..hi]
  {
    assert p == s[..|p|];
  }

  lemma LastPart<T>(a: seq<T>, b: seq<T>)
    ensures (a + b)[|a|..|a| + |b|] == b
  {
  }

  lemma PrefixJoin<T>(s: seq<T>, lo: nat, hi: nat)
    requires lo <= hi <= |s|
    ensures s[..lo] + s[lo..hi] == s[..hi]
  {
  }

  lemma SlicesJoin<T>(s: seq<T>, lo: nat, mid: nat, hi: nat)
    requires lo <= mid <= hi <= |s|
    ensures s[lo..mid] + s[mid..hi] == s[lo..hi]
  {
  }

  lemma PrefixTrans<T>(a: seq<T>, b: seq<T>, c: seq<T>)
    requires a <= b && b <= c
    ensures a <= c
  {
  }
}
