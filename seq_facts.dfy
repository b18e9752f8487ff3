/**
 * Facts about slicing and concatenating sequences, stated once for any element type so that the
 * proofs about lines and rules need not rediscover them among the facts about strings.
 */
module SeqFacts {

  lemma TakeOneMore<T>(s: seq<T>, i: nat)
    requires i < |s|
    ensures s[..i + 1] == s[..i] + [s[i]]
  {
  }

  lemma TakeEnds<T>(s: seq<T>)
    ensures s[..0] == [] && s[..|s|] == s
  {
  }

  lemma ConcatHead<T>(a: seq<T>, b: seq<T>)
    ensures a == [] ==> a + b == b
    ensures a != [] ==> (a + b)[0] == a[0] && (a + b)[1..] == a[1..] + b
  {
  }

  lemma HeadTail<T>(s: seq<T>)
    requires s != []
    ensures s == [s[0]] + s[1..]
  {
  }

  lemma ConcatAssoc<T>(a: seq<T>, b: seq<T>, c: seq<T>)
    ensures a + (b + c) == (a + b) + c
  {
  }

  lemma ConcatEmpty<T>(a: seq<T>)
    ensures a + [] == a && [] + a == a
  {
  }

  lemma SliceSplit<T>(s: seq<T>, i: nat, j: nat, k: nat)
    requires i <= j <= k <= |s|
    ensures s[i..k] == s[i..j] + s[j..k]
  {
  }

  /** Two neighbouring slices of `s` make up the slice that spans both. */
  lemma AdjacentSlices<T>(s: seq<T>, i: nat, j: nat, a: seq<T>, b: seq<T>)
    requires i <= j && j + |b| <= |s| && s[i..j] == a && s[j..j + |b|] == b
    ensures i + |a + b| <= |s| && s[i..i + |a + b|] == a + b
    ensures b == s[j..] ==> a + b == s[i..]
  {
    SliceSplit(s, i, j, j + |b|);
    SliceSplit(s, i, j, |s|);
  }
}
