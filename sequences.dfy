/** Small facts about sequences and maps, used by the proofs of every other module. */
module Sequences {

  lemma AppendAssociative<T>(a: seq<T>, b: seq<T>, c: seq<T>)
    ensures (a + b) + c == a + (b + c)
  {
  }

  /** Taking one more element of a sequence appends that element. */
  lemma TakeOneMore<T>(s: seq<T>, k: nat)
    requires k < |s|
    ensures s[..k + 1] == s[..k] + [s[k]]
  {
  }

  /** A non-empty sequence is its first element followed by the rest. */
  lemma FirstAndRest<T>(s: seq<T>)
    requires s != []
    ensures [s[0]] + s[1..] == s
  {
  }

  lemma PrefixOfPrefix<T>(s: seq<T>, j: nat, k: nat)
    requires j <= k <= |s|
    ensures s[..k][..j] == s[..j]
  {
  }

  /** A prefix of a suffix is a slice. */
  lemma PrefixOfSuffix<T>(s: seq<T>, i: nat, n: nat)
    requires i + n <= |s|
    ensures s[i..][..n] == s[i..i + n]
  {
  }

  /** Two adjacent slices starting at the front make one prefix. */
  lemma AdjacentSlices<T>(s: seq<T>, j: nat, k: nat)
    requires j <= k <= |s|
    ensures s[..j] + s[j..k] == s[..k]
  {
  }

  /** A prefix stays a prefix when the same element is put in front of both sequences. */
  lemma PrefixAfterFirst<T>(x: T, w: seq<T>, s: seq<T>)
    requires |w| <= |s| && w == s[..|w|]
    ensures [x] + w == ([x] + s)[..1 + |w|]
  {
  }

  /** Writing back the element already there changes nothing. */
  lemma UpdateSame<T>(s: seq<T>, i: nat)
    requires i < |s|
    ensures s[i := s[i]] == s
  {
  }

  /** Removing a key undoes any write to it. */
  lemma MapRemoveWritten<K, V>(m: map<K, V>, k: K, v: V)
    ensures m[k := v] - {k} == m - {k}
  {
  }

  /** Of two writes to the same key, the later one wins. */
  lemma MapOverwrite<K, V>(m: map<K, V>, k: K, a: V, b: V)
    ensures m[k := a][k := b] == m[k := b]
  {
  }
}
