/**
 * Facts about sequences whatever their elements, stated once so that proofs
 * about sequences of strings or records need not rediscover them.
 */
module Seqs {
  /** Concatenation associates. */
  lemma AppendAssociates<T>(a: seq<T>, b: seq<T>, c: seq<T>)
    ensures a + (b + c) == (a + b) + c
  {
  }

  /** Dropping the head of a concatenation drops the head of its first part. */
  lemma DropAppend<T>(a: seq<T>, b: seq<T>)
    requires a != []
    ensures (a + b)[0] == a[0] && (a + b)[1..] == a[1..] + b
  {
  }

  /** One more element of a prefix. */
  lemma TakeMore<T>(s: seq<T>, i: nat)
    requires i < |s|
    ensures s[..i + 1] == s[..i] + [s[i]]
  {
  }

  /** A suffix is the slice up to `q` followed by the suffix from `q`. */
  lemma SuffixAt<T>(s: seq<T>, p: nat, q: nat)
    requires p <= q <= |s|
    ensures s[p..] == s[p..q] + s[q..]
  {
  }

  /** A slice inside the second part of a concatenation is a slice of that part. */
  lemma SliceRight<T>(a: seq<T>, b: seq<T>, p: nat, q: nat)
    requires p <= q <= |b|
    ensures (a + b)[|a| + p..|a| + q] == b[p..q] && (a + b)[|a| + p..] == b[p..]
  {
  }

  /** A slice inside the first part of a concatenation is a slice of that part. */
  lemma SliceLeft<T>(a: seq<T>, b: seq<T>, p: nat, q: nat)
    requires p <= q <= |a|
    ensures (a + b)[p..q] == a[p..q]
  {
  }

  /** Taking the whole length gives the sequence back. */
  lemma TakeAll<T>(s: seq<T>)
    ensures s[..|s|] == s
  {
  }

  /** The head and the tail of a sequence with one element put in front. */
  lemma Cons<T>(x: T, s: seq<T>)
    ensures ([x] + s)[0] == x && ([x] + s)[1..] == s
  {
  }

  /** Two parts of which one is empty can trade places in front of a third. */
  lemma SwapEmpty<T>(a: seq<T>, b: seq<T>, c: seq<T>)
    requires a == [] || b == []
    ensures a + (b + c) == b + (a + c)
  {
  }

  /** If `u` and `v` start alike and the rest of `u` is the rest of `v` followed by `t`, then `u` is `v` followed by `t`. */
  lemma SharedHead<T>(u: seq<T>, v: seq<T>, h: seq<T>, x: seq<T>, y: seq<T>, t: seq<T>)
    requires u == h + x && v == h + y && x == y + t
    ensures u == v + t
  {
    AppendAssociates(h, y, t);
  }
}
