/**
 * `text.split(/(?=m)/i)`: JavaScript's split on a lookahead, which cuts the text
 * in front of every occurrence of the phrase `m` except one at the very start,
 * and keeps the text before the first occurrence as a piece of its own.
 */
module Sections {
  import opened Text
  import opened Seqs

  /**
   * The split loop of `RegExp.prototype[Symbol.split]`: `p` is where the current
   * piece began and `q` the next position to try. An occurrence at `q` cuts only
   * if the piece it would end is not empty.
   */
  function SplitFrom(s: string, m: string, p: nat, q: nat): (r: seq<string>)
    requires p <= q <= |s|
    ensures |r| >= 1
    decreases |s| - q
  {
    if q == |s| then [s[p..]]
    else if p < q && OccursAt(s, m, q) then [s[p..q]] + SplitFrom(s, m, q, q + 1)
    else SplitFrom(s, m, p, q + 1)
  }

  function SplitBefore(s: string, m: string): seq<string> {
    SplitFrom(s, m, 0, 0)
  }

  /** The pieces laid end to end. */
  function Concat(pieces: seq<string>): string {
    if pieces == [] then [] else pieces[0] + Concat(pieces[1..])
  }

  /** Splitting loses and reorders nothing: the pieces, in order, make up the text. */
  lemma {:induction false} SplitFromConcat(s: string, m: string, p: nat, q: nat)
    requires p <= q <= |s|
    ensures Concat(SplitFrom(s, m, p, q)) == s[p..]
    decreases |s| - q
  {
    if q == |s| {
    } else if p < q && OccursAt(s, m, q) {
      SplitFromConcat(s, m, q, q + 1);
      SuffixAt(s, p, q);
    } else {
      SplitFromConcat(s, m, p, q + 1);
    }
  }

  lemma SplitConcat(s: string, m: string)
    ensures Concat(SplitBefore(s, m)) == s
  {
    SplitFromConcat(s, m, 0, 0);
  }

  /** Text with no occurrence of the phrase after its first position is one piece. */
  lemma {:induction false} SplitFromNone(s: string, m: string, q: nat)
    requires q <= |s|
    requires forall k | 0 < k < |s| :: !OccursAt(s, m, k)
    ensures SplitFrom(s, m, 0, q) == [s]
    decreases |s| - q
  {
    if q < |s| {
      SplitFromNone(s, m, q + 1);
    }
  }

  /**
   * A segment, a text that holds the phrase at most at its start, is split into
   * itself alone: a cut is made only in front of a later occurrence.
   */
  lemma SplitSegment(s: string, m: string)
    requires forall k | 0 < k < |s| :: !OccursAt(s, m, k)
    ensures SplitBefore(s, m) == [s]
  {
    SplitFromNone(s, m, 0);
  }

  lemma SplitNone(s: string, m: string)
    requires !Contains(s, m)
    ensures SplitBefore(s, m) == [s]
  {
    SplitSegment(s, m);
  }

  /** The number of pieces that hold the phrase somewhere. */
  function Bearing(pieces: seq<string>, m: string): nat {
    if pieces == [] then 0
    else (if Contains(pieces[0], m) then 1 else 0) + Bearing(pieces[1..], m)
  }

  /** A piece that starts at `p` and meets no occurrence after `p` holds the phrase only at its start. */
  lemma PieceBearsAtStart(s: string, m: string, p: nat, c: nat)
    requires p <= c <= |s|
    requires forall k | p < k < c :: !OccursAt(s, m, k)
    requires Contains(s[p..c], m)
    ensures OccursAt(s, m, p)
  {
    var k: nat :| k <= |s[p..c]| && OccursAt(s[p..c], m, k);
    OccursInSlice(s, m, p, c, k);
    if |m| > 0 {
      assert p + k < c;
      assert k == 0;
    } else {
      assert OccursAt(s, m, p);
    }
  }

  /** The pieces that hold the phrase, counted one piece at a time. */
  lemma BearingCons(x: string, rest: seq<string>, m: string)
    ensures Bearing([x] + rest, m) == (if Contains(x, m) then 1 else 0) + Bearing(rest, m)
  {
    Cons(x, rest);
  }

  /**
   * A piece from `p` to `c` meeting no occurrence after `p` counts at most the
   * occurrences between `p` and `c`.
   */
  lemma PieceCount(s: string, m: string, p: nat, c: nat)
    requires |m| > 0 && p <= c <= |s|
    requires forall k | p < k < c :: !OccursAt(s, m, k)
    ensures (if Contains(s[p..c], m) then 1 else 0) + OccurrencesFrom(s, m, c) <= OccurrencesFrom(s, m, p)
  {
    if p < c {
      OccurrencesSkip(s, m, p + 1, c);
      if Contains(s[p..c], m) {
        PieceBearsAtStart(s, m, p, c);
      }
    } else {
      assert !OccursAt(s[p..c], m, 0);
    }
  }

  /** The last piece, from `p` to the end, holds the phrase at most once per occurrence. */
  lemma BearingLast(s: string, m: string, p: nat)
    requires |m| > 0 && p <= |s|
    requires forall k | p < k < |s| :: !OccursAt(s, m, k)
    ensures Bearing(SplitFrom(s, m, p, |s|), m) <= OccurrencesFrom(s, m, p)
  {
    BearingCons(s[p..], [], m);
    assert s[p..] == s[p..|s|];
    PieceCount(s, m, p, |s|);
  }

  /** A cut at `q` adds the piece from `p` to `q`, which holds the phrase at most at `p`. */
  lemma BearingCut(s: string, m: string, p: nat, q: nat)
    requires |m| > 0 && p < q < |s| && OccursAt(s, m, q)
    requires forall k | p < k < q :: !OccursAt(s, m, k)
    requires Bearing(SplitFrom(s, m, q, q + 1), m) <= OccurrencesFrom(s, m, q)
    ensures Bearing(SplitFrom(s, m, p, q), m) <= OccurrencesFrom(s, m, p)
  {
    BearingCons(s[p..q], SplitFrom(s, m, q, q + 1), m);
    PieceCount(s, m, p, q);
  }

  /**
   * Each piece holds at most the one occurrence it starts with, so no more pieces
   * hold the phrase than there are occurrences of it.
   */
  lemma {:induction false} BearingFromAtMostOccurrences(s: string, m: string, p: nat, q: nat)
    requires |m| > 0 && p <= q <= |s|
    requires forall k | p < k < q :: !OccursAt(s, m, k)
    ensures Bearing(SplitFrom(s, m, p, q), m) <= OccurrencesFrom(s, m, p)
    decreases |s| - q
  {
    if q == |s| {
      BearingLast(s, m, p);
    } else if p < q && OccursAt(s, m, q) {
      BearingFromAtMostOccurrences(s, m, q, q + 1);
      BearingCut(s, m, p, q);
    } else {
      BearingFromAtMostOccurrences(s, m, p, q + 1);
    }
  }

  lemma BearingAtMostOccurrences(s: string, m: string)
    requires |m| > 0
    ensures Bearing(SplitBefore(s, m), m) <= OccurrencesFrom(s, m, 0)
  {
    BearingFromAtMostOccurrences(s, m, 0, 0);
  }

  /** No character after the first of `m` matches the first one, so two occurrences never overlap. */
  predicate Unbordered(m: string) {
    forall d | 0 < d < |m| :: Fold(m[d]) != Fold(m[0])
  }

  /** An occurrence of an unbordered phrase rules out another that would overlap it from the left. */
  lemma NoOverlap(s: string, m: string, k: nat, l: nat)
    requires Unbordered(m) && OccursAt(s, m, l)
    requires k < l < k + |m|
    ensures !OccursAt(s, m, k)
  {
    assert Fold(s[l + 0]) == Fold(m[0]);
    assert Fold(m[l - k]) != Fold(m[0]);
    assert Fold(s[k + (l - k)]) != Fold(m[l - k]);
  }

  /** Moving the split past a prefix `a` shifts every piece of `b`'s split. */
  lemma {:induction false} SplitFromShift(a: string, b: string, m: string, p: nat, q: nat)
    requires p <= q <= |b|
    ensures SplitFrom(a + b, m, |a| + p, |a| + q) == SplitFrom(b, m, p, q)
    decreases |b| - q
  {
    var s := a + b;
    SliceRight(a, b, p, q);
    if q < |b| {
      assert OccursAt(s, m, |a| + q) == OccursAt(b, m, q) by {
        forall i | q <= i < |b| ensures s[|a| + i] == b[i] { }
      }
      SplitFromShift(a, b, m, q, q + 1);
      SplitFromShift(a, b, m, p, q + 1);
    }
  }

  /** The occurrence `b` starts with is an occurrence in `a + b`. */
  lemma OccursAtJoin(a: string, b: string, m: string)
    requires OccursAt(b, m, 0)
    ensures OccursAt(a + b, m, |a|)
  {
    forall i | 0 <= i < |b| ensures (a + b)[|a| + i] == b[i] { }
  }

  /** Before `|a|`, the phrase occurs in `a + b` where it occurs in `a`: none can reach across into `b`. */
  lemma OccursBeforeJoin(a: string, b: string, m: string, q: nat)
    requires Unbordered(m) && OccursAt(b, m, 0) && q < |a|
    ensures OccursAt(a + b, m, q) == OccursAt(a, m, q)
  {
    var s := a + b;
    if q + |m| <= |a| {
      forall i | q <= i < q + |m| ensures s[i] == a[i] { }
    } else {
      OccursAtJoin(a, b, m);
      NoOverlap(s, m, q, |a|);
    }
  }

  /** At the cut `|a|` itself, the split of `a + b` ends `a`'s piece and goes on with `b`'s split. */
  lemma SplitAtJoin(a: string, b: string, m: string, p: nat)
    requires OccursAt(b, m, 0) && |m| > 0 && p < |a|
    ensures SplitFrom(a + b, m, p, |a|) == SplitFrom(a, m, p, |a|) + SplitBefore(b, m)
  {
    var s := a + b;
    OccursAtJoin(a, b, m);
    assert |a| < |s|;
    assert SplitFrom(s, m, p, |a|) == [s[p..|a|]] + SplitFrom(s, m, |a|, |a| + 1);
    assert s[p..|a|] == a[p..];
    SplitFromShift(a, b, m, 0, 1);
    assert SplitFrom(b, m, 0, 0) == SplitFrom(b, m, 0, 1);
  }

  /** One step of the split loop: an occurrence at `q` cuts the piece begun at `p`. */
  lemma SplitCut(s: string, m: string, p: nat, q: nat)
    requires p < q < |s| && OccursAt(s, m, q)
    ensures SplitFrom(s, m, p, q) == [s[p..q]] + SplitFrom(s, m, q, q + 1)
  {
  }

  /** One step of the split loop: no cut at `q`. */
  lemma SplitSkip(s: string, m: string, p: nat, q: nat)
    requires p <= q < |s| && !(p < q && OccursAt(s, m, q))
    ensures SplitFrom(s, m, p, q) == SplitFrom(s, m, p, q + 1)
  {
  }

  /** Before the cut at `|a|`, splitting `a + b` splits `a`; from that cut on, it splits `b`. */
  lemma {:induction false} SplitFromAppend(a: string, b: string, s: string, m: string, p: nat, q: nat)
    requires s == a + b
    requires Unbordered(m) && |m| > 0 && OccursAt(b, m, 0)
    requires p <= q <= |a| && p < |a|
    ensures SplitFrom(s, m, p, q) == SplitFrom(a, m, p, q) + SplitBefore(b, m)
    decreases |a| - q, 1
  {
    if q == |a| {
      SplitAtJoin(a, b, m, p);
    } else {
      OccursBeforeJoin(a, b, m, q);
      if p < q && OccursAt(a, m, q) {
        SplitCut(s, m, p, q);
        SplitCut(a, m, p, q);
        SliceLeft(a, b, p, q);
        JoinCut(a, b, s, m, p, q);
      } else {
        JoinSkip(a, b, s, m, p, q);
      }
    }
  }

  /**
   * The inductive step of SplitFromAppend where `a`, and so `a + b`, is cut at
   * `q`: both splits start with the same piece.
   */
  lemma {:induction false} JoinCut(a: string, b: string, s: string, m: string, p: nat, q: nat)
    requires s == a + b
    requires Unbordered(m) && |m| > 0 && OccursAt(b, m, 0)
    requires p < q < |a|
    requires SplitFrom(s, m, p, q) == [a[p..q]] + SplitFrom(s, m, q, q + 1)
    requires SplitFrom(a, m, p, q) == [a[p..q]] + SplitFrom(a, m, q, q + 1)
    ensures SplitFrom(s, m, p, q) == SplitFrom(a, m, p, q) + SplitBefore(b, m)
    decreases |a| - q, 0
  {
    SplitFromAppend(a, b, s, m, q, q + 1);
    SharedHead(SplitFrom(s, m, p, q), SplitFrom(a, m, p, q), [a[p..q]],
               SplitFrom(s, m, q, q + 1), SplitFrom(a, m, q, q + 1), SplitBefore(b, m));
  }

  /** The inductive step of SplitFromAppend where neither `a` nor `a + b` is cut at `q`. */
  lemma {:induction false} JoinSkip(a: string, b: string, s: string, m: string, p: nat, q: nat)
    requires s == a + b
    requires Unbordered(m) && |m| > 0 && OccursAt(b, m, 0)
    requires p <= q < |a| && !(p < q && OccursAt(a, m, q)) && !(p < q && OccursAt(s, m, q))
    ensures SplitFrom(s, m, p, q) == SplitFrom(a, m, p, q) + SplitBefore(b, m)
    decreases |a| - q, 0
  {
    calc {
      SplitFrom(s, m, p, q);
      { SplitSkip(s, m, p, q); }
      SplitFrom(s, m, p, q + 1);
      { SplitFromAppend(a, b, s, m, p, q + 1); }
      SplitFrom(a, m, p, q + 1) + SplitBefore(b, m);
      { SplitSkip(a, m, p, q); }
      SplitFrom(a, m, p, q) + SplitBefore(b, m);
    }
  }

  /** Text that ends where an occurrence of `m` begins is split on its own. */
  lemma SplitAppend(a: string, b: string, m: string)
    requires Unbordered(m) && |m| > 0 && OccursAt(b, m, 0) && a != []
    ensures SplitBefore(a + b, m) == SplitBefore(a, m) + SplitBefore(b, m)
  {
    SplitFromAppend(a, b, a + b, m, 0, 0);
  }
}
