/**
 * The one shape of regular expression server/routes.ts uses to pull a field out
 * of a section, evaluated the way JavaScript's `String.prototype.match` does
 * without the `g` flag and with the `i` flag:
 *
 *     opener \s* [separators]? \s* (body*?) (?=stop1|stop2|...|$)
 *
 * The opener is a literal phrase; the capture is lazy, so it ends at the first
 * position where one of the lookahead alternatives holds; the body may be
 * restricted to characters outside an excluded class. The match returned is the
 * leftmost one.
 */
module Patterns {
  import opened Wrappers
  import opened Text

  datatype Pattern = Pattern(
    opener: string,       // the literal the match starts with
    separators: string,   // the characters of an optional `[..]?` between two `\s*`; empty when the regex has one `\s*`
    excluded: string,     // the characters of a negated body class `[^..]`; empty for `[\s\S]`
    stops: seq<string>,   // the literal alternatives of the lookahead that ends the body
    stopAtEnd: bool)      // whether `$` (end of input) is one of those alternatives

  /** Where a match is: the opener at `open`, the captured body `s[start..end]`. */
  datatype Span = Span(open: nat, start: nat, end: nat)

  /** Past one separator character at `k`, if there is one (a greedy `[..]?`). */
  function SkipSeparator(s: string, p: Pattern, k: nat): (r: nat)
    requires k <= |s|
    ensures r == k || (r == k + 1 && k < |s| && s[k] in p.separators)
  {
    if k < |s| && s[k] in p.separators then k + 1 else k
  }

  /** Where the captured body starts when the opener is at `i`. */
  function BodyStart(s: string, p: Pattern, i: nat): (r: nat)
    requires i + |p.opener| <= |s|
    ensures i + |p.opener| <= r <= |s|
  {
    SkipSpaces(s, SkipSeparator(s, p, SkipSpaces(s, i + |p.opener|)))
  }

  /** The lookahead that ends the body holds at position `e`. */
  predicate StopAt(s: string, p: Pattern, e: nat) {
    (p.stopAtEnd && e == |s|) || exists t | t in p.stops :: OccursAt(s, t, e)
  }

  /** `c` may stand in the body: no excluded character equals it ignoring case. */
  predicate BodyChar(p: Pattern, c: char) {
    forall x | x in p.excluded :: Fold(x) != Fold(c)
  }

  /**
   * The lazy body that starts at `b` ends at `e`: the lookahead holds at `e`,
   * holds nowhere before it, and every character in between may stand in the body.
   */
  predicate LazyBody(s: string, p: Pattern, b: nat, e: nat) {
    && b <= e <= |s|
    && StopAt(s, p, e)
    && forall k {:trigger StopAt(s, p, k)} | b <= k < e :: !StopAt(s, p, k) && BodyChar(p, s[k])
  }

  /** Every character of a found body is one the pattern admits. */
  lemma FoundBodyChars(s: string, p: Pattern)
    requires Find(s, p).Some?
    ensures var sp := Find(s, p).value;
            && sp.start <= sp.end <= |s|
            && forall j | sp.start <= j < sp.end :: BodyChar(p, s[j])
  {
    var sp := Find(s, p).value;
    MatchAtSpec(s, p, sp.open);
    forall j | sp.start <= j < sp.end ensures BodyChar(p, s[j]) {
      assert !StopAt(s, p, j);
    }
  }

  /** The scan of a lazy body: try the lookahead, else take one more body character. */
  function ScanBody(s: string, p: Pattern, e: nat): (r: Option<nat>)
    requires e <= |s|
    ensures r.Some? ==> e <= r.value <= |s|
    decreases |s| - e
  {
    if StopAt(s, p, e) then Some(e)
    else if e == |s| || !BodyChar(p, s[e]) then None
    else ScanBody(s, p, e + 1)
  }

  /** The scan finds the lazy body, and finds none exactly when there is none. */
  lemma {:induction false} ScanBodyFindsLazyBody(s: string, p: Pattern, e: nat)
    requires e <= |s|
    ensures ScanBody(s, p, e).Some? ==> LazyBody(s, p, e, ScanBody(s, p, e).value)
    ensures ScanBody(s, p, e).None? ==> forall f: nat :: !LazyBody(s, p, e, f)
    decreases |s| - e
  {
    if StopAt(s, p, e) {
      assert LazyBody(s, p, e, e);
    } else if e == |s| || !BodyChar(p, s[e]) {
      NoLazyBodyFrom(s, p, e);
    } else {
      ScanBodyFindsLazyBody(s, p, e + 1);
      LazyBodyStep(s, p, e);
    }
  }

  /** Where the lookahead fails and the character cannot be taken, no body starts. */
  lemma NoLazyBodyFrom(s: string, p: Pattern, e: nat)
    requires e <= |s| && !StopAt(s, p, e)
    requires e == |s| || !BodyChar(p, s[e])
    ensures forall f: nat :: !LazyBody(s, p, e, f)
  {
    forall f: nat ensures !LazyBody(s, p, e, f) {
      if e < f <= |s| {
        assert !BodyChar(p, s[e]);
      }
    }
  }

  /** Where the lookahead fails and the character can be taken, the body goes on from the next one. */
  lemma LazyBodyStep(s: string, p: Pattern, e: nat)
    requires e < |s| && !StopAt(s, p, e) && BodyChar(p, s[e])
    ensures forall f: nat :: LazyBody(s, p, e, f) <==> LazyBody(s, p, e + 1, f)
  {
    forall f: nat ensures LazyBody(s, p, e, f) <==> LazyBody(s, p, e + 1, f) {
      if LazyBody(s, p, e + 1, f) {
        forall k | e <= k < f ensures !StopAt(s, p, k) && BodyChar(p, s[k]) {
          if k > e {
            assert e + 1 <= k < f && !StopAt(s, p, k);
          }
        }
      }
      if LazyBody(s, p, e, f) {
        assert f != e;
        forall k | e + 1 <= k < f ensures !StopAt(s, p, k) && BodyChar(p, s[k]) {
          assert e <= k < f && !StopAt(s, p, k);
        }
      }
    }
  }

  /**
   * The attempt to match at position `i`, by the greedy first try of the
   * whitespace and the separator; `GreedyStartSuffices` shows that backtracking
   * into them cannot rescue a failed attempt when `StopsStartApart` holds.
   */
  function MatchAt(s: string, p: Pattern, i: nat): (r: Option<Span>)
    ensures r.Some? ==> r.value.open == i && i + |p.opener| <= r.value.start <= r.value.end <= |s|
  {
    if OccursAt(s, p.opener, i) then
      var b := BodyStart(s, p, i);
      var e := ScanBody(s, p, b);
      if e.Some? then Some(Span(i, b, e.value)) else None
    else
      None
  }

  /**
   * An attempt succeeds exactly when the opener occurs at `i` and a lazy body
   * starts where the whitespace and separator after it end; the body it
   * captures is that lazy body.
   */
  lemma MatchAtSpec(s: string, p: Pattern, i: nat)
    ensures MatchAt(s, p, i).Some? ==> && OccursAt(s, p.opener, i)
                                       && MatchAt(s, p, i).value.start == BodyStart(s, p, i)
                                       && LazyBody(s, p, MatchAt(s, p, i).value.start, MatchAt(s, p, i).value.end)
    ensures MatchAt(s, p, i).None? ==> || !OccursAt(s, p.opener, i)
                                       || forall f: nat :: !LazyBody(s, p, BodyStart(s, p, i), f)
  {
    if OccursAt(s, p.opener, i) {
      ScanBodyFindsLazyBody(s, p, BodyStart(s, p, i));
    }
  }

  /**
   * No stop phrase can begin on a whitespace character or on a separator: the
   * first letter of every stop phrase folds to neither.
   */
  predicate StopsStartApart(p: Pattern) {
    forall t | t in p.stops ::
      && t != []
      && !IsSpace(Fold(t[0]))
      && forall c | c in p.separators :: Fold(c) != Fold(t[0])
  }

  /** Between the opener and the body's start the greedy first try passes only whitespace and a separator. */
  lemma BodyStartSkips(s: string, p: Pattern, i: nat)
    requires i + |p.opener| <= |s|
    ensures forall k | i + |p.opener| <= k < BodyStart(s, p, i) :: IsSpace(s[k]) || s[k] in p.separators
  {
    var k1 := SkipSpaces(s, i + |p.opener|);
    var k2 := SkipSeparator(s, p, k1);
    assert BodyStart(s, p, i) == SkipSpaces(s, k2);
    forall k | i + |p.opener| <= k < BodyStart(s, p, i) ensures IsSpace(s[k]) || s[k] in p.separators {
      if k < k1 {
        assert IsSpace(s[k]);
      } else if k < k2 {
        assert s[k] in p.separators;
      } else {
        assert IsSpace(s[k]);
      }
    }
  }

  /**
   * Backtracking into `\s*` and the optional separator cannot rescue a failed
   * greedy try: when no stop phrase begins on whitespace or a separator, a lazy
   * body from any earlier start gives one from the greedy start, with the same end.
   */
  lemma GreedyStartSuffices(s: string, p: Pattern, i: nat, b: nat, f: nat)
    requires StopsStartApart(p)
    requires i + |p.opener| <= |s|
    requires i + |p.opener| <= b <= BodyStart(s, p, i)
    requires LazyBody(s, p, b, f)
    ensures LazyBody(s, p, BodyStart(s, p, i), f)
  {
    var b0 := BodyStart(s, p, i);
    if f < b0 {
      BodyStartSkips(s, p, i);
      var t :| t in p.stops && OccursAt(s, t, f);
      assert Fold(s[f + 0]) == Fold(t[0]);
      if IsSpace(s[f]) {
        FoldKeepsSpace(s[f]);
      }
      assert false;
    }
  }

  /**
   * The engine's scan: the first position from `i` on, below `n`, where
   * `attempt` succeeds.
   */
  function FirstSuccess(attempt: nat -> Option<Span>, i: nat, n: nat): (r: Option<nat>)
    ensures r.Some? ==> i <= r.value < n && attempt(r.value).Some?
    decreases n - i
  {
    if i >= n then None
    else if attempt(i).Some? then Some(i)
    else FirstSuccess(attempt, i + 1, n)
  }

  /** The scan passes over failed attempts only. */
  lemma {:induction false} FirstSuccessSkips(attempt: nat -> Option<Span>, i: nat, n: nat, j: nat)
    requires i <= j
    requires FirstSuccess(attempt, i, n).Some? && j < FirstSuccess(attempt, i, n).value
    ensures attempt(j).None?
    decreases j - i
  {
    if j > i {
      FirstSuccessSkips(attempt, i + 1, n, j);
    }
  }

  /** A scan that finds nothing has seen every attempt fail. */
  lemma {:induction false} FirstSuccessNone(attempt: nat -> Option<Span>, i: nat, n: nat, j: nat)
    requires i <= j < n
    requires FirstSuccess(attempt, i, n).None?
    ensures attempt(j).None?
    decreases j - i
  {
    if j > i {
      FirstSuccessNone(attempt, i + 1, n, j);
    }
  }

  /** The attempt at each position of `s`. */
  function Attempts(s: string, p: Pattern): nat -> Option<Span> {
    (j: nat) => MatchAt(s, p, j)
  }

  /** No attempt succeeds where the opener would run past the end of the text. */
  lemma NoRoomNoMatch(s: string, p: Pattern, j: nat)
    requires j + |p.opener| > |s|
    ensures MatchAt(s, p, j).None?
  {
  }

  /** `s.match(p)`: the leftmost match, trying every position from 0 to the length of `s`. */
  function Find(s: string, p: Pattern): (r: Option<Span>)
    ensures r.Some? ==> MatchAt(s, p, r.value.open) == r
  {
    match FirstSuccess(Attempts(s, p), 0, |s| + 1)
    case Some(k) => MatchAt(s, p, k)
    case None => None
  }

  /** Every attempt before the match found fails. */
  lemma FindSkips(s: string, p: Pattern, j: nat)
    ensures Find(s, p).Some? && j < Find(s, p).value.open ==> MatchAt(s, p, j).None?
  {
    var k := FirstSuccess(Attempts(s, p), 0, |s| + 1);
    if k.Some? && j < k.value {
      FirstSuccessSkips(Attempts(s, p), 0, |s| + 1, j);
    }
  }

  /** When nothing is found, every attempt fails. */
  lemma FindFails(s: string, p: Pattern, j: nat)
    ensures Find(s, p).None? ==> MatchAt(s, p, j).None?
  {
    if FirstSuccess(Attempts(s, p), 0, |s| + 1).None? {
      if j <= |s| {
        FirstSuccessNone(Attempts(s, p), 0, |s| + 1, j);
      } else {
        NoRoomNoMatch(s, p, j);
      }
    }
  }

  /** `s.match(p)[1]`: the text the body captured, if the pattern matched. */
  function Capture(s: string, p: Pattern): (r: Option<string>)
    ensures r.Some? <==> Find(s, p).Some?
  {
    var f := Find(s, p);
    if f.Some? then Some(s[f.value.start..f.value.end]) else None
  }

  /**
   * The match returned is the leftmost: wherever an attempt would succeed, the
   * search succeeds there or earlier. The search runs over the whole text, so
   * an opener inside some other field's text is found first.
   */
  lemma FindIsLeftmost(s: string, p: Pattern, i: nat)
    requires MatchAt(s, p, i).Some?
    ensures Find(s, p).Some? && Find(s, p).value.open <= i
  {
    FindFails(s, p, i);
    FindSkips(s, p, i);
  }

  /** A match starts at an occurrence of the opener. */
  lemma MatchNeedsOpener(s: string, p: Pattern)
    ensures Find(s, p).Some? ==> Contains(s, p.opener)
  {
    if Find(s, p).Some? {
      var sp := Find(s, p).value;
      MatchAtSpec(s, p, sp.open);
      assert OccursAt(s, p.opener, sp.open);
    }
  }

  /** A pattern without `$` matches only where one of its stop phrases occurs. */
  lemma MatchNeedsStop(s: string, p: Pattern)
    requires !p.stopAtEnd
    ensures Find(s, p).Some? ==> exists t | t in p.stops :: Contains(s, t)
  {
    if Find(s, p).Some? {
      var sp := Find(s, p).value;
      MatchAtSpec(s, p, sp.open);
      assert StopAt(s, p, sp.end);
      var t :| t in p.stops && OccursAt(s, t, sp.end);
      assert Contains(s, t);
    }
  }

  /** A pattern with `$` and an unrestricted body matches as soon as its opener occurs. */
  lemma OpenerSuffices(s: string, p: Pattern)
    requires p.stopAtEnd && p.excluded == []
    ensures Contains(s, p.opener) ==> Find(s, p).Some?
  {
    if Contains(s, p.opener) {
      var k: nat :| k <= |s| && OccursAt(s, p.opener, k);
      LazyBodyExists(s, p, BodyStart(s, p, k));
      MatchAtSpec(s, p, k);
      FindFails(s, p, k);
    }
  }

  /** With `$` and an unrestricted body, a lazy body starts at every position. */
  lemma {:induction false} LazyBodyExists(s: string, p: Pattern, b: nat)
    requires p.stopAtEnd && p.excluded == [] && b <= |s|
    ensures exists f: nat :: LazyBody(s, p, b, f)
    decreases |s| - b
  {
    if StopAt(s, p, b) {
      assert LazyBody(s, p, b, b);
    } else {
      LazyBodyExists(s, p, b + 1);
      var f: nat :| LazyBody(s, p, b + 1, f);
      assert BodyChar(p, s[b]);
      LazyBodyStep(s, p, b);
      assert LazyBody(s, p, b, f);
    }
  }
}
