/**
 * Characters and strings as the JavaScript of server/routes.ts sees them: the
 * `\s` class, `String.prototype.trim`, and the comparison a regular expression
 * with the `i` flag makes between two characters.
 */
module Text {

  /** JavaScript's WhiteSpace and LineTerminator code points: what `\s` matches and `trim` removes. */
  predicate IsSpace(c: char) {
    || c == '\t' || c == '\n' || c == '\U{000B}' || c == '\U{000C}' || c == '\r' || c == ' '
    || c == '\U{00A0}' || c == '\U{1680}' || ('\U{2000}' <= c <= '\U{200A}')
    || c == '\U{2028}' || c == '\U{2029}' || c == '\U{202F}' || c == '\U{205F}'
    || c == '\U{3000}' || c == '\U{FEFF}'
  }

  /**
   * Case folding for the letters of English and Vietnamese: an upper-case letter
   * is sent to its lower-case partner, every other character to itself. Two of
   * these letters are equal under the `i` flag exactly when their folds are.
   */
  function Fold(c: char): char {
    if 'A' <= c <= 'Z' then
      (c as int + 32) as char
    else if '\U{00C0}' <= c <= '\U{00DE}' && c != '\U{00D7}' then
      (c as int + 32) as char
    else if c == '\U{0102}' || c == '\U{0110}' || c == '\U{0128}' || c == '\U{0168}'
         || c == '\U{01A0}' || c == '\U{01AF}' then
      (c as int + 1) as char
    else if '\U{1EA0}' <= c <= '\U{1EF8}' && (c as int) % 2 == 0 then
      (c as int + 1) as char
    else
      c
  }

  /** A whitespace character folds to itself, so no letter of a marker phrase matches whitespace. */
  lemma FoldKeepsSpace(c: char)
    requires IsSpace(c)
    ensures Fold(c) == c
  {
  }

  /** The phrase `m` occurs, ignoring case, in `s` at position `k`. */
  predicate OccursAt(s: string, m: string, k: nat) {
    k + |m| <= |s| && forall j | 0 <= j < |m| :: Fold(s[k + j]) == Fold(m[j])
  }

  /** `s` holds the phrase `m` somewhere, ignoring case (a `match` with no capture). */
  predicate Contains(s: string, m: string) {
    exists k: nat | k <= |s| :: OccursAt(s, m, k)
  }

  /** An occurrence inside a slice of `s` is an occurrence in `s`. */
  lemma OccursInSlice(s: string, m: string, a: nat, b: nat, k: nat)
    requires a <= b <= |s|
    requires OccursAt(s[a..b], m, k)
    ensures OccursAt(s, m, a + k) && a + k + |m| <= b
  {
    forall j | 0 <= j < |m| ensures Fold(s[a + k + j]) == Fold(m[j]) {
      assert s[a..b][k + j] == s[a + k + j];
    }
  }

  /** The number of positions before the end of `s`, from `k` on, where `m` occurs. */
  function OccurrencesFrom(s: string, m: string, k: nat): nat
    decreases |s| - k
  {
    if k >= |s| then 0
    else (if OccursAt(s, m, k) then 1 else 0) + OccurrencesFrom(s, m, k + 1)
  }

  /** Positions without an occurrence add nothing to the count. */
  lemma {:induction false} OccurrencesSkip(s: string, m: string, a: nat, b: nat)
    requires a <= b
    requires forall k | a <= k < b :: !OccursAt(s, m, k)
    ensures OccurrencesFrom(s, m, a) == OccurrencesFrom(s, m, b)
    decreases b - a
  {
    if a < b && a < |s| {
      OccurrencesSkip(s, m, a + 1, b);
    } else if a < b {
      OccurrencesPastEnd(s, m, a);
      OccurrencesPastEnd(s, m, b);
    }
  }

  lemma OccurrencesPastEnd(s: string, m: string, k: nat)
    requires k >= |s|
    ensures OccurrencesFrom(s, m, k) == 0
  {
  }

  /** A string with no whitespace at either end. */
  predicate Trimmed(s: string) {
    s == [] || (!IsSpace(s[0]) && !IsSpace(s[|s| - 1]))
  }

  /** `s` without its leading whitespace. */
  function TrimStart(s: string): (r: string)
    ensures |r| <= |s|
    ensures r == [] || !IsSpace(r[0])
  {
    if s != [] && IsSpace(s[0]) then TrimStart(s[1..]) else s
  }

  /** `s` without its trailing whitespace. */
  function TrimEnd(s: string): (r: string)
    ensures |r| <= |s|
    ensures r == [] || !IsSpace(r[|r| - 1])
  {
    if s != [] && IsSpace(s[|s| - 1]) then TrimEnd(s[..|s| - 1]) else s
  }

  /** JavaScript's `trim`: the whitespace at both ends of `s` removed. */
  function Trim(s: string): (r: string)
    ensures Trimmed(r) && |r| <= |s|
  {
    TrimEndPrefix(TrimStart(s));
    TrimEnd(TrimStart(s))
  }

  /** The end of the run of whitespace that starts at `k` (a greedy `\s*`). */
  function SkipSpaces(s: string, k: nat): (r: nat)
    requires k <= |s|
    ensures k <= r <= |s|
    ensures forall j {:trigger IsSpace(s[j])} | k <= j < r :: IsSpace(s[j])
    ensures r == |s| || !IsSpace(s[r])
    decreases |s| - k
  {
    if k < |s| && IsSpace(s[k]) then SkipSpaces(s, k + 1) else k
  }

  /** TrimStart keeps a suffix of the string. */
  lemma {:induction false} TrimStartSuffix(s: string)
    ensures TrimStart(s) == s[|s| - |TrimStart(s)|..]
  {
    if s != [] && IsSpace(s[0]) {
      TrimStartSuffix(s[1..]);
      assert s[1..][|s| - 1 - |TrimStart(s)|..] == s[|s| - |TrimStart(s)|..];
    }
  }

  /** TrimEnd keeps a prefix of the string. */
  lemma {:induction false} TrimEndPrefix(s: string)
    ensures TrimEnd(s) == s[..|TrimEnd(s)|]
  {
    if s != [] && IsSpace(s[|s| - 1]) {
      TrimEndPrefix(s[..|s| - 1]);
      assert s[..|s| - 1][..|TrimEnd(s)|] == s[..|TrimEnd(s)|];
    }
  }

  /** `trim` keeps the slice of the string between its leading and its trailing whitespace. */
  lemma TrimSlice(s: string)
    ensures var a := |s| - |TrimStart(s)|; a + |Trim(s)| <= |s| && Trim(s) == s[a..a + |Trim(s)|]
  {
    TrimStartSuffix(s);
    TrimEndPrefix(TrimStart(s));
  }

  /** TrimStart removes only whitespace. */
  lemma {:induction false} TrimStartRemovesSpace(s: string)
    ensures forall k | 0 <= k < |s| - |TrimStart(s)| :: IsSpace(s[k])
  {
    if s != [] && IsSpace(s[0]) {
      TrimStartRemovesSpace(s[1..]);
      forall k | 0 <= k < |s| - |TrimStart(s)| ensures IsSpace(s[k]) {
        if k > 0 {
          assert s[k] == s[1..][k - 1];
        }
      }
    }
  }

  /** TrimEnd removes only whitespace. */
  lemma {:induction false} TrimEndRemovesSpace(s: string)
    ensures forall k | |TrimEnd(s)| <= k < |s| :: IsSpace(s[k])
  {
    if s != [] && IsSpace(s[|s| - 1]) {
      TrimEndRemovesSpace(s[..|s| - 1]);
      forall k | |TrimEnd(s)| <= k < |s| ensures IsSpace(s[k]) {
        if k < |s| - 1 {
          assert s[k] == s[..|s| - 1][k];
        }
      }
    }
  }

  /** `trim` leaves nothing exactly when the string is all whitespace. */
  lemma TrimEmpty(s: string)
    ensures Trim(s) == [] <==> forall k | 0 <= k < |s| :: IsSpace(s[k])
  {
    var t := TrimStart(s);
    TrimStartRemovesSpace(s);
    TrimEndRemovesSpace(t);
    TrimStartSuffix(s);
    TrimEndPrefix(t);
    if Trim(s) == [] {
      forall k | 0 <= k < |s| ensures IsSpace(s[k]) {
        if k >= |s| - |t| {
          assert s[k] == t[k - (|s| - |t|)];
        }
      }
    } else {
      var r := Trim(s);
      assert !IsSpace(r[0]);
      assert r[0] == t[0] == s[|s| - |t|];
    }
  }

  /** Trimming a trimmed string changes nothing; in particular `trim` is idempotent. */
  lemma TrimTrimmed(s: string)
    requires Trimmed(s)
    ensures Trim(s) == s
  {
  }
}
