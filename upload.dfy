/**
 * The pure helpers of server/routes.ts around the extractor: the filter that
 * decides which uploads are accepted, and the counts stored with a processed
 * document.
 */
module Upload {
  import opened Text

  const DOCX_MIME_TYPE: string := "application/vnd.openxmlformats-officedocument.wordprocessingml.document"

  /** The proper type, and the two that some browsers send for a .docx file. */
  const VALID_MIME_TYPES: seq<string> := [DOCX_MIME_TYPE, "application/octet-stream", "application/zip"]

  const EXTENSION: string := ".docx"

  const REJECT_PREFIX: string := "Only .docx files are allowed. Received: "
  const REJECT_INFIX: string := ", filename: "

  /** What the filter tells the upload middleware: take the file, or fail with a message. */
  datatype Verdict = Accept | Reject(message: string)

  /** `name.toLowerCase().endsWith('.docx')`. */
  predicate HasDocxExtension(name: string) {
    |name| >= |EXTENSION| && OccursAt(name, EXTENSION, |name| - |EXTENSION|)
  }

  /**
   * The upload filter: a file is accepted when its name ends with ".docx" in
   * any case, or its type is one of the three listed; otherwise the error
   * names both the type and the file name.
   */
  function FileFilter(name: string, mimetype: string): (r: Verdict)
    ensures r.Accept? <==> HasDocxExtension(name) || mimetype in VALID_MIME_TYPES
    ensures r.Reject? ==> |r.message| == |REJECT_PREFIX| + |mimetype| + |REJECT_INFIX| + |name|
  {
    if HasDocxExtension(name) || mimetype in VALID_MIME_TYPES then Accept
    else Reject(REJECT_PREFIX + mimetype + REJECT_INFIX + name)
  }

  /** A name whose last five characters spell ".docx" in any mix of cases is accepted, whatever its type. */
  lemma AnyCaseDocxAccepted(stem: string, extension: string, mimetype: string)
    requires |extension| == |EXTENSION|
    requires forall j | 0 <= j < |EXTENSION| :: Fold(extension[j]) == EXTENSION[j]
    ensures FileFilter(stem + extension, mimetype) == Accept
  {
    var name := stem + extension;
    forall j | 0 <= j < |EXTENSION|
      ensures Fold(name[|name| - |EXTENSION| + j]) == Fold(EXTENSION[j])
    {
      assert name[|name| - |EXTENSION| + j] == extension[j];
    }
  }

  /** ".DOCX" in capitals is accepted. */
  lemma UpperCaseDocxAccepted(stem: string, mimetype: string)
    ensures FileFilter(stem + ".DOCX", mimetype) == Accept
  {
    AnyCaseDocxAccepted(stem, ".DOCX", mimetype);
  }

  /** A listed type is accepted whatever the name. */
  lemma ListedTypeAccepted(name: string, mimetype: string)
    requires mimetype in VALID_MIME_TYPES
    ensures FileFilter(name, mimetype) == Accept
  {
  }

  /** A rejection quotes the type right after its prefix and ends with the file name. */
  lemma RejectionQuotesBoth(name: string, mimetype: string)
    requires FileFilter(name, mimetype).Reject?
    ensures var m := FileFilter(name, mimetype).message;
            && m[..|REJECT_PREFIX|] == REJECT_PREFIX
            && m[|REJECT_PREFIX|..|REJECT_PREFIX| + |mimetype|] == mimetype
            && m[|m| - |name|..] == name
  {
    var m := FileFilter(name, mimetype).message;
    assert m == REJECT_PREFIX + (mimetype + (REJECT_INFIX + name));
    assert m[|REJECT_PREFIX|..] == mimetype + (REJECT_INFIX + name);
    assert m[|m| - |name|..] == (REJECT_PREFIX + mimetype + REJECT_INFIX)[|m| - |name|..] + name;
  }

  /**
   * `s.split(/\s+/)`, from the piece that starts at `p`, with the scan at `q`:
   * every maximal run of whitespace separates two pieces, so text that starts
   * or ends with whitespace has an empty first or last piece.
   */
  function SplitOnSpaceFrom(s: string, p: nat, q: nat): (r: seq<string>)
    requires p <= q <= |s|
    ensures |r| >= 1
    decreases |s| - q
  {
    if q == |s| then [s[p..]]
    else if IsSpace(s[q]) then
      var e := SkipSpaces(s, q);
      [s[p..q]] + SplitOnSpaceFrom(s, e, e)
    else SplitOnSpaceFrom(s, p, q + 1)
  }

  function SplitOnSpace(s: string): seq<string> {
    SplitOnSpaceFrom(s, 0, 0)
  }

  /** `pieces.filter(word => word.length > 0).length`. */
  function NonEmptyCount(pieces: seq<string>): (r: nat)
    ensures r <= |pieces|
  {
    if pieces == [] then 0
    else (if pieces[0] != [] then 1 else 0) + NonEmptyCount(pieces[1..])
  }

  /** The word count stored with a document. */
  function WordCount(s: string): nat {
    NonEmptyCount(SplitOnSpace(s))
  }

  /** A word starts at `i`: a non-whitespace character at the start of the text or after whitespace. */
  predicate WordStart(s: string, i: nat)
    requires i < |s|
  {
    !IsSpace(s[i]) && (i == 0 || IsSpace(s[i - 1]))
  }

  /** The number of word starts at positions from `k` on. */
  function WordStartsFrom(s: string, k: nat): (r: nat)
    requires k <= |s|
    ensures r <= |s| - k
    decreases |s| - k
  {
    if k == |s| then 0
    else (if WordStart(s, k) then 1 else 0) + WordStartsFrom(s, k + 1)
  }

  /** Whitespace holds no word start. */
  lemma {:induction false} NoStartsInSpace(s: string, k: nat, e: nat)
    requires k <= e <= |s|
    requires forall j {:trigger IsSpace(s[j])} | k <= j < e :: IsSpace(s[j])
    ensures WordStartsFrom(s, k) == WordStartsFrom(s, e)
    decreases e - k
  {
    if k < e {
      assert IsSpace(s[k]);
      NoStartsInSpace(s, k + 1, e);
    }
  }

  /**
   * The pieces from `p` on hold as many words as there are word starts from
   * `q` on, plus one for the piece under way if it is not empty.
   */
  lemma {:induction false} SplitCountsStarts(s: string, p: nat, q: nat)
    requires p <= q <= |s|
    requires forall j {:trigger IsSpace(s[j])} | p <= j < q :: !IsSpace(s[j])
    requires p == 0 || IsSpace(s[p - 1])
    ensures NonEmptyCount(SplitOnSpaceFrom(s, p, q)) == (if p < q then 1 else 0) + WordStartsFrom(s, q)
    decreases |s| - q
  {
    if q == |s| {
    } else if IsSpace(s[q]) {
      var e := SkipSpaces(s, q);
      var rest := SplitOnSpaceFrom(s, e, e);
      assert SplitOnSpaceFrom(s, p, q) == [s[p..q]] + rest;
      assert ([s[p..q]] + rest)[1..] == rest;
      SplitCountsStarts(s, e, e);
      NoStartsInSpace(s, q, e);
    } else {
      SplitCountsStarts(s, p, q + 1);
      if p < q {
        assert !IsSpace(s[q - 1]);
      }
    }
  }

  /** The word count is the number of maximal runs of non-whitespace characters. */
  lemma WordCountIsWordStarts(s: string)
    ensures WordCount(s) == WordStartsFrom(s, 0)
  {
    SplitCountsStarts(s, 0, 0);
  }

  /** A word starts somewhere from `k` on exactly when a non-whitespace character does. */
  lemma {:induction false} StartsExist(s: string, k: nat)
    requires k <= |s|
    requires k == 0 || IsSpace(s[k - 1])
    ensures WordStartsFrom(s, k) == 0 <==> forall j | k <= j < |s| :: IsSpace(s[j])
    decreases |s| - k
  {
    if k < |s| {
      if IsSpace(s[k]) {
        StartsExist(s, k + 1);
      } else {
        assert WordStart(s, k);
      }
    }
  }

  /** Text counts zero words exactly when it is all whitespace. */
  lemma WordCountZero(s: string)
    ensures WordCount(s) == 0 <==> forall j | 0 <= j < |s| :: IsSpace(s[j])
  {
    WordCountIsWordStarts(s);
    StartsExist(s, 0);
  }

  const WORDS_PER_PAGE: nat := 250

  /** `Math.ceil(wordCount / 250)`, in integer arithmetic. */
  function PageCount(wordCount: nat): (r: nat)
    ensures wordCount <= WORDS_PER_PAGE * r
    ensures r == 0 || WORDS_PER_PAGE * (r - 1) < wordCount
  {
    (wordCount + WORDS_PER_PAGE - 1) / WORDS_PER_PAGE
  }

  /** The code units one character takes in a JavaScript string. */
  function CodeUnits(c: char): (r: nat)
    ensures 1 <= r <= 2
  {
    if c as int >= 0x1_0000 then 2 else 1
  }

  /** `text.length`: JavaScript counts UTF-16 code units, two for a character beyond U+FFFF. */
  function CharacterCount(s: string): (r: nat)
    ensures |s| <= r <= 2 * |s|
  {
    if s == [] then 0 else CodeUnits(s[0]) + CharacterCount(s[1..])
  }

  /** The character count is the number of characters exactly when all lie in the basic multilingual plane. */
  lemma {:induction false} CharacterCountBasic(s: string)
    ensures CharacterCount(s) == |s| <==> forall j | 0 <= j < |s| :: s[j] as int < 0x1_0000
  {
    if s != [] {
      CharacterCountBasic(s[1..]);
      assert forall j | 1 <= j < |s| :: s[j] == s[1..][j - 1];
    }
  }
}
