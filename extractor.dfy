/**
 * `extractQuestionsFromText` of server/routes.ts: a quiz transcript is cut in
 * front of every "Đoạn văn câu hỏi" ("question-text paragraph"), and each section
 * that holds that phrase is searched, field by field, with its own regular
 * expression for the prompt, the answers a. to d., the stated correct answer
 * ("Đáp án đúng là:"), the explanation ("Vì:") and the reference ("Tham khảo:").
 */
module Extractor {
  import opened Wrappers
  import opened Text
  import opened Patterns
  import opened Sections
  import opened Schema
  import opened Seqs

  const BOUNDARY: string := "Đoạn văn câu hỏi"

  /** `/Đoạn văn câu hỏi\s*[:\-]?\s*([\s\S]*?)(?=Select one)/i` */
  const PROMPT: Pattern := Pattern(BOUNDARY, ":-", "", ["Select one"], false)

  /** `/a\.\s*([\s\S]*?)(?=b\.)/i` and its three siblings; answer d. ends at "Phản hồi" ("feedback"). */
  const ANSWER_A: Pattern := Pattern("a.", "", "", ["b."], false)
  const ANSWER_B: Pattern := Pattern("b.", "", "", ["c."], false)
  const ANSWER_C: Pattern := Pattern("c.", "", "", ["d."], false)
  const ANSWER_D: Pattern := Pattern("d.", "", "", ["Phản hồi"], false)

  /** `/Đáp án đúng là:\s*([^Vì]*?)(?=Vì:|$)/i` */
  const CORRECT: Pattern := Pattern("Đáp án đúng là:", "", "Vì", ["Vì:"], true)

  /** `/Vì:\s*([\s\S]*?)(?=Tham khảo|Câu hỏi|$)/i` */
  const EXPLAIN: Pattern := Pattern("Vì:", "", "", ["Tham khảo", "Câu hỏi"], true)

  /** `/Tham khảo:\s*([\s\S]*?)(?=Câu hỏi|$)/i` */
  const REFERENCE: Pattern := Pattern("Tham khảo:", "", "", ["Câu hỏi"], true)

  const LETTERS: string := "abcd"

  /** A pattern whose only stop phrase starts with the letter `c`, and which has no separator, needs no backtracking. */
  lemma OneLetterStartApart(p: Pattern, c: char)
    requires p.separators == [] && |p.stops| >= 1
    requires forall t | t in p.stops :: t != [] && t[0] == c
    requires 'A' <= c <= 'Z' || 'a' <= c <= 'z'
    ensures StopsStartApart(p)
  {
  }

  /** The prompt ends at "Select one", whose "S" is neither whitespace nor ":" nor "-". */
  lemma PromptNeedsNoBacktracking()
    ensures StopsStartApart(PROMPT)
  {
    assert PROMPT.stops == ["Select one"] && PROMPT.separators == ":-";
    assert Fold('S') == 's' && Fold(':') == ':' && Fold('-') == '-';
  }

  /** The explanation ends at "Tham khảo" or "Câu hỏi", both starting with a letter. */
  lemma ExplainNeedsNoBacktracking()
    ensures StopsStartApart(EXPLAIN)
  {
    assert EXPLAIN.stops == ["Tham khảo", "Câu hỏi"] && EXPLAIN.separators == [];
    assert Fold('T') == 't' && Fold('C') == 'c';
  }

  /**
   * Every lookahead phrase of the seven field expressions starts with a letter,
   * so the greedy first try of `\s*` and `[:\-]?` decides each attempt.
   */
  lemma FieldPatternsNeedNoBacktracking()
    ensures StopsStartApart(PROMPT)
    ensures StopsStartApart(ANSWER_A) && StopsStartApart(ANSWER_B)
    ensures StopsStartApart(ANSWER_C) && StopsStartApart(ANSWER_D)
    ensures StopsStartApart(CORRECT) && StopsStartApart(EXPLAIN) && StopsStartApart(REFERENCE)
  {
    PromptNeedsNoBacktracking();
    OneLetterStartApart(ANSWER_A, 'b');
    OneLetterStartApart(ANSWER_B, 'c');
    OneLetterStartApart(ANSWER_C, 'd');
    OneLetterStartApart(ANSWER_D, 'P');
    OneLetterStartApart(CORRECT, 'V');
    ExplainNeedsNoBacktracking();
    OneLetterStartApart(REFERENCE, 'C');
  }

  /** `m ? m[1].trim() : ""` for the match `m` of `p` in the section. */
  function TrimmedCapture(section: string, p: Pattern): (r: string)
    ensures Trimmed(r)
    ensures Capture(section, p).None? ==> r == []
  {
    var c := Capture(section, p);
    if c.Some? then Trim(c.value) else []
  }

  /** `x || undefined` for a string `x`: the empty string becomes absent. */
  function NonEmpty(t: string): (r: Option<string>)
    ensures r.None? <==> t == []
    ensures r.Some? ==> r.value == t
  {
    if t == [] then None else Some(t)
  }

  /** `['a', 'b', 'c', 'd'].indexOf(c.toLowerCase())`. */
  function LetterIndex(c: char): (r: Option<nat>)
    ensures r.Some? ==> r.value < |LETTERS| && Fold(c) == LETTERS[r.value]
    ensures r.None? ==> Fold(c) !in LETTERS
  {
    var f := Fold(c);
    if f == 'a' then Some(0)
    else if f == 'b' then Some(1)
    else if f == 'c' then Some(2)
    else if f == 'd' then Some(3)
    else None
  }

  /** The stated correct answer picks position `k`: its first letter is the `k`-th of a, b, c, d. */
  predicate Designates(statement: Option<string>, k: nat) {
    statement.Some? && statement.value != [] && LetterIndex(statement.value[0]) == Some(k)
  }

  /** The answer one slot's search pushes: none if it did not match. */
  function SlotAnswer(section: string, p: Pattern): (r: seq<Answer>)
    ensures |r| <= 1
    ensures forall a | a in r :: !a.isCorrect && Trimmed(a.text)
    ensures |r| == 1 <==> Capture(section, p).Some?
  {
    var c := Capture(section, p);
    if c.Some? then [Answer(Trim(c.value), false)] else []
  }

  /** The answers pushed by the four slot searches of a section, in slot order, none marked correct. */
  function SlotAnswers(section: string): (r: seq<Answer>)
    ensures |r| <= 4
    ensures forall a | a in r :: !a.isCorrect && Trimmed(a.text)
  {
    SlotAnswer(section, ANSWER_A) + SlotAnswer(section, ANSWER_B) + SlotAnswer(section, ANSWER_C) + SlotAnswer(section, ANSWER_D)
  }

  /** `answers[i].isCorrect = true` for the answer the statement designates, if there is one. */
  function MarkCorrect(answers: seq<Answer>, statement: string): (r: seq<Answer>)
    ensures |r| == |answers|
    ensures forall k | 0 <= k < |r| :: r[k].text == answers[k].text
    ensures forall k | 0 <= k < |r| :: r[k].isCorrect <==> answers[k].isCorrect || Designates(Some(statement), k)
  {
    if statement != [] then
      match LetterIndex(statement[0])
      case Some(i) => if i < |answers| then answers[i := answers[i].(isCorrect := true)] else answers
      case None => answers
    else
      answers
  }

  /** An absent field, or a present one that is neither empty nor padded with whitespace. */
  predicate Present(o: Option<string>) {
    o.Some? ==> o.value != [] && Trimmed(o.value)
  }

  /**
   * What every emitted question satisfies: a non-empty trimmed prompt, one to
   * four trimmed answers, exactly the answer its stated correct answer
   * designates marked correct, and optional fields absent rather than empty.
   */
  ghost predicate WellFormed(q: Question) {
    && q.question != [] && Trimmed(q.question)
    && 1 <= |q.answers| <= 4
    && (forall a | a in q.answers :: Trimmed(a.text))
    && (forall k | 0 <= k < |q.answers| :: q.answers[k].isCorrect <==> Designates(q.correctAnswer, k))
    && Present(q.correctAnswer) && Present(q.explain) && Present(q.reference)
  }

  /** Some answer slot matched in the section. */
  predicate SomeSlotMatches(section: string) {
    || Capture(section, ANSWER_A).Some? || Capture(section, ANSWER_B).Some?
    || Capture(section, ANSWER_C).Some? || Capture(section, ANSWER_D).Some?
  }

  /** The question pushed when the prompt is non-empty and some answer was found. */
  function Assemble(prompt: string, answers: seq<Answer>, correct: string, explain: string, reference: string)
    : (r: Option<Question>)
    requires Trimmed(prompt) && Trimmed(correct) && Trimmed(explain) && Trimmed(reference)
    requires |answers| <= 4
    requires forall a | a in answers :: !a.isCorrect && Trimmed(a.text)
    ensures r.Some? <==> prompt != [] && |answers| > 0
    ensures r.Some? ==> WellFormed(r.value)
  {
    var marked := MarkCorrect(answers, correct);
    assert forall a | a in marked :: Trimmed(a.text) by {
      forall a | a in marked ensures Trimmed(a.text) {
        var k :| 0 <= k < |marked| && marked[k] == a;
        assert answers[k] in answers;
      }
    }
    if prompt != [] && |marked| > 0 then
      Some(Question(prompt, marked, NonEmpty(correct), NonEmpty(explain), NonEmpty(reference)))
    else
      None
  }

  /** The body of the loop over sections: the question a section contributes, if any, is well formed. */
  function SectionQuestion(section: string): (r: Option<Question>)
    ensures r.Some? ==> WellFormed(r.value)
  {
    if Trim(section) == [] || !Contains(section, BOUNDARY) then None
    else
      match Capture(section, PROMPT)
      case None => None
      case Some(raw) =>
        Assemble(Trim(raw), SlotAnswers(section), TrimmedCapture(section, CORRECT),
                 TrimmedCapture(section, EXPLAIN), TrimmedCapture(section, REFERENCE))
  }

  /**
   * A section contributes a question exactly when it holds the boundary phrase,
   * a "Select one" follows it with a non-blank prompt in between, and at least
   * one answer slot matched.
   */
  lemma SectionQuestionContributes(section: string)
    ensures SectionQuestion(section).Some? <==> && Contains(section, BOUNDARY)
                                                && Capture(section, PROMPT).Some?
                                                && Trim(Capture(section, PROMPT).value) != []
                                                && SomeSlotMatches(section)
  {
    BoundaryNotBlank(section);
  }

  /** The questions of the sections, in section order. */
  function Collect(sections: seq<string>): (r: seq<Question>)
    ensures |r| <= |sections|
  {
    if sections == [] then []
    else ToSeq(SectionQuestion(sections[0])) + Collect(sections[1..])
  }

  /** `extractQuestionsFromText(text)`. */
  function Extracted(text: string): seq<Question> {
    Collect(SplitBefore(text, BOUNDARY))
  }

  /** The imperative extractor: the loop over sections, pushing each question a section yields. */
  method ExtractQuestionsFromText(text: string) returns (questions: seq<Question>)
    ensures questions == Extracted(text)
    ensures forall q | q in questions :: WellFormed(q)
  {
    questions := [];
    var sections := SplitBefore(text, BOUNDARY);
    var i := 0;
    while i < |sections|
      invariant i <= |sections|
      invariant questions == Collect(sections[..i])
    {
      var question := ParseSection(sections[i]);
      CollectStep(sections, i);
      questions := questions + ToSeq(question);
      i := i + 1;
    }
    TakeAll(sections);
    CollectWellFormed(sections);
  }

  /**
   * The body of the loop for one section: skip it unless it holds the boundary
   * phrase and a prompt; push the answers whose searches match, in slot order;
   * mark the designated one correct in place; keep the question only if its
   * prompt is non-empty and it has an answer.
   */
  method ParseSection(section: string) returns (question: Option<Question>)
    ensures question == SectionQuestion(section)
  {
    if Trim(section) == [] || !Contains(section, BOUNDARY) {
      return None;
    }
    var questionMatch := Capture(section, PROMPT);
    if questionMatch.None? {
      return None;
    }
    var questionText := Trim(questionMatch.value);
    var answers := PushAnswer([], section, ANSWER_A);
    answers := PushAnswer(answers, section, ANSWER_B);
    answers := PushAnswer(answers, section, ANSWER_C);
    answers := PushAnswer(answers, section, ANSWER_D);
    assert [] + SlotAnswer(section, ANSWER_A) == SlotAnswer(section, ANSWER_A);
    assert answers == SlotAnswers(section);
    var correctMatch := Capture(section, CORRECT);
    var correctAnswer := if correctMatch.Some? then Trim(correctMatch.value) else "";
    assert correctAnswer == TrimmedCapture(section, CORRECT);
    answers := MarkInPlace(answers, correctAnswer);
    var explainMatch := Capture(section, EXPLAIN);
    var explain := if explainMatch.Some? then Trim(explainMatch.value) else "";
    assert explain == TrimmedCapture(section, EXPLAIN);
    var referenceMatch := Capture(section, REFERENCE);
    var reference := if referenceMatch.Some? then Trim(referenceMatch.value) else "";
    assert reference == TrimmedCapture(section, REFERENCE);
    SectionQuestionAssembled(section, questionMatch.value);
    if questionText != [] && |answers| > 0 {
      question := Some(Question(questionText, answers, NonEmpty(correctAnswer), NonEmpty(explain), NonEmpty(reference)));
    } else {
      question := None;
    }
  }

  /** `if (m) answers.push({ text: m[1].trim(), isCorrect: false })` for the match `m` of one answer slot. */
  method PushAnswer(answers: seq<Answer>, section: string, p: Pattern) returns (pushed: seq<Answer>)
    ensures pushed == answers + SlotAnswer(section, p)
  {
    pushed := answers;
    var m := Capture(section, p);
    if m.Some? {
      pushed := pushed + [Answer(Trim(m.value), false)];
    }
  }

  /** `answers[index].isCorrect = true` for the index the stated correct answer's first letter names. */
  method MarkInPlace(answers: seq<Answer>, correctAnswer: string) returns (marked: seq<Answer>)
    ensures marked == MarkCorrect(answers, correctAnswer)
  {
    marked := answers;
    if correctAnswer != [] {
      var correctIndex := LetterIndex(correctAnswer[0]);
      if correctIndex.Some? && correctIndex.value < |marked| {
        marked := marked[correctIndex.value := marked[correctIndex.value].(isCorrect := true)];
      }
    }
  }

  /** Every collected question is well formed. */
  lemma {:induction false} CollectWellFormed(sections: seq<string>)
    ensures forall q | q in Collect(sections) :: WellFormed(q)
  {
    if sections != [] {
      CollectWellFormed(sections[1..]);
      var head := ToSeq(SectionQuestion(sections[0]));
      forall q | q in head ensures WellFormed(q) {
        assert q == SectionQuestion(sections[0]).value;
      }
    }
  }

  /** Only a section holding the boundary phrase contributes a question. */
  lemma {:induction false} CollectBearing(sections: seq<string>)
    ensures |Collect(sections)| <= Bearing(sections, BOUNDARY)
  {
    if sections != [] {
      CollectBearing(sections[1..]);
      SectionQuestionContributes(sections[0]);
    }
  }

  /** A single section contributes its own question, if any. */
  lemma CollectOne(section: string)
    ensures Collect([section]) == ToSeq(SectionQuestion(section))
  {
    assert [section][1..] == [];
    assert Collect([section]) == ToSeq(SectionQuestion(section)) + Collect([]);
  }

  /** One more section appends its own question, if any. */
  lemma CollectSnoc(sections: seq<string>, section: string)
    ensures Collect(sections + [section]) == Collect(sections) + ToSeq(SectionQuestion(section))
  {
    CollectAppend(sections, [section]);
    CollectOne(section);
  }

  /** The loop's step: the first `i + 1` sections give the questions of the first `i` and those of section `i`. */
  lemma CollectStep(sections: seq<string>, i: nat)
    requires i < |sections|
    ensures Collect(sections[..i + 1]) == Collect(sections[..i]) + ToSeq(SectionQuestion(sections[i]))
  {
    TakeMore(sections, i);
    CollectSnoc(sections[..i], sections[i]);
  }

  /** Once the boundary phrase and the prompt are found, the section's question is the assembled one. */
  lemma SectionQuestionAssembled(section: string, raw: string)
    requires Trim(section) != [] && Contains(section, BOUNDARY)
    requires Capture(section, PROMPT) == Some(raw)
    ensures SectionQuestion(section) == Assemble(Trim(raw), SlotAnswers(section), TrimmedCapture(section, CORRECT),
                                                 TrimmedCapture(section, EXPLAIN), TrimmedCapture(section, REFERENCE))
  {
  }

  /** A section holding the boundary phrase is not blank. */
  lemma BoundaryNotBlank(section: string)
    ensures Contains(section, BOUNDARY) ==> Trim(section) != []
  {
    if Contains(section, BOUNDARY) {
      var k: nat :| k <= |section| && OccursAt(section, BOUNDARY, k);
      assert Fold(section[k + 0]) == Fold(BOUNDARY[0]);
      if IsSpace(section[k]) {
        FoldKeepsSpace(section[k]);
      }
      assert !IsSpace(section[k]);
      TrimEmpty(section);
    }
  }

  /** Questions of consecutive runs of sections come out consecutively, in order. */
  lemma {:induction false} CollectAppend(xs: seq<string>, ys: seq<string>)
    ensures Collect(xs + ys) == Collect(xs) + Collect(ys)
  {
    if xs != [] {
      CollectAppend(xs[1..], ys);
      DropAppend(xs, ys);
      var head := ToSeq(SectionQuestion(xs[0]));
      assert Collect(xs + ys) == head + Collect(xs[1..] + ys);
      assert Collect(xs) == head + Collect(xs[1..]);
      AppendAssociates(head, Collect(xs[1..]), Collect(ys));
    } else {
      assert xs + ys == ys;
    }
  }

  /** A text without the boundary phrase yields no question. */
  lemma NoBoundaryNoQuestions(text: string)
    requires !Contains(text, BOUNDARY)
    ensures Extracted(text) == []
  {
    SplitNone(text, BOUNDARY);
    CollectOne(text);
  }

  /** A single segment, holding the boundary phrase at most at its start, yields the question of its own section. */
  lemma SegmentQuestion(text: string)
    requires forall k | 0 < k < |text| :: !OccursAt(text, BOUNDARY, k)
    ensures Extracted(text) == ToSeq(SectionQuestion(text))
  {
    SplitSegment(text, BOUNDARY);
    CollectOne(text);
  }

  /** At most one question per occurrence of the boundary phrase. */
  lemma AtMostOnePerBoundary(text: string)
    ensures |Extracted(text)| <= OccurrencesFrom(text, BOUNDARY, 0)
  {
    CollectBearing(SplitBefore(text, BOUNDARY));
    BearingAtMostOccurrences(text, BOUNDARY);
  }

  /** No proper suffix of the boundary phrase starts like it, so two occurrences never overlap. */
  lemma BoundaryUnbordered()
    ensures Unbordered(BOUNDARY)
  {
  }

  /**
   * Appending a text that starts with the boundary phrase appends its questions:
   * the cut in front of it separates the two, whatever precedes it.
   */
  lemma ExtractedConcat(a: string, b: string)
    requires OccursAt(b, BOUNDARY, 0)
    ensures Extracted(a + b) == Extracted(a) + Extracted(b)
  {
    if a == [] {
      assert a + b == b;
      NoBoundaryNoQuestions(a);
    } else {
      BoundaryUnbordered();
      SplitAppend(a, b, BOUNDARY);
      CollectAppend(SplitBefore(a, BOUNDARY), SplitBefore(b, BOUNDARY));
    }
  }

  /** Answer d. ends at "Phản hồi": a section without that phrase has no answer d. */
  lemma AnswerDNeedsFeedback(section: string)
    requires !Contains(section, "Phản hồi")
    ensures Capture(section, ANSWER_D).None?
    ensures |SlotAnswers(section)| <= 3
  {
    MatchNeedsStop(section, ANSWER_D);
  }

  /** The prompt ends at "Select one": a section without that phrase yields no question. */
  lemma PromptNeedsSelectOne(section: string)
    requires !Contains(section, "Select one")
    ensures SectionQuestion(section).None?
  {
    MatchNeedsStop(section, PROMPT);
    SectionQuestionContributes(section);
  }

  /** The explanation is found whenever "Vì:" occurs, and the reference whenever "Tham khảo:" does. */
  lemma OptionalFieldsFound(section: string)
    ensures Contains(section, "Vì:") ==> Capture(section, EXPLAIN).Some?
    ensures Contains(section, "Tham khảo:") ==> Capture(section, REFERENCE).Some?
  {
    OpenerSuffices(section, EXPLAIN);
    OpenerSuffices(section, REFERENCE);
  }

  /** At most one answer of an emitted question is marked correct. */
  lemma AtMostOneCorrect(q: Question)
    requires WellFormed(q)
    ensures forall j, k | 0 <= j < k < |q.answers| :: !(q.answers[j].isCorrect && q.answers[k].isCorrect)
  {
  }

  /**
   * The stated correct answer is captured with the class `[^Vì]`: it holds no
   * "v" or "ì" in either case, so it stops short of any word containing them.
   */
  lemma CorrectStatementExcludes(section: string)
    ensures forall k | 0 <= k < |TrimmedCapture(section, CORRECT)| ::
              Fold(TrimmedCapture(section, CORRECT)[k]) != 'v' && Fold(TrimmedCapture(section, CORRECT)[k]) != 'ì'
  {
    var f := Find(section, CORRECT);
    if f.Some? {
      var sp := f.value;
      FoundBodyChars(section, CORRECT);
      var c := section[sp.start..sp.end];
      var t := TrimmedCapture(section, CORRECT);
      assert t == Trim(c);
      TrimSlice(c);
      var a := |c| - |TrimStart(c)|;
      forall k | 0 <= k < |t| ensures Fold(t[k]) != 'v' && Fold(t[k]) != 'ì' {
        var j := sp.start + a + k;
        assert a + k < |c| && t[k] == c[a + k];
        assert sp.start <= j < sp.end && c[a + k] == section[j];
        CorrectBodyChar(section[j]);
      }
    }
  }

  /** A character the correct-answer body admits is neither "v" nor "ì" in any case. */
  lemma CorrectBodyChar(c: char)
    requires BodyChar(CORRECT, c)
    ensures Fold(c) != 'v' && Fold(c) != 'ì'
  {
    assert 'V' in CORRECT.excluded && 'ì' in CORRECT.excluded;
  }
}
