# Quiz extraction and document store, in Dafny

This project models the server core of a service that turns uploaded Word (.docx) quiz
transcripts in Vietnamese into structured questions:

- **The question extractor** `extractQuestionsFromText` (server/routes.ts).
  - It cuts the text in front of every "Đoạn văn câu hỏi" ("question-text paragraph").
  - From each section it pulls a prompt that ends at "Select one".
  - It then pulls up to four lettered answers a. to d., a stated correct answer
    ("Đáp án đúng là:"), an explanation ("Vì:") and a reference ("Tham khảo:"),
    each with its own case-insensitive regular expression.
  - It marks the answer the stated letter names as correct.
  - It keeps a question only if its prompt is non-empty and it has an answer.
- **The upload filter, and the word, character and page counts** stored with a processed
  document (server/routes.ts).
- **`MemStorage`** (server/storage.ts): the in-memory store of users and documents. It has
  creation, lookup, partial-merge update and a listing sorted newest first.

Layout, one module per file:

- `text.dfy` (`Text`): the characters JavaScript's `\s` and `trim` treat as whitespace,
  case folding for the `i` flag, case-insensitive occurrence of a phrase, and `trim`.
- `patterns.dfy` (`Patterns`): the one regular-expression shape the extractor uses,
  `opener \s* [seps]? \s* (body*?) (?=stop|...|$)`, searched the way `String.prototype.match`
  does. The match is the leftmost one and the body is lazy. The module proves what the
  search returns.
- `sections.dfy` (`Sections`): `split(/(?=phrase)/i)`, how it splits concatenations, and how
  many pieces hold the phrase.
- `schema.dfy` (`Schema`): the records of shared/schema.ts. `null` and an absent field are
  both `None`.
- `extractor.dfy` (`Extractor`): the extractor. The imperative steps are methods, each proved
  equal to a specification function:
  - `ExtractQuestionsFromText`, the loop over the sections, equals `Extracted`;
  - `ParseSection`, the loop body, equals `SectionQuestion`;
  - `PushAnswer`, one answer slot's `push`, appends `SlotAnswer`;
  - `MarkInPlace`, the in-place `isCorrect = true`, equals `MarkCorrect`.

  The properties are proved about those functions.
- `upload.dfy` (`Upload`): the filter and the counts.
- `storage.dfy` (`Storage`): the class `MemStorage`. Each JavaScript `Map` is kept as a Dafny
  `map` together with the sequence of its keys in insertion order. That order is what
  `Map.prototype.values()` yields.
- `wrappers.dfy`, `seqs.dfy`: `Option` and generic sequence lemmas.

Answer d is found only when a later "Phản hồi" occurs, because the answer-d expression
(server/routes.ts:237) ends its body there. So on the text
`Đoạn văn câu hỏi: What is 2+2?Select one a. 3b. 4c. 5d. 6Đáp án đúng là: bVì: Basic additionTham khảo: Arithmetic 101`
the code finds only the answers "3", "4" and "5", and marks "4" correct; "6" is lost.
`Extractor.AnswerDNeedsFeedback` proves this in general, and the model keeps the behaviour.

## Model

| member | source | states |
|---|---|---|
| Extractor.ExtractQuestionsFromText | server/routes.ts:200-276 | The loop over the sections pushes exactly the questions of the specification `Extracted`, and every question it returns is well formed. Well formed means a non-empty trimmed prompt, one to four trimmed answers, exactly the designated answer marked correct, and optional fields absent rather than empty. |
| Extractor.ParseSection | server/routes.ts:207-272 | The loop body for one section computes exactly the section's question, `SectionQuestion`. |
| Extractor.PushAnswer | server/routes.ts:219-240 | Each slot's `push` appends one unmarked trimmed answer exactly when that slot's expression matches. |
| Extractor.MarkInPlace | server/routes.ts:247-253 | Setting `isCorrect` in place gives `MarkCorrect` of the answers and the statement. |
| Extractor.MarkCorrect | server/routes.ts:247-253 | The answers keep their number and texts. Answer k becomes correct exactly when the statement is non-empty and its first letter folds to the k-th of a, b, c, d. No index at or beyond the number of answers is marked. |
| Extractor.SlotAnswer | server/routes.ts:219-222 | One slot yields at most one answer. It yields one exactly when its expression matches, and that answer is trimmed and not marked correct. |
| Extractor.SlotAnswers | server/routes.ts:216-240 | The four slots, in order a, b, c, d, give at most four answers. All are trimmed and none is marked correct. |
| Extractor.TrimmedCapture | server/routes.ts:244 | `m ? m[1].trim() : ""` is trimmed, and it is empty when the expression did not match. |
| Extractor.NonEmpty | server/routes.ts:266-270 | Falling back to `undefined` for an empty string: the field is absent exactly for the empty string and otherwise carries the string. |
| Extractor.LetterIndex | server/routes.ts:248-249 | The index found is the position in "abcd" of the folded letter. No index is found for any other character. |
| Extractor.SectionQuestion | server/routes.ts:207-271 | A question a section contributes is well formed. |
| Extractor.SectionQuestionContributes | server/routes.ts:207-264 | A section contributes a question exactly when all of these hold: it holds the boundary phrase; the prompt expression matches; the trimmed prompt is non-empty; and at least one answer slot matches. |
| Extractor.Collect | server/routes.ts:206-276 | The loop yields at most one question per section. |
| Extractor.CollectWellFormed | server/routes.ts:264-271 | Every question collected from any sequence of sections is well formed. |
| Extractor.CollectAppend | server/routes.ts:206-275 | The questions of two consecutive runs of sections are those of the first run followed by those of the second: order is kept. |
| Extractor.NoBoundaryNoQuestions | server/routes.ts:204-207 | Text with no case-insensitive occurrence of "Đoạn văn câu hỏi" yields no question. |
| Extractor.AtMostOnePerBoundary | server/routes.ts:204-207 | There are no more questions than occurrences of the boundary phrase. |
| Extractor.ExtractedConcat | server/routes.ts:204-275 | Appending a text that starts with the boundary phrase appends its questions, after those of the text before it. |
| Extractor.AnswerDNeedsFeedback | server/routes.ts:237 | A section without "Phản hồi" has no answer d, and so at most three answers. |
| Extractor.PromptNeedsSelectOne | server/routes.ts:210-211 | A section without "Select one" contributes no question. |
| Extractor.OptionalFieldsFound | server/routes.ts:256-261 | The explanation is captured whenever "Vì:" occurs, and the reference whenever "Tham khảo:" occurs: their bodies may end at the end of the text. |
| Extractor.AtMostOneCorrect | server/routes.ts:247-253 | No two answers of an emitted question are both marked correct. |
| Extractor.CorrectStatementExcludes | server/routes.ts:243-244 | The trimmed correct-answer statement holds no character that folds to "v" or "ì", because of the body class `[^Vì]` under the `i` flag. |
| Extractor.BoundaryNotBlank | server/routes.ts:207 | A section holding the boundary phrase is never skipped as blank. |
| Extractor.SegmentQuestion | server/routes.ts:204-271 | A text holding the boundary phrase at most at its start is one section, and yields exactly that section's question, if any. |
| Extractor.FieldPatternsNeedNoBacktracking | server/routes.ts:210-261 | Every lookahead phrase of the seven field expressions starts with a character that is neither whitespace nor one of the prompt's separators ":" and "-". |
| Extractor.BoundaryUnbordered | server/routes.ts:204 | Two occurrences of "Đoạn văn câu hỏi" can never overlap. |
| Patterns.MatchAt | server/routes.ts:210 | An attempt at a position captures a body that lies after the opener and inside the text. |
| Patterns.MatchAtSpec | server/routes.ts:210 | An attempt succeeds exactly when the opener occurs there and a lazy body starts after the whitespace and separator. The captured body is that lazy body: the lookahead holds at its end and nowhere before, and every character in it is admitted by the body class. |
| Patterns.BodyStartSkips | server/routes.ts:210 | Between the opener and the greedy start of the body lie only whitespace and at most the separator. |
| Patterns.GreedyStartSuffices | server/routes.ts:210 | When no stop phrase starts on whitespace or a separator, a lazy body from any start that backtracking into `\s*` and the separator could reach gives one from the greedy start, with the same end. Backtracking cannot rescue a failed greedy try. |
| Patterns.ScanBodyFindsLazyBody | server/routes.ts:243 | The lazy scan ends at the first position where the lookahead holds. It fails exactly when no admissible body reaches such a position. |
| Patterns.Find | server/routes.ts:210 | `match` returns an attempt that succeeds at the position it names. |
| Patterns.FindIsLeftmost | server/routes.ts:219 | The match is the leftmost one: wherever an attempt would succeed, `match` succeeds there or earlier. |
| Patterns.FindSkips | server/routes.ts:219 | Every attempt before the returned match fails. |
| Patterns.FindFails | server/routes.ts:219 | When `match` finds nothing, every attempt fails. |
| Patterns.FoundBodyChars | server/routes.ts:243 | Every character of a found body lies inside the text and is admitted by the body class. |
| Patterns.Capture | server/routes.ts:213 | `m[1]` exists exactly when the expression matched. |
| Patterns.MatchNeedsOpener | server/routes.ts:210 | A match requires the opener phrase to occur. |
| Patterns.MatchNeedsStop | server/routes.ts:237 | An expression without `$` matches only if one of its lookahead phrases occurs. |
| Patterns.OpenerSuffices | server/routes.ts:256-261 | An expression with `$` and an unrestricted body matches as soon as its opener occurs. |
| Sections.SplitConcat | server/routes.ts:204 | Splitting in front of the phrase loses, duplicates and reorders nothing: the pieces, joined, give the text. |
| Sections.SplitSegment | server/routes.ts:204 | A text holding the phrase at most at its start is split into itself alone. |
| Sections.SplitNone | server/routes.ts:204 | Text without the phrase is a single piece. |
| Sections.SplitAppend | server/routes.ts:204 | When the phrase cannot overlap itself and the second text starts with it, the pieces of a concatenation are the pieces of each part. |
| Sections.BearingAtMostOccurrences | server/routes.ts:204-207 | No more pieces hold the phrase than there are occurrences of it. |
| Text.TrimEmpty | server/routes.ts:207 | `trim` leaves nothing exactly when the string is all whitespace. |
| Text.TrimSlice | server/routes.ts:244 | `trim` keeps a contiguous slice of the string. |
| Text.TrimStartRemovesSpace | server/routes.ts:213 | The leading part `trim` removes is whitespace only. |
| Text.TrimEndRemovesSpace | server/routes.ts:213 | The trailing part `trim` removes is whitespace only. |
| Text.Trim | server/routes.ts:213 | The result of `trim` is trimmed: it neither starts nor ends with whitespace. |
| Text.TrimTrimmed | server/routes.ts:213 | Trimming an already trimmed string changes nothing. |
| Upload.FileFilter | server/routes.ts:19-37 | A file is accepted exactly when its name, lower-cased, ends with ".docx" or its type is one of the three listed. The rejection message has the length of its fixed text plus the type and the name. |
| Upload.AnyCaseDocxAccepted | server/routes.ts:29 | A name ending in ".docx" in any mix of cases is accepted, whatever its type. |
| Upload.UpperCaseDocxAccepted | server/routes.ts:29 | ".DOCX" in capitals is accepted. |
| Upload.ListedTypeAccepted | server/routes.ts:23-30 | A listed type is accepted, whatever the name. |
| Upload.RejectionQuotesBoth | server/routes.ts:35 | A rejection message starts with the fixed text, then the type, and ends with the file name. |
| Upload.WordCountIsWordStarts | server/routes.ts:297 | `split(/\s+/)` followed by dropping empty pieces counts the maximal runs of non-whitespace characters. |
| Upload.WordCountZero | server/routes.ts:297 | The word count is zero exactly when the text is all whitespace. |
| Upload.CharacterCount | server/routes.ts:298 | `length` counts UTF-16 code units: at least one and at most two per character. |
| Upload.CharacterCountBasic | server/routes.ts:298 | The character count equals the number of characters exactly when none lies beyond U+FFFF. |
| Upload.PageCount | server/routes.ts:299 | `Math.ceil(wordCount / 250)` is the least page count with room for 250 words a page. |
| Storage.Merge | server/storage.ts:69-72 | The merged document takes each field the update holds and keeps every other field, including the id, name, size and creation time. |
| Storage.MergeNoChanges | server/storage.ts:69-72 | An empty update changes nothing. |
| Storage.MergeIdempotent | server/storage.ts:69-72 | Applying the same update twice is applying it once. |
| Storage.MergeThen | server/storage.ts:69-72 | Two successive updates amount to one update in which the later field wins. |
| Storage.NewDocument | server/storage.ts:43-56 | The new document has the given id, name and size. It is "pending", created now, and every result field and the completion time are null. |
| Storage.Values | server/storage.ts:78 | `Array.from(map.values())` lists the stored value of each key, in key order. |
| Storage.InsertPermutes | server/storage.ts:78-80 | One step of the sort adds the document and loses nothing. |
| Storage.SortByCreatedAt | server/storage.ts:78-80 | The sort is a permutation of its input, ordered newest first. |
| Storage.SortStable | server/storage.ts:78-80 | Documents created at the same instant keep their relative order, as in the stable `Array.prototype.sort`. |
| Storage.MemStorage.constructor | server/storage.ts:19-22 | The store starts with no users and no documents. |
| Storage.MemStorage.GetUser | server/storage.ts:24-26 | Returns exactly the user stored under the id, and none for an unknown id. |
| Storage.MemStorage.GetUserByUsername | server/storage.ts:28-32 | Returns the first user, in creation order, whose name matches. It returns none exactly when no stored user has the name. |
| Storage.MemStorage.CreateUser | server/storage.ts:34-39 | Stores the given name and password under the supplied id and returns that record. Other users and all documents are untouched. |
| Storage.MemStorage.CreateDocument | server/storage.ts:41-59 | Stores and returns the new pending document under the supplied id. Every other document and all users are untouched. |
| Storage.MemStorage.GetDocument | server/storage.ts:61-63 | Returns exactly the document stored under the id, and none for an unknown id. |
| Storage.MemStorage.UpdateDocument | server/storage.ts:65-75 | For an unknown id it returns none and changes nothing. Otherwise it stores and returns the merged document, and every other document and all users are unchanged. |
| Storage.MemStorage.GetAllDocuments | server/storage.ts:77-81 | Returns every stored document exactly once, ordered newest first, with ties in creation order. |

## Left out

- Fold: case folding covers the ASCII letters, the Latin-1 letters and the letters of
  Vietnamese. That is every letter in the phrases the expressions search for and in
  "abcd". It does not cover full Unicode case folding.
- LetterIndex: `toLowerCase()` can turn one character into two (for "İ"). That does not
  change whether the first character is one of a, b, c, d, so this is not modelled.
- Patterns.MatchAt: it keeps only the greedy first try of `\s*` and the optional
  separator, where the regular-expression engine would backtrack into them.
  `Patterns.GreedyStartSuffices` and `Extractor.FieldPatternsNeedNoBacktracking` prove
  that for the extractor's seven expressions backtracking cannot make a failed attempt
  succeed. The engine's order of backtracking itself is not modelled.
- Extractor.ExtractQuestionsFromText: the result is a Dafny sequence of records. The
  `JSON.stringify` that stores it in the document is not modelled.
- Storage.MemStorage.UpdateDocument: an update field set explicitly to `undefined` would
  overwrite the stored value in JavaScript. The model treats it as absent.
- Storage.MemStorage.CreateUser and Storage.MemStorage.CreateDocument: `randomUUID()` and
  `new Date()` become parameters, the id and an integer creation time. An id that is already
  stored is overwritten, as `Map.set` would do.
- The route handlers of `registerRoutes`, the multer configuration and its size limit, and
  console logging are left out. They are HTTP and library wiring with no logic of their own.
- `processDocument` is left out. It is asynchronous, it calls the mammoth .docx decoder (a
  foreign library) and it reads `Date.now()`. Its count arithmetic is modelled in `Upload`.
- The `Promise` wrappers of the storage methods are left out; the methods are synchronous here.
- The client components are left out: user interface, timers, random progress and
  floating-point file-size formatting.
