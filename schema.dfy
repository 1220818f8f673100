/**
 * The record shapes of shared/schema.ts. `null` and an absent optional field
 * are both `None`; timestamps are integers.
 */
module Schema {
  import opened Wrappers

  /** One lettered option of a question; `isCorrect` defaults to false. */
  datatype Answer = Answer(text: string, isCorrect: bool)

  /** One extracted quiz item. */
  datatype Question = Question(
    question: string,
    answers: seq<Answer>,
    correctAnswer: Option<string>,
    explain: Option<string>,
    reference: Option<string>)

  datatype User = User(id: string, username: string, password: string)

  datatype InsertUser = InsertUser(username: string, password: string)

  datatype Document = Document(
    id: string,
    filename: string,
    originalSize: int,
    extractedText: Option<string>,
    extractedQuestions: Option<string>,
    wordCount: Option<int>,
    characterCount: Option<int>,
    pageCount: Option<int>,
    questionCount: Option<int>,
    processingStatus: string,
    conversionTime: Option<int>,
    createdAt: int,
    completedAt: Option<int>)

  datatype InsertDocument = InsertDocument(filename: string, originalSize: int)

  /**
   * A partial update: `None` leaves the field alone, `Some(v)` sets it to `v`;
   * for a nullable column `v` is itself optional, so an update can set it to null.
   */
  datatype DocumentUpdate = DocumentUpdate(
    extractedText: Option<Option<string>>,
    extractedQuestions: Option<Option<string>>,
    wordCount: Option<Option<int>>,
    characterCount: Option<Option<int>>,
    pageCount: Option<Option<int>>,
    questionCount: Option<Option<int>>,
    processingStatus: Option<string>,
    conversionTime: Option<Option<int>>,
    completedAt: Option<Option<int>>)
}
