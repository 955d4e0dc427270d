/** The rows of the record store the server actions read and write. */
module Records {
  import opened Common
  import opened Seqs

  type UserId = string

  /** Row identifiers handed out by the store on insert. */
  type RowId = nat

  /** Why an answer was wrong, as the user classified it. */
  datatype ErrorType = Attention | Knowledge {
    /** The value stored in the `error_type` column. */
    function Name(): string {
      match this
      case Attention => "attention"
      case Knowledge => "knowledge"
    }
  }

  /** A `quiz_sessions` row: open while `completedAt` is null. */
  datatype SessionRow = SessionRow(
    id: RowId,
    userId: UserId,
    subjectId: string,
    startedAt: int,
    completedAt: Option<int>,
    score: Option<int>,
    totalQuestions: Option<int>)

  /** An `answers` row. */
  datatype AnswerRow = AnswerRow(
    id: RowId,
    userId: UserId,
    questionId: string,
    selectedOptionId: string,
    isCorrect: bool,
    sessionId: RowId,
    errorType: Option<ErrorType>,
    createdAt: int)

  datatype EntryType = Highlight | UserNote

  /** A `notebook_entries` row: a highlighted passage of a question or a free note. */
  datatype NotebookRow = NotebookRow(
    id: RowId,
    userId: UserId,
    subjectId: string,
    content: string,
    entryType: EntryType,
    sourceQuestionId: Option<string>,
    createdAt: int)

  /** An answer option of a question. */
  datatype AnswerOption = AnswerOption(id: string, text: string, isCorrect: bool)

  /** The answer rows of one user (`.eq('user_id', user.id)`), in store order. */
  function AnswersOf(rows: seq<AnswerRow>, user: UserId): (r: seq<AnswerRow>)
    ensures |r| <= |rows|
    ensures forall x :: x in r <==> x in rows && x.userId == user
  {
    Filter(rows, (x: AnswerRow) => x.userId == user)
  }

  /** The session rows of one user, in store order. */
  function SessionsOf(rows: seq<SessionRow>, user: UserId): (r: seq<SessionRow>)
    ensures |r| <= |rows|
    ensures forall x :: x in r <==> x in rows && x.userId == user
  {
    Filter(rows, (x: SessionRow) => x.userId == user)
  }
}
