/** The server actions of the practice flow over an abstract record store:
    opening and closing quiz sessions, recording answers, classifying errors,
    removing a question from review and managing notebook entries. Who is
    signed in is an input (`None` when nobody is), and so is whether the
    store's request fails. */
module Actions {
  import opened Common
  import opened Records
  import opened Seqs

  /** Why an action throws. */
  datatype ActionError = NotAuthenticated | StoreFailure | MissingFields

  // ---------------------------------------------------------------------------
  // What each write does to a table
  // ---------------------------------------------------------------------------

  /** `update({completed_at, score, total_questions}).eq('id', sessionId)`. */
  function CloseSession(rows: seq<SessionRow>, sessionId: RowId, now: int, score: int, total: int): (r: seq<SessionRow>)
    ensures |r| == |rows|
    ensures forall i :: 0 <= i < |rows| && rows[i].id != sessionId ==> r[i] == rows[i]
    ensures forall i :: 0 <= i < |rows| && rows[i].id == sessionId ==>
      && r[i].completedAt == Some(now) && r[i].score == Some(score) && r[i].totalQuestions == Some(total)
      && r[i].(completedAt := rows[i].completedAt, score := rows[i].score, totalQuestions := rows[i].totalQuestions) == rows[i]
  {
    seq(|rows|, i requires 0 <= i < |rows| =>
      if rows[i].id == sessionId
      then rows[i].(completedAt := Some(now), score := Some(score), totalQuestions := Some(total))
      else rows[i])
  }

  /** Nothing checks whether the session was already closed: closing it again
      overwrites the first close. */
  lemma CloseSessionTwice(rows: seq<SessionRow>, sessionId: RowId, now1: int, score1: int, total1: int,
                          now2: int, score2: int, total2: int)
    ensures CloseSession(CloseSession(rows, sessionId, now1, score1, total1), sessionId, now2, score2, total2)
         == CloseSession(rows, sessionId, now2, score2, total2)
  {
  }

  /** `update({error_type}).eq('id', answerId)`. */
  function ClassifyRows(rows: seq<AnswerRow>, answerId: RowId, errorType: ErrorType): (r: seq<AnswerRow>)
    ensures |r| == |rows|
    ensures forall i :: 0 <= i < |rows| ==> r[i].(errorType := rows[i].errorType) == rows[i]
    ensures forall i :: 0 <= i < |rows| ==> r[i].errorType == if rows[i].id == answerId then Some(errorType) else rows[i].errorType
  {
    seq(|rows|, i requires 0 <= i < |rows| =>
      if rows[i].id == answerId then rows[i].(errorType := Some(errorType)) else rows[i])
  }

  /** Nothing checks whether the answer was already classified (nor whether it
      was wrong): a second classification replaces the first. */
  lemma ClassifyTwice(rows: seq<AnswerRow>, answerId: RowId, first: ErrorType, second: ErrorType)
    ensures ClassifyRows(ClassifyRows(rows, answerId, first), answerId, second) == ClassifyRows(rows, answerId, second)
  {
  }

  /** Classifying adds and drops no answer of any user, so the count of a user's
      answers (the denominator of the review page's first bar) is unchanged. */
  lemma {:induction false} ClassifyKeepsAnswerCount(rows: seq<AnswerRow>, answerId: RowId, errorType: ErrorType, user: UserId)
    ensures |AnswersOf(ClassifyRows(rows, answerId, errorType), user)| == |AnswersOf(rows, user)|
  {
    if rows != [] {
      var init, x := rows[..|rows| - 1], rows[|rows| - 1];
      assert rows == init + [x];
      var c := ClassifyRows(rows, answerId, errorType);
      assert c == ClassifyRows(init, answerId, errorType) + [c[|rows| - 1]];
      ClassifyKeepsAnswerCount(init, answerId, errorType, user);
      SelectSnoc(init, x, (x: AnswerRow) => x.userId == user, true);
      SelectSnoc(ClassifyRows(init, answerId, errorType), c[|rows| - 1], (x: AnswerRow) => x.userId == user, true);
    }
  }

  /** Whether `removeQuestionFromReview` deletes the row: the user's wrong answers to the question. */
  predicate ReviewAnswerOf(x: AnswerRow, user: UserId, questionId: string) {
    x.userId == user && x.questionId == questionId && !x.isCorrect
  }

  /** `delete().eq('user_id', user).eq('question_id', questionId).eq('is_correct', false)`. */
  function WithoutReviewAnswers(rows: seq<AnswerRow>, user: UserId, questionId: string): (r: seq<AnswerRow>)
    ensures |r| <= |rows|
    ensures forall x :: x in r <==> x in rows && !ReviewAnswerOf(x, user, questionId)
  {
    Filter(rows, (x: AnswerRow) => !ReviewAnswerOf(x, user, questionId))
  }

  /** The answers of every other user are kept, all of them and in order. */
  lemma {:induction false} RemoveKeepsOtherUsers(rows: seq<AnswerRow>, user: UserId, questionId: string, other: UserId)
    requires other != user
    ensures AnswersOf(WithoutReviewAnswers(rows, user, questionId), other) == AnswersOf(rows, other)
  {
    if rows != [] {
      var init, x := rows[..|rows| - 1], rows[|rows| - 1];
      assert rows == init + [x];
      RemoveKeepsOtherUsers(init, user, questionId, other);
      SelectSnoc(init, x, (x: AnswerRow) => !ReviewAnswerOf(x, user, questionId), true);
      var kept := WithoutReviewAnswers(init, user, questionId);
      SelectSnoc(kept, x, (x: AnswerRow) => x.userId == other, true);
      SelectSnoc(init, x, (x: AnswerRow) => x.userId == other, true);
    }
  }

  /** The user's correct answers, and their answers to other questions, are kept
      in order: only the review answers of that question go. */
  lemma {:induction false} RemoveKeepsOtherAnswers(rows: seq<AnswerRow>, user: UserId, questionId: string)
    ensures Filter(WithoutReviewAnswers(rows, user, questionId), (x: AnswerRow) => x.userId == user && (x.isCorrect || x.questionId != questionId))
         == Filter(rows, (x: AnswerRow) => x.userId == user && (x.isCorrect || x.questionId != questionId))
  {
    if rows != [] {
      var init, x := rows[..|rows| - 1], rows[|rows| - 1];
      assert rows == init + [x];
      RemoveKeepsOtherAnswers(init, user, questionId);
      var keep := (x: AnswerRow) => x.userId == user && (x.isCorrect || x.questionId != questionId);
      SelectSnoc(init, x, (x: AnswerRow) => !ReviewAnswerOf(x, user, questionId), true);
      SelectSnoc(WithoutReviewAnswers(init, user, questionId), x, keep, true);
      SelectSnoc(init, x, keep, true);
    }
  }

  /** Whether `deleteNotebookEntry` deletes the row: id and owner both match. */
  predicate IsEntry(x: NotebookRow, entryId: RowId, user: UserId) {
    x.id == entryId && x.userId == user
  }

  /** `delete().eq('id', entryId).eq('user_id', user)`. */
  function WithoutEntry(rows: seq<NotebookRow>, entryId: RowId, user: UserId): (r: seq<NotebookRow>)
    ensures |r| <= |rows|
    ensures forall x :: x in r <==> x in rows && !IsEntry(x, entryId, user)
  {
    Filter(rows, (x: NotebookRow) => !IsEntry(x, entryId, user))
  }

  // ---------------------------------------------------------------------------
  // The store and the actions
  // ---------------------------------------------------------------------------

  /** The three tables the actions write, and the source of fresh row ids. */
  class Store {
    var sessions: seq<SessionRow>
    var answers: seq<AnswerRow>
    var notebook: seq<NotebookRow>
    var nextId: RowId

    /** Every row id was handed out before `nextId`. */
    ghost predicate Valid()
      reads this
    {
      && (forall i :: 0 <= i < |sessions| ==> sessions[i].id < nextId)
      && (forall i :: 0 <= i < |answers| ==> answers[i].id < nextId)
      && (forall i :: 0 <= i < |notebook| ==> notebook[i].id < nextId)
    }

    constructor ()
      ensures Valid()
      ensures sessions == [] && answers == [] && notebook == [] && nextId == 0
    {
      sessions, answers, notebook, nextId := [], [], [], 0;
    }

    /** `createQuizSession`: inserts one open session of the signed-in user and
        returns its id. */
    method CreateQuizSession(user: Option<UserId>, subjectId: string, now: int, fails: bool)
      returns (r: Result<RowId, ActionError>)
      requires Valid()
      modifies this
      ensures Valid()
      ensures user.None? ==> r == Err(NotAuthenticated)
      ensures user.Some? && fails ==> r == Err(StoreFailure)
      ensures r.Err? ==> unchanged(this)
      ensures user.Some? && !fails ==>
        && r == Ok(old(nextId))
        && sessions == old(sessions) + [SessionRow(old(nextId), user.value, subjectId, now, None, None, None)]
        && answers == old(answers) && notebook == old(notebook)
        && nextId == old(nextId) + 1
    {
      if user.None? {
        return Err(NotAuthenticated);
      }
      if fails {
        return Err(StoreFailure);
      }
      var id := nextId;
      sessions := sessions + [SessionRow(id, user.value, subjectId, now, None, None, None)];
      nextId := nextId + 1;
      r := Ok(id);
    }

    /** `updateQuizSession`: closes the session with the given id. Nobody's
        identity is checked, and a failure is only logged. */
    method UpdateQuizSession(sessionId: RowId, score: int, total: int, now: int, fails: bool)
      requires Valid()
      modifies this
      ensures Valid()
      ensures fails ==> unchanged(this)
      ensures !fails ==>
        && sessions == CloseSession(old(sessions), sessionId, now, score, total)
        && answers == old(answers) && notebook == old(notebook) && nextId == old(nextId)
    {
      if !fails {
        sessions := CloseSession(sessions, sessionId, now, score, total);
      }
    }

    /** `saveAnswer`: records one answer of the signed-in user and returns its id,
        or `None` when the insert fails. Nothing prevents recording the same
        answer twice. */
    method SaveAnswer(user: Option<UserId>, questionId: string, selectedOptionId: string, isCorrect: bool,
                      sessionId: RowId, now: int, fails: bool)
      returns (r: Result<Option<RowId>, ActionError>)
      requires Valid()
      modifies this
      ensures Valid()
      ensures user.None? ==> r == Err(NotAuthenticated)
      ensures user.Some? && fails ==> r == Ok(None)
      ensures r != Ok(Some(old(nextId))) ==> unchanged(this)
      ensures user.Some? && !fails ==>
        && r == Ok(Some(old(nextId)))
        && answers == old(answers) + [AnswerRow(old(nextId), user.value, questionId, selectedOptionId, isCorrect, sessionId, None, now)]
        && sessions == old(sessions) && notebook == old(notebook)
        && nextId == old(nextId) + 1
    {
      if user.None? {
        return Err(NotAuthenticated);
      }
      if fails {
        return Ok(None);
      }
      var id := nextId;
      answers := answers + [AnswerRow(id, user.value, questionId, selectedOptionId, isCorrect, sessionId, None, now)];
      nextId := nextId + 1;
      r := Ok(Some(id));
    }

    /** `classifyError`: sets the error type of the answer with the given id.
        Nobody's identity is checked. */
    method ClassifyError(answerId: RowId, errorType: ErrorType, fails: bool) returns (err: Option<ActionError>)
      requires Valid()
      modifies this
      ensures Valid()
      ensures err == (if fails then Some(StoreFailure) else None)
      ensures fails ==> unchanged(this)
      ensures !fails ==>
        && answers == ClassifyRows(old(answers), answerId, errorType)
        && sessions == old(sessions) && notebook == old(notebook) && nextId == old(nextId)
    {
      if fails {
        return Some(StoreFailure);
      }
      answers := ClassifyRows(answers, answerId, errorType);
      err := None;
    }

    /** `createNotebookHighlight`: stores a highlighted passage of a question. */
    method CreateNotebookHighlight(user: Option<UserId>, questionId: string, subjectId: string,
                                   highlightedText: string, now: int, fails: bool)
      returns (err: Option<ActionError>)
      requires Valid()
      modifies this
      ensures Valid()
      ensures err == (if user.None? then Some(NotAuthenticated) else if fails then Some(StoreFailure) else None)
      ensures err.Some? ==> unchanged(this)
      ensures err.None? ==>
        && notebook == old(notebook) + [NotebookRow(old(nextId), user.value, subjectId, highlightedText, Highlight, Some(questionId), now)]
        && sessions == old(sessions) && answers == old(answers)
        && nextId == old(nextId) + 1
    {
      if user.None? {
        return Some(NotAuthenticated);
      }
      if fails {
        return Some(StoreFailure);
      }
      notebook := notebook + [NotebookRow(nextId, user.value, subjectId, highlightedText, Highlight, Some(questionId), now)];
      nextId := nextId + 1;
      err := None;
    }

    /** `createNotebookNote`: stores a free note. The two form fields are read
        as possibly missing; either one missing or empty is refused before any write. */
    method CreateNotebookNote(user: Option<UserId>, subjectId: Option<string>, noteContent: Option<string>,
                              now: int, fails: bool)
      returns (err: Option<ActionError>)
      requires Valid()
      modifies this
      ensures Valid()
      ensures err == (if user.None? then Some(NotAuthenticated)
                      else if !Truthy(subjectId) || !Truthy(noteContent) then Some(MissingFields)
                      else if fails then Some(StoreFailure)
                      else None)
      ensures err.Some? ==> unchanged(this)
      ensures err.None? ==>
        && notebook == old(notebook) + [NotebookRow(old(nextId), user.value, subjectId.value, noteContent.value, UserNote, None, now)]
        && sessions == old(sessions) && answers == old(answers)
        && nextId == old(nextId) + 1
    {
      if user.None? {
        return Some(NotAuthenticated);
      }
      if !Truthy(subjectId) || !Truthy(noteContent) {
        return Some(MissingFields);
      }
      if fails {
        return Some(StoreFailure);
      }
      notebook := notebook + [NotebookRow(nextId, user.value, subjectId.value, noteContent.value, UserNote, None, now)];
      nextId := nextId + 1;
      err := None;
    }

    /** `removeQuestionFromReview`: deletes the signed-in user's wrong answers to the question. */
    method RemoveQuestionFromReview(user: Option<UserId>, questionId: string, fails: bool)
      returns (err: Option<ActionError>)
      requires Valid()
      modifies this
      ensures Valid()
      ensures err == (if user.None? then Some(NotAuthenticated) else if fails then Some(StoreFailure) else None)
      ensures err.Some? ==> unchanged(this)
      ensures err.None? ==>
        && answers == WithoutReviewAnswers(old(answers), user.value, questionId)
        && sessions == old(sessions) && notebook == old(notebook) && nextId == old(nextId)
    {
      if user.None? {
        return Some(NotAuthenticated);
      }
      if fails {
        return Some(StoreFailure);
      }
      var kept := WithoutReviewAnswers(answers, user.value, questionId);
      forall i | 0 <= i < |kept| ensures kept[i].id < nextId {
        assert kept[i] in answers;
      }
      answers := kept;
      err := None;
    }

    /** `deleteNotebookEntry`: deletes the entry with the given id only when it
        belongs to the signed-in user. */
    method DeleteNotebookEntry(user: Option<UserId>, entryId: RowId, fails: bool)
      returns (err: Option<ActionError>)
      requires Valid()
      modifies this
      ensures Valid()
      ensures err == (if user.None? then Some(NotAuthenticated) else if fails then Some(StoreFailure) else None)
      ensures err.Some? ==> unchanged(this)
      ensures err.None? ==>
        && notebook == WithoutEntry(old(notebook), entryId, user.value)
        && sessions == old(sessions) && answers == old(answers) && nextId == old(nextId)
    {
      if user.None? {
        return Some(NotAuthenticated);
      }
      if fails {
        return Some(StoreFailure);
      }
      var kept := WithoutEntry(notebook, entryId, user.value);
      forall i | 0 <= i < |kept| ensures kept[i].id < nextId {
        assert kept[i] in notebook;
      }
      notebook := kept;
      err := None;
    }
  }
}
