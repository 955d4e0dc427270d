/** How the server actions show up on the pages: a recorded wrong answer enters
    the review list, a removed question leaves it, a classification makes the
    answer's question appear under that type, and opening or closing a quiz
    session moves the dashboard's counters as expected. */
module Lifecycle {
  import opened Common
  import opened Records
  import opened Review
  import opened Actions
  import opened Performance

  /** Every question of the catalog is stored under its own id. */
  predicate CatalogConsistent(catalog: map<QuestionId, QuestionData>) {
    forall k :: k in catalog ==> catalog[k].id == k
  }

  /** A wrong answer of the user to a question of the catalog, which passes the
      page's filters, makes that question an entry of the review page. */
  lemma WrongAnswerEntersReview(rows: seq<AnswerRow>, catalog: map<QuestionId, QuestionData>, user: UserId,
                                subject: Option<string>, errorType: Option<string>, row: AnswerRow)
    requires row in rows && row.userId == user && !row.isCorrect
    requires Admits(ErrorTypeFilterOf(errorType), row.errorType)
    requires row.questionId in catalog && catalog[row.questionId].id == row.questionId
    requires !Truthy(subject) || catalog[row.questionId].subjectId == subject.value
    ensures row.questionId in DistinctIds(ReviewQuery(rows, catalog, user, subject, errorType))
  {
    var r := ReviewQuery(rows, catalog, user, subject, errorType);
    var a := ToIncorrect(row, catalog, subject);
    ReviewQueryMembers(rows, catalog, user, subject, errorType, a);
    assert a in r;
    assert a in Questioned(r) && QuestionKey(a) == row.questionId;
  }

  /** After `removeQuestionFromReview`, the question is no entry of the user's
      review page, whatever the filters. */
  lemma RemovedQuestionLeavesReview(rows: seq<AnswerRow>, catalog: map<QuestionId, QuestionData>, user: UserId,
                                    questionId: QuestionId, subject: Option<string>, errorType: Option<string>)
    requires CatalogConsistent(catalog)
    ensures questionId !in DistinctIds(ReviewQuery(WithoutReviewAnswers(rows, user, questionId), catalog, user, subject, errorType))
  {
    var rest := WithoutReviewAnswers(rows, user, questionId);
    var r := ReviewQuery(rest, catalog, user, subject, errorType);
    forall x | x in Questioned(r) ensures QuestionKey(x) != questionId {
      ReviewQueryMembers(rest, catalog, user, subject, errorType, x);
      var row :| row in Picked(rest, user, errorType) && x == ToIncorrect(row, catalog, subject);
      assert !ReviewAnswerOf(row, user, questionId);
    }
  }

  /** Classifying a wrong answer makes its question an entry of the review page
      filtered by that type. */
  lemma ClassifiedShowsUnderType(rows: seq<AnswerRow>, catalog: map<QuestionId, QuestionData>, user: UserId,
                                 subject: Option<string>, row: AnswerRow, errorType: ErrorType)
    requires row in rows && row.userId == user && !row.isCorrect
    requires row.questionId in catalog && catalog[row.questionId].id == row.questionId
    requires !Truthy(subject) || catalog[row.questionId].subjectId == subject.value
    ensures row.questionId in DistinctIds(ReviewQuery(ClassifyRows(rows, row.id, errorType), catalog, user, subject, Some(errorType.Name())))
  {
    var i :| 0 <= i < |rows| && rows[i] == row;
    var classified := ClassifyRows(rows, row.id, errorType);
    var row' := classified[i];
    assert row' == row.(errorType := Some(errorType));
    assert row' in classified;
    WrongAnswerEntersReview(classified, catalog, user, subject, Some(errorType.Name()), row');
  }

  /** Opening a session changes nothing on the performance card. */
  lemma OpeningKeepsStats(user: Option<UserId>, rows: seq<SessionRow>, fails: bool, started: SessionRow)
    requires started.completedAt.None?
    ensures GetPerformanceStats(user, rows + [started], fails) == GetPerformanceStats(user, rows, fails)
  {
    if user.Some? {
      CompletedSnoc(rows, started, user.value);
    }
  }

  /** How many rows carry the id. */
  function IdCount(rows: seq<SessionRow>, id: RowId): nat {
    if rows == [] then 0
    else IdCount(rows[..|rows| - 1], id) + (if rows[|rows| - 1].id == id then 1 else 0)
  }

  /** The one row a close changes, as it becomes. */
  function Closed(s: SessionRow, sessionId: RowId, now: int, score: int, total: int): SessionRow {
    if s.id == sessionId then s.(completedAt := Some(now), score := Some(score), totalQuestions := Some(total)) else s
  }

  lemma CloseSessionSnoc(init: seq<SessionRow>, x: SessionRow, sessionId: RowId, now: int, score: int, total: int)
    ensures CloseSession(init + [x], sessionId, now, score, total) ==
      CloseSession(init, sessionId, now, score, total) + [Closed(x, sessionId, now, score, total)]
  {
    var a := CloseSession(init + [x], sessionId, now, score, total);
    var b := CloseSession(init, sessionId, now, score, total) + [Closed(x, sessionId, now, score, total)];
    assert |a| == |b|;
    forall i | 0 <= i < |a| ensures a[i] == b[i] {
      if i < |init| {
        assert (init + [x])[i] == init[i];
      }
    }
  }

  /** The sessions a close adds to the user's completed ones, row by row. */
  function Gained(x: SessionRow, user: UserId, sessionId: RowId, now: int, score: int, total: int): seq<SessionRow> {
    var y := Closed(x, sessionId, now, score, total);
    if y.userId == user && y.completedAt.Some? then [y] else []
  }

  function Had(x: SessionRow, user: UserId): seq<SessionRow> {
    if x.userId == user && x.completedAt.Some? then [x] else []
  }

  lemma CloseStep(init: seq<SessionRow>, x: SessionRow, user: UserId, sessionId: RowId, now: int, score: int, total: int)
    ensures Completed(CloseSession(init + [x], sessionId, now, score, total), user) ==
      Completed(CloseSession(init, sessionId, now, score, total), user) + Gained(x, user, sessionId, now, score, total)
    ensures Completed(init + [x], user) == Completed(init, user) + Had(x, user)
  {
    CloseSessionSnoc(init, x, sessionId, now, score, total);
    CompletedSnoc(init, x, user);
    CompletedSnoc(CloseSession(init, sessionId, now, score, total), Closed(x, sessionId, now, score, total), user);
  }

  lemma SumSingle(s: seq<SessionRow>)
    requires |s| <= 1
    ensures SumTotals(s) == if s == [] then 0 else s[0].totalQuestions.GetOr(0)
  {
    if s != [] {
      assert s[..0] == [];
    }
  }

  /** Closing the user's open sessions with the given id completes each of them,
      with the given total. */
  lemma {:induction false} CloseCompletes(rows: seq<SessionRow>, user: UserId, sessionId: RowId, now: int, score: int, total: int)
    requires forall s :: s in rows && s.id == sessionId ==> s.userId == user && s.completedAt.None?
    ensures |Completed(CloseSession(rows, sessionId, now, score, total), user)| == |Completed(rows, user)| + IdCount(rows, sessionId)
    ensures SumTotals(Completed(CloseSession(rows, sessionId, now, score, total), user)) ==
      SumTotals(Completed(rows, user)) + IdCount(rows, sessionId) * total
  {
    if rows != [] {
      var init, x := rows[..|rows| - 1], rows[|rows| - 1];
      assert rows == init + [x];
      assert x in rows;
      assert forall s :: s in init ==> s in rows;
      CloseCompletes(init, user, sessionId, now, score, total);
      CloseStep(init, x, user, sessionId, now, score, total);
      var gained, had := Gained(x, user, sessionId, now, score, total), Had(x, user);
      var d := if x.id == sessionId then 1 else 0;
      GainedRow(x, user, sessionId, now, score, total);
      assert rows[..|rows| - 1] == init;
      assert IdCount(rows, sessionId) == IdCount(init, sessionId) + d;
      SumShift(Completed(CloseSession(init, sessionId, now, score, total), user), Completed(init, user),
               gained, had, IdCount(init, sessionId) * total, d * total);
      Distribute(IdCount(rows, sessionId), IdCount(init, sessionId), d, total);
    }
  }

  /** One row's part: an open row of the user with the id becomes one completed
      session with the given total; any other row is unchanged. */
  lemma GainedRow(x: SessionRow, user: UserId, sessionId: RowId, now: int, score: int, total: int)
    requires x.id == sessionId ==> x.userId == user && x.completedAt.None?
    ensures |Gained(x, user, sessionId, now, score, total)| == |Had(x, user)| + (if x.id == sessionId then 1 else 0)
    ensures SumTotals(Gained(x, user, sessionId, now, score, total)) ==
      SumTotals(Had(x, user)) + (if x.id == sessionId then 1 else 0) * total
  {
    SumSingle(Gained(x, user, sessionId, now, score, total));
    SumSingle(Had(x, user));
  }

  /** Sums over two concatenations whose parts differ by `x` and `y`. */
  lemma SumShift(p: seq<SessionRow>, q: seq<SessionRow>, g: seq<SessionRow>, h: seq<SessionRow>, x: int, y: int)
    requires SumTotals(p) == SumTotals(q) + x
    requires SumTotals(g) == SumTotals(h) + y
    ensures SumTotals(p + g) == SumTotals(q + h) + x + y
  {
    SumTotalsAppend(p, g);
    SumTotalsAppend(q, h);
  }

  lemma Distribute(n: int, c: int, d: int, t: int)
    requires n == c + d
    ensures n * t == c * t + d * t
  {
  }

  /** Finishing a quiz whose session is the user's only row with that id, and
      still open, adds one completed session and the quiz's questions to the
      performance card. */
  lemma FinishingQuizCounts(rows: seq<SessionRow>, user: UserId, sessionId: RowId, now: int, score: int, total: int)
    requires IdCount(rows, sessionId) == 1
    requires forall s :: s in rows && s.id == sessionId ==> s.userId == user && s.completedAt.None?
    ensures var before := GetPerformanceStats(Some(user), rows, false).value;
      var after := GetPerformanceStats(Some(user), CloseSession(rows, sessionId, now, score, total), false).value;
      after.totalSessions == before.totalSessions + 1 &&
      after.totalQuestionsAnswered == before.totalQuestionsAnswered + total
  {
    CloseCompletes(rows, user, sessionId, now, score, total);
  }
}
