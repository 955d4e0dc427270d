/** The practice quiz: one question at a time, an option selected and checked,
    the answer recorded, a wrong answer optionally classified, and at the end
    the session closed and the results link built. */
module QuizFlow {
  import opened Common
  import opened Records
  import opened Actions

  /** A question as the quiz receives it (the practice page only mounts the
      quiz with at least one question). */
  datatype Question = Question(id: string, statement: string, subjectId: string, options: seq<AnswerOption>)

  /** `options.find(opt => opt.is_correct)?.id`: the id of the first correct option. */
  function CorrectOptionId(options: seq<AnswerOption>): (r: Option<string>)
    ensures r.None? <==> forall i :: 0 <= i < |options| ==> !options[i].isCorrect
    ensures r.Some? ==> exists i :: 0 <= i < |options| && options[i].isCorrect && options[i].id == r.value
                          && forall j :: 0 <= j < i ==> !options[j].isCorrect
  {
    if options == [] then None
    else if options[0].isCorrect then Some(options[0].id)
    else
      var rest := CorrectOptionId(options[1..]);
      assert forall i :: 1 <= i < |options| ==> options[i] == options[1..][i - 1];
      if rest.Some? then
        var k :| 0 <= k < |options[1..]| && options[1..][k].isCorrect && options[1..][k].id == rest.value
                 && forall j :: 0 <= j < k ==> !options[1..][j].isCorrect;
        assert options[k + 1].isCorrect && options[k + 1].id == rest.value;
        rest
      else rest
  }

  /** `results.filter(r => r.correct).length`. */
  function CountCorrect(results: seq<bool>): (n: nat)
    ensures n == multiset(results)[true]
    ensures n <= |results|
  {
    if results == [] then 0
    else
      var init := results[..|results| - 1];
      assert results == init + [results[|results| - 1]];
      CountCorrect(init) + (if results[|results| - 1] then 1 else 0)
  }

  /** The query of the results page the quiz navigates to at the end. */
  datatype ResultsLink = ResultsLink(correct: nat, total: nat, subjectId: string, sessionId: Option<RowId>)

  /** The state of the quiz component. */
  class Quiz {
    const questions: seq<Question>
    var sessionId: Option<RowId>
    var currentIndex: nat
    var selectedOptionId: Option<string>
    var isAnswered: bool
    var lastAnswerId: Option<RowId>
    var isCorrect: bool
    /** One flag per checked answer, in order. */
    var results: seq<bool>
    /** The answers this quiz has classified. */
    ghost var classified: set<RowId>

    /** The index stays on a question, every question before the current one
        contributed one result and the current one contributes one once
        checked; only a checked question can have a recorded answer. */
    ghost predicate Valid()
      reads this
    {
      && |questions| > 0
      && currentIndex < |questions|
      && |results| == currentIndex + (if isAnswered then 1 else 0)
      && (!isAnswered ==> lastAnswerId.None?)
    }

    /** The answer awaiting classification was handed out by the store and has
        not been classified yet; every classified answer was handed out by it. */
    ghost predicate FreshAnswer(store: Store)
      reads this, store
    {
      && (forall id :: id in classified ==> id < store.nextId)
      && (lastAnswerId.Some? ==> lastAnswerId.value < store.nextId && lastAnswerId.value !in classified)
    }

    constructor (questions: seq<Question>)
      requires |questions| > 0
      ensures Valid()
      ensures this.questions == questions && sessionId.None? && currentIndex == 0
      ensures selectedOptionId.None? && !isAnswered && lastAnswerId.None? && !isCorrect && results == []
      ensures classified == {}
    {
      this.questions := questions;
      sessionId, currentIndex, selectedOptionId := None, 0, None;
      isAnswered, lastAnswerId, isCorrect, results := false, None, false, [];
      classified := {};
    }

    /** The effect on mount: opens a session for the current question's subject;
        a failure is only logged and the quiz keeps showing its loading state. */
    method StartSession(store: Store, user: Option<UserId>, now: int, fails: bool)
      requires Valid() && store.Valid() && FreshAnswer(store)
      modifies this, store
      ensures Valid() && store.Valid() && FreshAnswer(store)
      ensures user.Some? && !fails ==>
        && sessionId == Some(old(store.nextId))
        && store.sessions == old(store.sessions) + [SessionRow(old(store.nextId), user.value,
                                                               questions[currentIndex].subjectId, now, None, None, None)]
        && store.answers == old(store.answers) && store.notebook == old(store.notebook)
        && store.nextId == old(store.nextId) + 1
      ensures (user.None? || fails) ==> sessionId == old(sessionId) && unchanged(store)
      ensures currentIndex == old(currentIndex) && selectedOptionId == old(selectedOptionId)
      ensures isAnswered == old(isAnswered) && lastAnswerId == old(lastAnswerId)
      ensures isCorrect == old(isCorrect) && results == old(results) && classified == old(classified)
    {
      var r := store.CreateQuizSession(user, questions[currentIndex].subjectId, now, fails);
      if r.Ok? {
        sessionId := Some(r.value);
      }
    }

    /** `handleOptionSelect`: ignored once the question is answered. */
    method SelectOption(optionId: string)
      requires Valid()
      modifies this`selectedOptionId
      ensures Valid()
      ensures selectedOptionId == if old(isAnswered) then old(selectedOptionId) else Some(optionId)
    {
      if isAnswered {
        return;
      }
      selectedOptionId := Some(optionId);
    }

    /** `handleCheckAnswer`, offered only while the question is unanswered: with
        an option selected and a session open, marks the question answered,
        logs one result, and records the answer; the id of the recorded answer
        is kept for classification only when the store returns one. */
    method CheckAnswer(store: Store, user: Option<UserId>, now: int, fails: bool)
      requires Valid() && store.Valid() && FreshAnswer(store)
      requires !isAnswered
      modifies this, store
      ensures Valid() && store.Valid() && FreshAnswer(store)
      ensures store.nextId >= old(store.nextId)
      ensures currentIndex == old(currentIndex) && sessionId == old(sessionId)
      ensures selectedOptionId == old(selectedOptionId) && classified == old(classified)
      ensures !Truthy(old(selectedOptionId)) || old(sessionId).None? ==>
        && !isAnswered && lastAnswerId.None? && isCorrect == old(isCorrect) && results == old(results)
        && unchanged(store)
      ensures Truthy(old(selectedOptionId)) && old(sessionId).Some? ==>
        var correct := CorrectOptionId(questions[currentIndex].options) == old(selectedOptionId);
        && isAnswered && isCorrect == correct && results == old(results) + [correct]
        && (user.Some? && !fails ==>
              && lastAnswerId == Some(old(store.nextId))
              && store.answers == old(store.answers) + [AnswerRow(old(store.nextId), user.value, questions[currentIndex].id,
                                                        old(selectedOptionId).value, correct, old(sessionId).value, None, now)]
              && store.sessions == old(store.sessions) && store.notebook == old(store.notebook)
              && store.nextId == old(store.nextId) + 1)
        && (user.None? || fails ==> lastAnswerId.None? && unchanged(store))
    {
      if !Truthy(selectedOptionId) || sessionId.None? {
        return;
      }
      var correct := CorrectOptionId(questions[currentIndex].options) == selectedOptionId;
      isCorrect := correct;
      isAnswered := true;
      results := results + [correct];
      var saved := store.SaveAnswer(user, questions[currentIndex].id, selectedOptionId.value, correct,
                                    sessionId.value, now, fails);
      if saved.Ok? && saved.value.Some? {
        lastAnswerId := saved.value;
      }
    }

    /** `handleClassifyError`: classifies the recorded answer, if any, and forgets
        it once the store accepted the classification; a failure keeps it. */
    method ClassifyError(store: Store, errorType: ErrorType, fails: bool)
      requires Valid() && store.Valid() && FreshAnswer(store)
      modifies this, store
      ensures Valid() && store.Valid() && FreshAnswer(store)
      ensures store.nextId == old(store.nextId)
      ensures currentIndex == old(currentIndex) && sessionId == old(sessionId) && selectedOptionId == old(selectedOptionId)
      ensures isAnswered == old(isAnswered) && isCorrect == old(isCorrect) && results == old(results)
      ensures old(lastAnswerId).None? || fails ==>
        lastAnswerId == old(lastAnswerId) && classified == old(classified) && unchanged(store)
      ensures old(lastAnswerId).Some? && !fails ==>
        && old(lastAnswerId).value !in old(classified)
        && classified == old(classified) + {old(lastAnswerId).value}
        && lastAnswerId.None?
        && store.answers == ClassifyRows(old(store.answers), old(lastAnswerId).value, errorType)
        && store.sessions == old(store.sessions) && store.notebook == old(store.notebook)
    {
      if lastAnswerId.None? {
        return;
      }
      var id := lastAnswerId.value;
      var err := store.ClassifyError(id, errorType, fails);
      if err.None? {
        classified := classified + {id};
        lastAnswerId := None;
      }
    }

    /** `handleNextQuestion`, offered once the question is answered: moves to
        the next question with a clean slate, or, on the last one, closes the
        session (when there is one) with the number of correct results out of
        the number of questions and returns the link to the results page. */
    method NextQuestion(store: Store, now: int, fails: bool) returns (link: Option<ResultsLink>)
      requires Valid() && store.Valid() && FreshAnswer(store)
      requires isAnswered
      modifies this, store
      ensures Valid() && store.Valid() && FreshAnswer(store)
      ensures store.nextId == old(store.nextId)
      ensures sessionId == old(sessionId) && results == old(results) && classified == old(classified)
      ensures old(currentIndex) < |questions| - 1 ==>
        && link.None? && unchanged(store)
        && currentIndex == old(currentIndex) + 1
        && selectedOptionId.None? && !isAnswered && lastAnswerId.None? && !isCorrect
      ensures old(currentIndex) == |questions| - 1 ==>
        && currentIndex == old(currentIndex)
        && selectedOptionId == old(selectedOptionId) && isAnswered && lastAnswerId == old(lastAnswerId)
        && isCorrect == old(isCorrect)
        && link == Some(ResultsLink(CountCorrect(results), |questions|, questions[currentIndex].subjectId, sessionId))
        && CountCorrect(results) <= |questions|
        && (sessionId.None? ==> unchanged(store))
        && (sessionId.Some? && !fails ==>
              store.sessions == CloseSession(old(store.sessions), sessionId.value, now, CountCorrect(results), |questions|)
              && store.answers == old(store.answers) && store.notebook == old(store.notebook))
        && (sessionId.Some? && fails ==> unchanged(store))
    {
      if currentIndex < |questions| - 1 {
        currentIndex := currentIndex + 1;
        selectedOptionId := None;
        isAnswered := false;
        lastAnswerId := None;
        isCorrect := false;
        link := None;
      } else {
        var correctCount := CountCorrect(results);
        var totalCount := |questions|;
        var subjectId := questions[currentIndex].subjectId;
        if sessionId.Some? {
          store.UpdateQuizSession(sessionId.value, correctCount, totalCount, now, fails);
        }
        link := Some(ResultsLink(correctCount, totalCount, subjectId, sessionId));
      }
    }
  }
}
