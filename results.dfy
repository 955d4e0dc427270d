/** The results page shown at the end of a quiz, read from the query string the
    quiz builds. */
module Results {
  import opened Common
  import opened Decimal
  import QuizFlow

  datatype ResultsView =
    | RedirectToDashboard
    | Summary(correctAnswers: Option<int>, incorrectAnswers: Option<int>, accuracy: Option<int>,
              retryHref: Option<string>, sessionLine: Option<string>)

  /** `Math.round(correct / total * 100)` in exact arithmetic; `None` stands for
      the NaN or infinity a zero total gives. */
  function Accuracy(correct: int, total: int): (r: Option<int>)
    ensures r.None? <==> total == 0
    ensures total > 0 ==> 200 * correct - total < 2 * total * r.value <= 200 * correct + total
    ensures 0 <= correct <= total && total > 0 ==> 0 <= r.value <= 100
  {
    if total > 0 then
      if 0 <= correct <= total then RoundPercentInRange(correct, total); Some(RoundPercent(correct, total))
      else Some(RoundPercent(correct, total))
    else if total < 0 then Some(RoundPercent(-correct, -total))
    else None
  }

  /** The page for the parameters `total`, `correct`, `subjectId` and `sessionId`. */
  function ResultsPage(total: Option<string>, correct: Option<string>, subjectId: Option<string>,
                       sessionId: Option<string>): (v: ResultsView)
    ensures v.RedirectToDashboard? <==> !Truthy(total) || !Truthy(correct)
    ensures v.Summary? ==>
      && v.correctAnswers == ParseInt(correct.value)
      && (v.incorrectAnswers.Some? <==> ParseInt(total.value).Some? && ParseInt(correct.value).Some?)
      && (v.incorrectAnswers.Some? ==> v.incorrectAnswers.value == ParseInt(total.value).value - ParseInt(correct.value).value)
      && (v.accuracy.Some? ==> ParseInt(total.value).Some? && ParseInt(total.value).value != 0)
      && v.accuracy == (if ParseInt(total.value).Some? && ParseInt(correct.value).Some?
                        then Accuracy(ParseInt(correct.value).value, ParseInt(total.value).value) else None)
      && (v.sessionLine.Some? ==> v.sessionLine == sessionId)
      && (v.retryHref.Some? <==> Truthy(subjectId))
      && (v.retryHref.Some? ==> v.retryHref.value == "/practice/" + subjectId.value)
      && (v.sessionLine.Some? <==> Truthy(sessionId))
  {
    if !Truthy(total) || !Truthy(correct) then RedirectToDashboard
    else
      var t, c := ParseInt(total.value), ParseInt(correct.value);
      Summary(
        c,
        if t.Some? && c.Some? then Some(t.value - c.value) else None,
        if t.Some? && c.Some? then Accuracy(c.value, t.value) else None,
        if Truthy(subjectId) then Some("/practice/" + subjectId.value) else None,
        if Truthy(sessionId) then sessionId else None)
  }

  /** The query string of the link the quiz navigates to. */
  function LinkParams(link: QuizFlow.ResultsLink): (r: (Option<string>, Option<string>, Option<string>, Option<string>))
    ensures Truthy(r.0) && ParseInt(r.0.value) == Some(link.total)
    ensures Truthy(r.1) && ParseInt(r.1.value) == Some(link.correct)
    ensures r.2 == Some(link.subjectId)
    ensures Truthy(r.3) <==> link.sessionId.Some?
  {
    ParseShow(link.total);
    ParseShow(link.correct);
    (Some(Show(link.total)), Some(Show(link.correct)), Some(link.subjectId),
     if link.sessionId.Some? then Some(Show(link.sessionId.value)) else None)
  }

  /** The page reached from a finished quiz (at least one question, no more
      correct answers than questions) shows the counts the quiz computed, an
      incorrect count that is not negative and an accuracy between 0 and 100;
      the retry link appears when the subject id is not empty and the session
      line when the quiz had a session. */
  lemma QuizLinkResults(link: QuizFlow.ResultsLink)
    requires 0 < link.total && link.correct <= link.total
    ensures var (t, c, s, sid) := LinkParams(link);
      var v := ResultsPage(t, c, s, sid);
      && v.Summary?
      && v.correctAnswers == Some(link.correct)
      && v.incorrectAnswers == Some(link.total - link.correct)
      && v.incorrectAnswers.value >= 0
      && v.accuracy.Some? && 0 <= v.accuracy.value <= 100
      && (v.retryHref.Some? <==> link.subjectId != "")
      && (v.sessionLine.Some? <==> link.sessionId.Some?)
  {
  }
}
