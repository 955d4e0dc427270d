/** The performance card of the dashboard: how many sessions the user has
    completed and how many questions those sessions held. */
module Performance {
  import opened Common
  import opened Records
  import opened Seqs

  /** The user's sessions whose `completed_at` is set (`.not('completed_at', 'is', null)`). */
  function Completed(rows: seq<SessionRow>, user: UserId): (r: seq<SessionRow>)
    ensures |r| <= |rows|
    ensures forall s :: s in r <==> s in rows && s.userId == user && s.completedAt.Some?
  {
    Filter(SessionsOf(rows, user), (s: SessionRow) => s.completedAt.Some?)
  }

  /** A session added to the table is completed for the user exactly when it
      is theirs and closed. */
  lemma CompletedSnoc(rows: seq<SessionRow>, s: SessionRow, user: UserId)
    ensures Completed(rows + [s], user) ==
      Completed(rows, user) + (if s.userId == user && s.completedAt.Some? then [s] else [])
  {
    SelectSnoc(rows, s, (x: SessionRow) => x.userId == user, true);
    SelectSnoc(SessionsOf(rows, user), s, (x: SessionRow) => x.completedAt.Some?, true);
  }

  /** `sessions.reduce((sum, s) => sum + s.total_questions, 0)`: a null total adds nothing. */
  function SumTotals(sessions: seq<SessionRow>): int {
    if sessions == [] then 0
    else SumTotals(sessions[..|sessions| - 1]) + sessions[|sessions| - 1].totalQuestions.GetOr(0)
  }

  /** The sum splits over a concatenation. */
  lemma {:induction false} SumTotalsAppend(a: seq<SessionRow>, b: seq<SessionRow>)
    ensures SumTotals(a + b) == SumTotals(a) + SumTotals(b)
  {
    if b != [] {
      var init := b[..|b| - 1];
      assert a + b == (a + init) + [b[|b| - 1]];
      assert (a + b)[..|a + b| - 1] == a + init;
      SumTotalsAppend(a, init);
    } else {
      assert a + b == a;
    }
  }

  /** With no negative totals the sum is not negative. */
  lemma {:induction false} SumTotalsNonNegative(sessions: seq<SessionRow>)
    requires forall s :: s in sessions ==> s.totalQuestions.GetOr(0) >= 0
    ensures SumTotals(sessions) >= 0
  {
    if sessions != [] {
      var init := sessions[..|sessions| - 1];
      assert forall s :: s in init ==> s in sessions;
      assert sessions[|sessions| - 1] in sessions;
      SumTotalsNonNegative(init);
    }
  }

  datatype Stats = Stats(totalQuestionsAnswered: int, totalSessions: nat)

  /** `getPerformanceStats`: null without a user; zeros when the query fails or
      finds nothing; otherwise the sum of the totals and the number of the
      user's completed sessions. */
  function GetPerformanceStats(user: Option<UserId>, rows: seq<SessionRow>, fails: bool): (r: Option<Stats>)
    ensures r.None? <==> user.None?
    ensures r.Some? && fails ==> r.value == Stats(0, 0)
    ensures r.Some? && !fails ==>
      r.value.totalSessions == |Completed(rows, user.value)| &&
      r.value.totalQuestionsAnswered == SumTotals(Completed(rows, user.value))
  {
    if user.None? then None
    else
      var sessions := Completed(rows, user.value);
      if fails || sessions == [] then Some(Stats(0, 0))
      else Some(Stats(SumTotals(sessions), |sessions|))
  }

  /** `!stats || stats.totalSessions === 0`. */
  predicate ShowsEmptyState(stats: Option<Stats>) {
    stats.None? || stats.value.totalSessions == 0
  }

  /** The empty state is shown exactly when nobody is signed in, the query
      fails, or the user has no completed session. */
  lemma EmptyStateIff(user: Option<UserId>, rows: seq<SessionRow>, fails: bool)
    ensures ShowsEmptyState(GetPerformanceStats(user, rows, fails)) <==>
      user.None? || fails || forall s :: s in rows && s.userId == user.value ==> s.completedAt.None?
  {
    if user.Some? && !fails && Completed(rows, user.value) != [] {
      var c := Completed(rows, user.value);
      assert c[0] in c;
    }
  }
}
