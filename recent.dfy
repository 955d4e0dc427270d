/** The recent-sessions card of the dashboard: the user's five most recently
    completed sessions, each with its subject name, its accuracy and the colour
    of its accuracy badge. */
module RecentSessions {
  import opened Common
  import opened Records
  import opened Seqs
  import Performance

  /** The `subjects (name)` embed as it may come back: null, one object, or an array. */
  datatype SubjectField = NoSubject | SubjectObject(name: string) | SubjectArray(names: seq<string>)

  /** `Array.isArray(s) ? s[0] : s`, read through `?.name`: an array gives way to
      its first element (none when it is empty), an object or null stays. */
  function NormalizeSubject(f: SubjectField): (r: Option<string>)
    ensures f.NoSubject? ==> r.None?
    ensures f.SubjectObject? ==> r == Some(f.name)
    ensures f.SubjectArray? ==> (r.Some? <==> f.names != []) && (r.Some? ==> r.value == f.names[0])
  {
    match f
    case NoSubject => None
    case SubjectObject(name) => Some(name)
    case SubjectArray(names) => if names == [] then None else Some(names[0])
  }

  /** `session.subjects?.name || 'Sessão desconhecida'`. */
  function SubjectLabel(name: Option<string>): (text: string)
    ensures text != ""
    ensures name.Some? && name.value != "" ==> text == name.value
    ensures name.None? || name.value == "" ==> text == "Sessão desconhecida"
  {
    OrDefault(name, "Sessão desconhecida")
  }

  function CompletedAtKey(s: SessionRow): int {
    s.completedAt.GetOr(0)
  }

  /** The first `n` elements, or all of them when there are fewer (`.limit(n)`). */
  function Take<T>(xs: seq<T>, n: nat): (r: seq<T>)
    ensures |r| == (if |xs| < n then |xs| else n)
    ensures r == xs[..|r|]
  {
    if |xs| <= n then xs else xs[..n]
  }

  /** The session rows the query returns: the user's completed sessions, newest
      completion first, at most five. */
  function RecentQuery(rows: seq<SessionRow>, user: UserId): (r: seq<SessionRow>)
    ensures |r| <= 5 && |r| <= |Performance.Completed(rows, user)|
  {
    Take(SortDesc(Performance.Completed(rows, user), CompletedAtKey), 5)
  }

  /** At most five sessions, all completed sessions of the user, newest first,
      and no completed session left out is newer than one selected; fewer than
      five only when the user has fewer completed sessions. */
  lemma RecentQueryIsTopFive(rows: seq<SessionRow>, user: UserId)
    ensures var r := RecentQuery(rows, user);
      && |r| == (if |Performance.Completed(rows, user)| < 5 then |Performance.Completed(rows, user)| else 5)
      && NonIncreasing(r, CompletedAtKey)
      && (forall s :: s in r ==> s in rows && s.userId == user && s.completedAt.Some?)
      && (forall s, i :: s in rows && s.userId == user && s.completedAt.Some? && s !in r && 0 <= i < |r| ==>
            CompletedAtKey(s) <= CompletedAtKey(r[i]))
  {
    var r := RecentQuery(rows, user);
    assert NonIncreasing(r, CompletedAtKey) by {
      var sorted := SortDesc(Performance.Completed(rows, user), CompletedAtKey);
      assert r == sorted[..|r|];
    }
    RecentQueryMembers(rows, user);
    RecentQueryNoneNewer(rows, user);
  }

  lemma RecentQueryMembers(rows: seq<SessionRow>, user: UserId)
    ensures forall s :: s in RecentQuery(rows, user) ==> s in rows && s.userId == user && s.completedAt.Some?
  {
    var c := Performance.Completed(rows, user);
    var sorted := SortDesc(c, CompletedAtKey);
    var r := RecentQuery(rows, user);
    forall s | s in r ensures s in rows && s.userId == user && s.completedAt.Some? {
      assert s in sorted;
      SortDescSameElements(c, CompletedAtKey, s);
    }
  }

  lemma RecentQueryNoneNewer(rows: seq<SessionRow>, user: UserId)
    ensures var r := RecentQuery(rows, user);
      forall s, i :: s in rows && s.userId == user && s.completedAt.Some? && s !in r && 0 <= i < |r| ==>
        CompletedAtKey(s) <= CompletedAtKey(r[i])
  {
    var c := Performance.Completed(rows, user);
    var sorted := SortDesc(c, CompletedAtKey);
    var r := RecentQuery(rows, user);
    assert r == sorted[..|r|];
    forall s, i | s in rows && s.userId == user && s.completedAt.Some? && s !in r && 0 <= i < |r|
      ensures CompletedAtKey(s) <= CompletedAtKey(r[i])
    {
      SortDescSameElements(c, CompletedAtKey, s);
      var k :| 0 <= k < |sorted| && sorted[k] == s;
      assert sorted[i] == r[i];
    }
  }

  /** A session as the card shows it. */
  datatype RecentItem = RecentItem(id: RowId, subjectLabel: string, score: Option<int>, totalQuestions: Option<int>, accuracy: int, badge: Tier)

  /** `total_questions > 0 ? Math.round(score / total_questions * 100) : 0`; a null
      total is not positive, and a null score divides as 0. */
  function SessionAccuracy(score: Option<int>, total: Option<int>): (r: int)
    ensures total.None? || total.value <= 0 ==> r == 0
    ensures total.Some? && total.value > 0 ==>
      var s := score.GetOr(0);
      200 * s - total.value < 2 * total.value * r <= 200 * s + total.value
    ensures total.Some? && 0 <= score.GetOr(0) <= total.value ==> 0 <= r <= 100
  {
    if total.Some? && total.value > 0 then
      var s := score.GetOr(0);
      if 0 <= s <= total.value then RoundPercentInRange(s, total.value); RoundPercent(s, total.value)
      else RoundPercent(s, total.value)
    else 0
  }

  /** `AccuracyBadge`: green from 80, yellow from 60, red below. */
  function AccuracyBadge(accuracy: int): (c: Tier)
    ensures c == Green <==> accuracy >= 80
    ensures c == Yellow <==> 60 <= accuracy < 80
    ensures c == Red <==> accuracy < 60
  {
    if accuracy >= 80 then Green
    else if accuracy >= 60 then Yellow
    else Red
  }

  /** A better accuracy never gets a more severe badge. */
  lemma AccuracyBadgeMonotonic(a: int, b: int)
    requires a <= b
    ensures AccuracyBadge(b).Rank() <= AccuracyBadge(a).Rank()
  {
  }

  /** One row of the card: the session's id, score and total as stored, its
      subject's name or the fallback label, its accuracy and that accuracy's
      badge. */
  function Item(s: SessionRow, subjects: map<string, SubjectField>): (it: RecentItem)
    ensures it.id == s.id && it.score == s.score && it.totalQuestions == s.totalQuestions
    ensures it.accuracy == SessionAccuracy(s.score, s.totalQuestions)
    ensures it.badge == AccuracyBadge(it.accuracy)
    ensures it.subjectLabel == SubjectLabel(NormalizeSubject(if s.subjectId in subjects then subjects[s.subjectId] else NoSubject))
    ensures s.subjectId !in subjects ==> it.subjectLabel == "Sessão desconhecida"
  {
    var field := if s.subjectId in subjects then subjects[s.subjectId] else NoSubject;
    var accuracy := SessionAccuracy(s.score, s.totalQuestions);
    RecentItem(s.id, SubjectLabel(NormalizeSubject(field)), s.score, s.totalQuestions, accuracy, AccuracyBadge(accuracy))
  }

  /** `getRecentSessions` and the card's items: null without a user or when the
      query fails. `subjects` is what the embed returns for each subject id. */
  function GetRecentSessions(user: Option<UserId>, rows: seq<SessionRow>, subjects: map<string, SubjectField>, fails: bool)
    : (r: Option<seq<RecentItem>>)
    ensures r.None? <==> user.None? || fails
    ensures r.Some? ==> |r.value| == |RecentQuery(rows, user.value)| <= 5
    ensures r.Some? ==> forall i :: 0 <= i < |r.value| ==>
      r.value[i] == Item(RecentQuery(rows, user.value)[i], subjects)
    ensures r.Some? ==> forall i :: 0 <= i < |r.value| ==>
      && r.value[i].id == RecentQuery(rows, user.value)[i].id
      && r.value[i].score == RecentQuery(rows, user.value)[i].score
      && r.value[i].totalQuestions == RecentQuery(rows, user.value)[i].totalQuestions
      && r.value[i].accuracy == SessionAccuracy(r.value[i].score, r.value[i].totalQuestions)
      && r.value[i].badge == AccuracyBadge(r.value[i].accuracy)
  {
    if user.None? || fails then None
    else
      var sessions := RecentQuery(rows, user.value);
      Some(seq(|sessions|, i requires 0 <= i < |sessions| => Item(sessions[i], subjects)))
  }

  /** `!sessions || sessions.length === 0` renders nothing. */
  predicate RendersList(r: Option<seq<RecentItem>>) {
    r.Some? && r.value != []
  }

  /** The card is rendered exactly when a signed-in user's query succeeds and
      the user has a completed session. */
  lemma RendersListIff(user: Option<UserId>, rows: seq<SessionRow>, subjects: map<string, SubjectField>, fails: bool)
    ensures RendersList(GetRecentSessions(user, rows, subjects, fails)) <==>
      user.Some? && !fails && exists s :: s in rows && s.userId == user.value && s.completedAt.Some?
  {
    if user.Some? && !fails {
      var c := Performance.Completed(rows, user.value);
      if exists s :: s in rows && s.userId == user.value && s.completedAt.Some? {
        var s :| s in rows && s.userId == user.value && s.completedAt.Some?;
        assert s in c;
      }
    }
  }

  /** A session with a score within its total shows an accuracy between 0 and
      100, and a full score shows green. */
  lemma ItemAccuracyInRange(s: SessionRow, subjects: map<string, SubjectField>)
    requires s.totalQuestions.Some? && s.score.Some? && 0 <= s.score.value <= s.totalQuestions.value
    ensures 0 <= Item(s, subjects).accuracy <= 100
    ensures s.totalQuestions.value > 0 && s.score.value == s.totalQuestions.value ==> Item(s, subjects).badge == Green
  {
  }
}
