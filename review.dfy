/** The review page: the user's incorrect answers, newest first, folded into one
    review entry per question, with the KPI counters, the grouping by subject,
    the percentages and their colour tiers. */
module Review {
  import opened Common
  import opened Records
  import opened Seqs
  import opened Grouping

  type QuestionId = string

  /** The question embedded in an answer by the review query, with the names of
      its subject and topic (null when the joined row is missing). */
  datatype QuestionData = QuestionData(
    id: QuestionId,
    statement: string,
    explanation: Option<string>,
    subjectId: string,
    subjectName: Option<string>,
    topicName: Option<string>,
    options: seq<AnswerOption>,
    banca: Option<string>,
    ano: Option<int>,
    orgao: Option<string>,
    cargo: Option<string>)

  /** One row of the review query: an incorrect answer and its embedded question. */
  datatype IncorrectAnswer = IncorrectAnswer(
    id: RowId,
    selectedOptionId: string,
    errorType: Option<ErrorType>,
    createdAt: int,
    question: Option<QuestionData>)

  /** The review entry of one question. */
  datatype ReviewQuestion = ReviewQuestion(
    questionId: QuestionId,
    statement: string,
    explanation: Option<string>,
    subjectName: string,
    topicName: string,
    options: seq<AnswerOption>,
    errorCount: nat,
    errorTypes: set<ErrorType>,
    lastAnsweredAt: int,
    lastSelectedOptionId: string,
    banca: Option<string>,
    ano: Option<int>,
    orgao: Option<string>,
    cargo: Option<string>)

  // ---------------------------------------------------------------------------
  // The query (review/page.tsx:86-126)
  // ---------------------------------------------------------------------------

  /** What the `errorType` search parameter asks for. */
  datatype ErrorTypeFilter = AnyType | Unclassified | TypeIs(name: string)

  /** Absent, empty and "all" apply no filter; "unclassified" asks for a null
      error type; any other value is compared with the stored name. */
  function ErrorTypeFilterOf(param: Option<string>): (f: ErrorTypeFilter)
    ensures f == AnyType <==> !Truthy(param) || param.value == "all"
    ensures f == Unclassified <==> param == Some("unclassified")
    ensures f.TypeIs? ==> Truthy(param) && f.name == param.value
  {
    if !Truthy(param) || param.value == "all" then AnyType
    else if param.value == "unclassified" then Unclassified
    else TypeIs(param.value)
  }

  /** Whether the filter lets a row with error type `t` through. A name that
      is not one of the stored values lets nothing through. */
  predicate Admits(f: ErrorTypeFilter, t: Option<ErrorType>)
    ensures f.AnyType? ==> Admits(f, t)
    ensures f.TypeIs? && f.name != "attention" && f.name != "knowledge" ==> !Admits(f, t)
    ensures Admits(f, t) && t.Some? ==> !f.Unclassified?
  {
    match f
    case AnyType => true
    case Unclassified => t.None?
    case TypeIs(name) => t.Some? && t.value.Name() == name
  }

  /** The query's filter on `error_type`, stated without the intermediate filter value. */
  lemma ErrorTypeFilterSemantics(param: Option<string>, t: Option<ErrorType>)
    ensures Admits(ErrorTypeFilterOf(param), t) <==>
      || !Truthy(param) || param.value == "all"
      || (param.value == "unclassified" && t.None?)
      || (param.value != "unclassified" && t.Some? && t.value.Name() == param.value)
  {
  }

  /** The embedded question of an answer row. The filter on `questions.subject_id`
      applies to the embedded resource only: when it rejects, the answer row is
      still returned, with a null question. */
  function Embed(row: AnswerRow, catalog: map<QuestionId, QuestionData>, subject: Option<string>): (q: Option<QuestionData>)
    ensures q.Some? ==> row.questionId in catalog && q.value == catalog[row.questionId]
    ensures q.Some? && Truthy(subject) ==> q.value.subjectId == subject.value
    ensures q.None? ==> row.questionId !in catalog || (Truthy(subject) && catalog[row.questionId].subjectId != subject.value)
  {
    if row.questionId !in catalog then None
    else if Truthy(subject) && catalog[row.questionId].subjectId != subject.value then None
    else Some(catalog[row.questionId])
  }

  function CreatedAt(a: IncorrectAnswer): int {
    a.createdAt
  }

  /** The answer rows the query selects: the user's incorrect answers whose
      error type passes the filter. */
  function Picked(rows: seq<AnswerRow>, user: UserId, errorType: Option<string>): (r: seq<AnswerRow>)
    ensures |r| <= |AnswersOf(rows, user)|
    ensures forall row :: row in r <==>
      row in rows && row.userId == user && !row.isCorrect && Admits(ErrorTypeFilterOf(errorType), row.errorType)
  {
    var f := ErrorTypeFilterOf(errorType);
    Filter(AnswersOf(rows, user), (row: AnswerRow) => !row.isCorrect && Admits(f, row.errorType))
  }

  /** A selected row as the query returns it, with its embedded question. */
  function ToIncorrect(row: AnswerRow, catalog: map<QuestionId, QuestionData>, subject: Option<string>): IncorrectAnswer {
    IncorrectAnswer(row.id, row.selectedOptionId, row.errorType, row.createdAt, Embed(row, catalog, subject))
  }

  /** The review query: the selected rows with their questions, newest first. */
  function ReviewQuery(rows: seq<AnswerRow>, catalog: map<QuestionId, QuestionData>, user: UserId,
                       subject: Option<string>, errorType: Option<string>): (r: seq<IncorrectAnswer>)
    ensures NonIncreasing(r, CreatedAt)
    ensures |r| <= |AnswersOf(rows, user)|
  {
    SortDesc(Map(Picked(rows, user, errorType), (row: AnswerRow) => ToIncorrect(row, catalog, subject)), CreatedAt)
  }

  /** The query returns exactly the selected rows, each with its embedded question. */
  lemma ReviewQueryMembers(rows: seq<AnswerRow>, catalog: map<QuestionId, QuestionData>, user: UserId,
                           subject: Option<string>, errorType: Option<string>, a: IncorrectAnswer)
    ensures a in ReviewQuery(rows, catalog, user, subject, errorType) <==>
      exists row :: row in Picked(rows, user, errorType) && a == ToIncorrect(row, catalog, subject)
  {
    var raw := Map(Picked(rows, user, errorType), (row: AnswerRow) => ToIncorrect(row, catalog, subject));
    SortDescSameElements(raw, CreatedAt, a);
    MapMembers(Picked(rows, user, errorType), (row: AnswerRow) => ToIncorrect(row, catalog, subject), a);
  }

  // ---------------------------------------------------------------------------
  // The fold (review/page.tsx:127-158) and its specification
  // ---------------------------------------------------------------------------

  predicate HasQuestion(a: IncorrectAnswer) {
    a.question.Some?
  }

  function QuestionKey(a: IncorrectAnswer): QuestionId {
    if a.question.Some? then a.question.value.id else ""
  }

  /** The answers the fold does not skip. */
  function Questioned(s: seq<IncorrectAnswer>): seq<IncorrectAnswer> {
    Filter(s, HasQuestion)
  }

  /** The question ids of the answers, in order of first occurrence. */
  function DistinctIds(s: seq<IncorrectAnswer>): seq<QuestionId> {
    Keys(Questioned(s), QuestionKey)
  }

  /** The answers to question `q`, in list order. */
  function AnswersFor(s: seq<IncorrectAnswer>, q: QuestionId): seq<IncorrectAnswer> {
    Select(Questioned(s), QuestionKey, q)
  }

  function TypeSet(t: Option<ErrorType>): set<ErrorType> {
    if t.Some? then {t.value} else {}
  }

  /** The non-null error types among `xs`. */
  function TypesOf(xs: seq<IncorrectAnswer>): (r: set<ErrorType>)
    ensures forall t :: t in r <==> exists a :: a in xs && a.errorType == Some(t)
  {
    if xs == [] then {}
    else
      assert xs == xs[..|xs| - 1] + [xs[|xs| - 1]];
      TypesOf(xs[..|xs| - 1]) + TypeSet(xs[|xs| - 1].errorType)
  }

  /** The entry created when a question is first seen: its snapshot comes from
      the answer `a`, its counters are empty. */
  function Seed(a: IncorrectAnswer, question: QuestionData): ReviewQuestion {
    ReviewQuestion(
      question.id, question.statement, question.explanation,
      OrDefault(question.subjectName, "N/A"), OrDefault(question.topicName, "N/A"),
      question.options, 0, {}, a.createdAt, a.selectedOptionId,
      question.banca, question.ano, question.orgao, question.cargo)
  }

  /** What every answer does to its entry: one more error, and its type if set. */
  function Bump(e: ReviewQuestion, a: IncorrectAnswer): ReviewQuestion {
    e.(errorCount := e.errorCount + 1, errorTypes := e.errorTypes + TypeSet(a.errorType))
  }

  /** The entry built from the answers to one question, in list order: the
      snapshot of the first, the number of them and the set of their error types. */
  function EntryOf(mine: seq<IncorrectAnswer>): ReviewQuestion
    requires mine != [] && mine[0].question.Some?
  {
    Seed(mine[0], mine[0].question.value).(errorCount := |mine|, errorTypes := TypesOf(mine))
  }

  /** A question id of the list has at least one answer, the first of which has a question. */
  lemma AnswersForNonEmpty(s: seq<IncorrectAnswer>, q: QuestionId)
    requires q in DistinctIds(s)
    ensures AnswersFor(s, q) != [] && AnswersFor(s, q)[0].question.Some?
    ensures QuestionKey(AnswersFor(s, q)[0]) == q
  {
    var mine := AnswersFor(s, q);
    var x :| x in Questioned(s) && QuestionKey(x) == q;
    assert x in mine;
    assert mine[0] in mine;
  }

  /** The entry of question `q` in the list `s`. */
  function EntryFor(s: seq<IncorrectAnswer>, q: QuestionId): ReviewQuestion
    requires q in DistinctIds(s)
  {
    AnswersForNonEmpty(s, q);
    EntryOf(AnswersFor(s, q))
  }

  function EntriesFor(s: seq<IncorrectAnswer>, ks: seq<QuestionId>): (r: seq<ReviewQuestion>)
    requires forall k :: k in ks ==> k in DistinctIds(s)
    ensures |r| == |ks|
  {
    if ks == [] then []
    else EntriesFor(s, ks[..|ks| - 1]) + [EntryFor(s, ks[|ks| - 1])]
  }

  lemma {:induction false} EntriesForAt(s: seq<IncorrectAnswer>, ks: seq<QuestionId>, i: nat)
    requires forall k :: k in ks ==> k in DistinctIds(s)
    requires i < |ks|
    ensures EntriesFor(s, ks)[i] == EntryFor(s, ks[i])
  {
    if i < |ks| - 1 {
      EntriesForAt(s, ks[..|ks| - 1], i);
    }
  }

  /** The review entries of a list of incorrect answers, in order of first appearance. */
  function ReviewSpec(s: seq<IncorrectAnswer>): (r: seq<ReviewQuestion>)
    ensures |r| == |DistinctIds(s)|
  {
    EntriesFor(s, DistinctIds(s))
  }

  lemma QuestionedSnoc(p: seq<IncorrectAnswer>, a: IncorrectAnswer)
    ensures Questioned(p + [a]) == Questioned(p) + (if HasQuestion(a) then [a] else [])
  {
    SelectSnoc(p, a, HasQuestion, true);
  }

  /** Folding in an answer to another question (or one without a question)
      leaves the entry of `q` alone. */
  lemma EntryStepOther(p: seq<IncorrectAnswer>, a: IncorrectAnswer, q: QuestionId)
    requires q in DistinctIds(p + [a])
    requires a.question.None? || QuestionKey(a) != q
    ensures q in DistinctIds(p) && EntryFor(p + [a], q) == EntryFor(p, q)
  {
    QuestionedSnoc(p, a);
    if a.question.Some? {
      KeysSnoc(Questioned(p), a, QuestionKey);
      SelectSnoc(Questioned(p), a, QuestionKey, q);
    }
  }

  /** One more answer to a question already seen is counted, and its type added. */
  lemma EntryOfSnoc(mine: seq<IncorrectAnswer>, a: IncorrectAnswer)
    requires mine != [] && mine[0].question.Some?
    ensures EntryOf(mine + [a]) == Bump(EntryOf(mine), a)
  {
    assert (mine + [a])[..|mine|] == mine;
    assert (mine + [a])[0] == mine[0];
  }

  /** The first answer to a question seeds its entry and is counted in it. */
  lemma EntryOfSingle(a: IncorrectAnswer)
    requires a.question.Some?
    ensures EntryOf([a]) == Bump(Seed(a, a.question.value), a)
  {
    assert [a][..0] == [];
  }

  /** Folding in an answer to `q` counts it in the entry of `q`, which it
      creates when `q` is new. */
  lemma EntryStepSame(p: seq<IncorrectAnswer>, a: IncorrectAnswer)
    requires a.question.Some?
    ensures QuestionKey(a) in DistinctIds(p + [a])
    ensures EntryFor(p + [a], QuestionKey(a)) ==
      if QuestionKey(a) in DistinctIds(p) then Bump(EntryFor(p, QuestionKey(a)), a)
      else Bump(Seed(a, a.question.value), a)
  {
    var q := QuestionKey(a);
    QuestionedSnoc(p, a);
    KeysSnoc(Questioned(p), a, QuestionKey);
    SelectSnoc(Questioned(p), a, QuestionKey, q);
    var mine := AnswersFor(p, q);
    assert AnswersFor(p + [a], q) == mine + [a];
    if q in DistinctIds(p) {
      AnswersForNonEmpty(p, q);
      EntryOfSnoc(mine, a);
    } else {
      SelectEmpty(Questioned(p), QuestionKey, q);
      EntryOfSingle(a);
    }
  }

  /** What the loop of the review page knows after folding in the answers `p`. */
  ghost predicate Folded(p: seq<IncorrectAnswer>, m: map<QuestionId, ReviewQuestion>, order: seq<QuestionId>) {
    && order == DistinctIds(p)
    && (forall q :: q in m <==> q in order)
    && (forall q :: q in m ==> m[q] == EntryFor(p, q))
  }

  /** An answer without a question leaves the fold unchanged. */
  lemma FoldSkip(p: seq<IncorrectAnswer>, a: IncorrectAnswer,
                 m: map<QuestionId, ReviewQuestion>, order: seq<QuestionId>)
    requires Folded(p, m, order) && a.question.None?
    ensures Folded(p + [a], m, order)
  {
    QuestionedSnoc(p, a);
    assert Questioned(p + [a]) == Questioned(p);
    forall q | q in m ensures m[q] == EntryFor(p + [a], q) {
      EntryStepOther(p, a, q);
    }
  }

  /** An answer to a question adds that question's id to the insertion order
      when it is new. */
  lemma FoldKeys(p: seq<IncorrectAnswer>, a: IncorrectAnswer,
                 m0: map<QuestionId, ReviewQuestion>, order0: seq<QuestionId>, order: seq<QuestionId>)
    requires order0 == DistinctIds(p) && (forall q :: q in m0 <==> q in order0) && a.question.Some?
    requires order == if QuestionKey(a) in m0 then order0 else order0 + [QuestionKey(a)]
    ensures order == DistinctIds(p + [a])
    ensures forall k :: k in order <==> k in m0 || k == QuestionKey(a)
  {
    QuestionedSnoc(p, a);
    assert Questioned(p + [a]) == Questioned(p) + [a];
    KeysSnoc(Questioned(p), a, QuestionKey);
  }

  /** An answer to question `q` is counted in the entry of `q`, seeded first
      when `q` is new; the other entries stay as they are. */
  lemma FoldValues(p: seq<IncorrectAnswer>, a: IncorrectAnswer,
                   m0: map<QuestionId, ReviewQuestion>, order0: seq<QuestionId>, m: map<QuestionId, ReviewQuestion>)
    requires Folded(p, m0, order0) && a.question.Some?
    requires m == m0[QuestionKey(a) := Bump(if QuestionKey(a) in m0 then m0[QuestionKey(a)] else Seed(a, a.question.value), a)]
    ensures forall k :: k in m ==> k in DistinctIds(p + [a]) && m[k] == EntryFor(p + [a], k)
  {
    var q := QuestionKey(a);
    var entry := Bump(if q in m0 then m0[q] else Seed(a, a.question.value), a);
    FoldValueSame(p, a, m0, order0, entry);
    forall k | k in m ensures k in DistinctIds(p + [a]) && m[k] == EntryFor(p + [a], k) {
      if k != q {
        FoldValueOther(p, a, m0, order0, k);
      }
    }
  }

  /** The entry of the answer's own question is counted right. */
  lemma FoldValueSame(p: seq<IncorrectAnswer>, a: IncorrectAnswer,
                      m0: map<QuestionId, ReviewQuestion>, order0: seq<QuestionId>, entry: ReviewQuestion)
    requires Folded(p, m0, order0) && a.question.Some?
    requires entry == Bump(if QuestionKey(a) in m0 then m0[QuestionKey(a)] else Seed(a, a.question.value), a)
    ensures QuestionKey(a) in DistinctIds(p + [a]) && entry == EntryFor(p + [a], QuestionKey(a))
  {
    EntryStepSame(p, a);
  }

  /** The entry of another question already in the map stays right. */
  lemma FoldValueOther(p: seq<IncorrectAnswer>, a: IncorrectAnswer,
                       m0: map<QuestionId, ReviewQuestion>, order0: seq<QuestionId>, k: QuestionId)
    requires Folded(p, m0, order0) && a.question.Some?
    requires k in m0 && k != QuestionKey(a)
    ensures k in DistinctIds(p + [a]) && m0[k] == EntryFor(p + [a], k)
  {
    FoldKeysOther(p, a, k);
    EntryStepOther(p, a, k);
  }

  /** One answer with a question, folded in. */
  lemma FoldCount(p: seq<IncorrectAnswer>, a: IncorrectAnswer,
                  m0: map<QuestionId, ReviewQuestion>, order0: seq<QuestionId>,
                  m: map<QuestionId, ReviewQuestion>, order: seq<QuestionId>)
    requires Folded(p, m0, order0) && a.question.Some?
    requires order == if QuestionKey(a) in m0 then order0 else order0 + [QuestionKey(a)]
    requires m == m0[QuestionKey(a) := Bump(if QuestionKey(a) in m0 then m0[QuestionKey(a)] else Seed(a, a.question.value), a)]
    ensures Folded(p + [a], m, order)
  {
    FoldKeys(p, a, m0, order0, order);
    FoldValues(p, a, m0, order0, m);
  }

  /** A question id seen before stays seen. */
  lemma FoldKeysOther(p: seq<IncorrectAnswer>, a: IncorrectAnswer, k: QuestionId)
    requires k in DistinctIds(p)
    ensures k in DistinctIds(p + [a])
  {
    QuestionedSnoc(p, a);
    var x :| x in Questioned(p) && QuestionKey(x) == k;
    assert x in Questioned(p + [a]);
  }

  /** The body of the loop of the review page, for one answer `a`: on the first
      answer to a question it creates the question's entry from that answer,
      and every answer to the question counts one more error and adds its type. */
  method Absorb(m: map<QuestionId, ReviewQuestion>, order: seq<QuestionId>, a: IncorrectAnswer, ghost p: seq<IncorrectAnswer>)
    returns (m': map<QuestionId, ReviewQuestion>, order': seq<QuestionId>)
    requires Folded(p, m, order)
    ensures Folded(p + [a], m', order')
  {
    if a.question.Some? {
      var question := a.question.value;
      var questionId := question.id;
      var existing := if questionId in m then m[questionId] else Seed(a, question);
      order' := if questionId in m then order else order + [questionId];
      m' := m[questionId := Bump(existing, a)];
      FoldCount(p, a, m, order, m', order');
    } else {
      m', order' := m, order;
      FoldSkip(p, a, m, order);
    }
  }

  /** The loop of the review page: walks the newest-first answers once, creating
      an entry in the map on the first answer of each question and counting every
      answer in its entry. `order` is the map's insertion order. */
  method FoldAnswers(answers: seq<IncorrectAnswer>) returns (m: map<QuestionId, ReviewQuestion>, order: seq<QuestionId>)
    ensures order == DistinctIds(answers)
    ensures forall q :: q in m <==> q in order
    ensures forall q :: q in m ==> m[q] == EntryFor(answers, q)
  {
    m, order := map[], [];
    FoldStart(answers);
    var i := 0;
    while i < |answers|
      invariant 0 <= i <= |answers|
      invariant Folded(answers[..i], m, order)
    {
      m, order := Absorb(m, order, answers[i], answers[..i]);
      FoldNext(answers, i, m, order);
      i := i + 1;
    }
    FoldDone(answers, m, order);
  }

  lemma FoldStart(answers: seq<IncorrectAnswer>)
    ensures Folded(answers[..0], map[], [])
  {
    assert answers[..0] == [];
  }

  lemma FoldNext(answers: seq<IncorrectAnswer>, i: nat, m: map<QuestionId, ReviewQuestion>, order: seq<QuestionId>)
    requires i < |answers| && Folded(answers[..i] + [answers[i]], m, order)
    ensures Folded(answers[..i + 1], m, order)
  {
    assert answers[..i + 1] == answers[..i] + [answers[i]];
  }

  lemma FoldDone(answers: seq<IncorrectAnswer>, m: map<QuestionId, ReviewQuestion>, order: seq<QuestionId>)
    requires Folded(answers[..|answers|], m, order)
    ensures order == DistinctIds(answers)
    ensures forall q :: q in m <==> q in order
    ensures forall q :: q in m ==> m[q] == EntryFor(answers, q)
  {
    assert answers[..|answers|] == answers;
  }

  /** The review entries: the values of the map in insertion order. */
  method BuildReview(answers: seq<IncorrectAnswer>) returns (entries: seq<ReviewQuestion>)
    ensures entries == ReviewSpec(answers)
    ensures |entries| <= |answers|
  {
    var m, order := FoldAnswers(answers);
    entries := [];
    var j := 0;
    while j < |order|
      invariant 0 <= j <= |order|
      invariant entries == EntriesFor(answers, order[..j])
    {
      EntriesForSnoc(answers, order, j);
      entries := entries + [m[order[j]]];
      j := j + 1;
    }
    assert order[..j] == order;
  }

  /** Extending the list of keys by one extends the entries by that key's entry. */
  lemma EntriesForSnoc(s: seq<IncorrectAnswer>, ks: seq<QuestionId>, j: nat)
    requires forall k :: k in ks ==> k in DistinctIds(s)
    requires j < |ks|
    ensures forall k :: k in ks[..j + 1] ==> k in DistinctIds(s)
    ensures EntriesFor(s, ks[..j + 1]) == EntriesFor(s, ks[..j]) + [EntryFor(s, ks[j])]
  {
    assert ks[..j + 1][..j] == ks[..j];
  }

  // ---------------------------------------------------------------------------
  // Properties of the fold
  // ---------------------------------------------------------------------------

  /** The i-th entry is built from the answers to the i-th distinct question id. */
  lemma EntryAt(s: seq<IncorrectAnswer>, i: nat)
    requires i < |ReviewSpec(s)|
    ensures var q := DistinctIds(s)[i];
      && AnswersFor(s, q) != [] && AnswersFor(s, q)[0].question.Some?
      && ReviewSpec(s)[i] == EntryOf(AnswersFor(s, q))
      && ReviewSpec(s)[i].questionId == q
  {
    var q := DistinctIds(s)[i];
    EntriesForAt(s, DistinctIds(s), i);
    AnswersForNonEmpty(s, q);
  }

  /** The entries are listed in the order of the distinct question ids. */
  lemma EntryIds(s: seq<IncorrectAnswer>)
    ensures |ReviewSpec(s)| == |DistinctIds(s)|
    ensures forall i :: 0 <= i < |ReviewSpec(s)| ==> ReviewSpec(s)[i].questionId == DistinctIds(s)[i]
  {
    forall i | 0 <= i < |ReviewSpec(s)| ensures ReviewSpec(s)[i].questionId == DistinctIds(s)[i] {
      EntryAt(s, i);
    }
  }

  /** No two entries are about the same question. */
  lemma EntriesDistinct(s: seq<IncorrectAnswer>)
    ensures var e := ReviewSpec(s);
      forall i, j :: 0 <= i < j < |e| ==> e[i].questionId != e[j].questionId
  {
    EntryIds(s);
  }

  /** Every entry is about a question some answer of the list was to. */
  lemma EntriesAnswered(s: seq<IncorrectAnswer>)
    ensures var e := ReviewSpec(s);
      forall i :: 0 <= i < |e| ==>
        exists a :: a in s && a.question.Some? && a.question.value.id == e[i].questionId
  {
    var e := ReviewSpec(s);
    forall i | 0 <= i < |e|
      ensures exists a :: a in s && a.question.Some? && a.question.value.id == e[i].questionId
    {
      EntryAt(s, i);
      var a := AnswersFor(s, e[i].questionId)[0];
      assert a in AnswersFor(s, e[i].questionId);
      assert a in s && a.question.Some? && a.question.value.id == e[i].questionId;
    }
  }

  /** Every answer whose question is not null has an entry. */
  lemma AnswersHaveEntries(s: seq<IncorrectAnswer>)
    ensures var e := ReviewSpec(s);
      forall a :: a in s && a.question.Some? ==>
        exists i :: 0 <= i < |e| && e[i].questionId == a.question.value.id
  {
    var e, ks := ReviewSpec(s), DistinctIds(s);
    EntryIds(s);
    forall a | a in s && a.question.Some?
      ensures exists i :: 0 <= i < |e| && e[i].questionId == a.question.value.id
    {
      assert a in Questioned(s) && QuestionKey(a) == a.question.value.id;
      assert a.question.value.id in ks;
      var i :| 0 <= i < |ks| && ks[i] == a.question.value.id;
      assert e[i].questionId == a.question.value.id;
    }
  }

  /** An entry counts every answer to its question, and its set of error types
      is exactly the non-null types among those answers. */
  lemma EntryCounts(s: seq<IncorrectAnswer>, i: nat)
    requires i < |ReviewSpec(s)|
    ensures var e := ReviewSpec(s)[i];
      && e.errorCount == |AnswersFor(s, e.questionId)| >= 1
      && (forall a :: a in AnswersFor(s, e.questionId) <==>
            a in s && a.question.Some? && a.question.value.id == e.questionId)
      && (forall t :: t in e.errorTypes <==>
            exists a :: a in s && a.question.Some? && a.question.value.id == e.questionId && a.errorType == Some(t))
  {
    EntryAt(s, i);
  }

  function TotalErrorCount(entries: seq<ReviewQuestion>): nat {
    if entries == [] then 0
    else TotalErrorCount(entries[..|entries| - 1]) + entries[|entries| - 1].errorCount
  }

  lemma {:induction false} TotalOfEntriesFor(s: seq<IncorrectAnswer>, ks: seq<QuestionId>)
    requires forall k :: k in ks ==> k in DistinctIds(s)
    ensures forall k :: k in ks ==> k in GroupBy(Questioned(s), QuestionKey)
    ensures TotalErrorCount(EntriesFor(s, ks)) == GroupSizes(GroupBy(Questioned(s), QuestionKey), ks)
  {
    if ks != [] {
      var init := ks[..|ks| - 1];
      TotalOfEntriesFor(s, init);
      assert EntriesFor(s, ks)[..|init|] == EntriesFor(s, init);
    }
  }

  /** The error counts of all entries add up to the number of answers with a
      question, so never exceed the number of fetched answers (`totalAllErrors`). */
  lemma ErrorCountsAddUp(s: seq<IncorrectAnswer>)
    ensures TotalErrorCount(ReviewSpec(s)) == |Questioned(s)| <= |s|
  {
    TotalOfEntriesFor(s, DistinctIds(s));
    GroupSizesCoverAll(Questioned(s), QuestionKey);
  }

  predicate NewestFirst(s: seq<IncorrectAnswer>) {
    NonIncreasing(s, CreatedAt)
  }

  /** Because the list is newest-first, the snapshot of an entry, taken from the
      first answer seen and never overwritten, is its most recent answer. */
  lemma SnapshotIsMostRecent(s: seq<IncorrectAnswer>, i: nat, a: IncorrectAnswer)
    requires NewestFirst(s)
    requires i < |ReviewSpec(s)|
    requires a in s && a.question.Some? && a.question.value.id == ReviewSpec(s)[i].questionId
    ensures a.createdAt <= ReviewSpec(s)[i].lastAnsweredAt
    ensures (exists b :: b in s && b.question.Some? && b.question.value.id == ReviewSpec(s)[i].questionId
               && b.createdAt == ReviewSpec(s)[i].lastAnsweredAt
               && b.selectedOptionId == ReviewSpec(s)[i].lastSelectedOptionId)
  {
    EntryAt(s, i);
    var q := DistinctIds(s)[i];
    var mine := AnswersFor(s, q);
    SelectKeepsOrder(s, HasQuestion, true, CreatedAt);
    SelectKeepsOrder(Questioned(s), QuestionKey, q, CreatedAt);
    assert mine[0] in mine;
    assert a in mine;
    var k :| 0 <= k < |mine| && mine[k] == a;
    assert k == 0 || CreatedAt(mine[0]) >= CreatedAt(mine[k]);
  }

  /** A small run of the fold: two wrong answers to Q1 (the newer one
      unclassified, the older one "knowledge") make one entry with two errors,
      the type set {Knowledge}, and the newer answer's snapshot. */
  lemma ReviewExample(q1: QuestionData)
    ensures var s := [IncorrectAnswer(3, "opt-b", None, 3, Some(q1)),
                      IncorrectAnswer(1, "opt-c", Some(Knowledge), 1, Some(q1))];
      var e := ReviewSpec(s);
      |e| == 1 && e[0].questionId == q1.id && e[0].errorCount == 2 &&
      e[0].errorTypes == {Knowledge} && e[0].lastSelectedOptionId == "opt-b" && e[0].lastAnsweredAt == 3
  {
    var a3 := IncorrectAnswer(3, "opt-b", None, 3, Some(q1));
    var a1 := IncorrectAnswer(1, "opt-c", Some(Knowledge), 1, Some(q1));
    var s := [a3, a1];
    assert s[..1] == [a3] && [a3][..0] == [];
    SelectSnoc([], a3, HasQuestion, true);
    SelectSnoc([a3], a1, HasQuestion, true);
    assert Questioned(s) == [a3, a1];
    KeysSnoc([], a3, QuestionKey);
    KeysSnoc([a3], a1, QuestionKey);
    assert DistinctIds(s) == [q1.id];
    SelectSnoc([], a3, QuestionKey, q1.id);
    SelectSnoc([a3], a1, QuestionKey, q1.id);
    assert AnswersFor(s, q1.id) == [a3, a1];
    assert [a3, a1][..1] == [a3];
    assert TypesOf([a3, a1]) == {Knowledge};
    EntriesForAt(s, [q1.id], 0);
  }

  // ---------------------------------------------------------------------------
  // KPI counters, grouping and percentages (review/page.tsx:160-203)
  // ---------------------------------------------------------------------------

  /** The number of entries whose type set contains `t`. */
  function CountWithType(entries: seq<ReviewQuestion>, t: ErrorType): (n: nat)
    ensures n <= |entries|
    ensures n == |Filter(entries, (e: ReviewQuestion) => t in e.errorTypes)|
  {
    if entries == [] then 0
    else
      var init := entries[..|entries| - 1];
      SelectSnoc(init, entries[|entries| - 1], (e: ReviewQuestion) => t in e.errorTypes, true);
      assert entries == init + [entries[|entries| - 1]];
      CountWithType(init, t) + (if t in entries[|entries| - 1].errorTypes then 1 else 0)
  }

  /** An entry that has accumulated both types counts toward both counters. */
  lemma BothTypesCountTwice(e: ReviewQuestion)
    requires e.errorTypes == {Attention, Knowledge}
    ensures CountWithType([e], Knowledge) == 1 && CountWithType([e], Attention) == 1
  {
    assert [e][..0] == [];
  }

  /** `question.subject_name || "Sem Matéria"`. */
  function SubjectGroupKey(e: ReviewQuestion): (k: string)
    ensures k != ""
    ensures e.subjectName != "" ==> k == e.subjectName
    ensures e.subjectName == "" ==> k == "Sem Matéria"
  {
    if e.subjectName != "" then e.subjectName else "Sem Matéria"
  }

  /** `totalBarPct`: the share of reviewed questions among all the user's answers;
      0 when the count is unknown (null) or zero. */
  function TotalBarPct(totalToReview: nat, totalAnswersCount: Option<int>): (r: int)
    ensures totalAnswersCount.None? || totalAnswersCount.value <= 0 ==> r == 0
    ensures totalAnswersCount.Some? && totalToReview <= totalAnswersCount.value ==> 0 <= r <= 100
    ensures totalAnswersCount.Some? && totalAnswersCount.value > 0 ==>
      200 * totalToReview - totalAnswersCount.value < 2 * totalAnswersCount.value * r <= 200 * totalToReview + totalAnswersCount.value
  {
    if totalAnswersCount.Some? && totalAnswersCount.value > 0 then
      if totalToReview <= totalAnswersCount.value then
        RoundPercentInRange(totalToReview, totalAnswersCount.value);
        RoundPercent(totalToReview, totalAnswersCount.value)
      else RoundPercent(totalToReview, totalAnswersCount.value)
    else 0
  }

  /** `knowledgePct` and `attentionPct`: entries of one type over the number of
      fetched incorrect answers; 0 when there is nothing to review. */
  function TypeSharePct(typed: nat, totalToReview: nat, totalAllErrors: nat): (r: int)
    requires totalToReview <= totalAllErrors
    ensures totalToReview == 0 ==> r == 0
    ensures typed <= totalAllErrors ==> 0 <= r <= 100
    ensures totalToReview > 0 ==>
      200 * typed - totalAllErrors < 2 * totalAllErrors * r <= 200 * typed + totalAllErrors
  {
    if totalToReview > 0 then
      if typed <= totalAllErrors then RoundPercentInRange(typed, totalAllErrors); RoundPercent(typed, totalAllErrors)
      else RoundPercent(typed, totalAllErrors)
    else 0
  }

  /** `getErrorBarColor`. */
  function ErrorBarColor(percentage: int): (c: Tier)
    ensures c == Green <==> percentage < 20
    ensures c == Yellow <==> 20 <= percentage < 40
    ensures c == Red <==> percentage >= 40
  {
    if percentage < 20 then Green
    else if percentage < 40 then Yellow
    else Red
  }

  /** A higher error rate never gets a milder colour. */
  lemma ErrorBarColorMonotonic(p: int, q: int)
    requires p <= q
    ensures ErrorBarColor(p).Rank() <= ErrorBarColor(q).Rank()
  {
  }

  // ---------------------------------------------------------------------------
  // The whole page
  // ---------------------------------------------------------------------------

  datatype ReviewPage = ReviewPage(
    fetchFailed: bool,
    entries: seq<ReviewQuestion>,
    totalToReview: nat,
    knowledgeQuestions: nat,
    attentionQuestions: nat,
    groups: map<string, seq<ReviewQuestion>>,
    groupOrder: seq<string>,
    totalAllErrors: nat,
    totalAnswersCount: Option<int>,
    totalBarPct: int,
    knowledgePct: int,
    attentionPct: int,
    totalBarColor: Tier,
    knowledgeBarColor: Tier,
    attentionBarColor: Tier)

  /** The two KPI counters: the entries that carry each error type. */
  predicate CountersOf(page: ReviewPage) {
    && page.knowledgeQuestions == CountWithType(page.entries, Knowledge)
    && page.attentionQuestions == CountWithType(page.entries, Attention)
  }

  /** The three percentages and their bar colours, from the page's counts. */
  predicate BarsOf(page: ReviewPage) {
    && page.totalToReview <= page.totalAllErrors
    && page.totalBarPct == TotalBarPct(page.totalToReview, page.totalAnswersCount)
    && page.knowledgePct == TypeSharePct(page.knowledgeQuestions, page.totalToReview, page.totalAllErrors)
    && page.attentionPct == TypeSharePct(page.attentionQuestions, page.totalToReview, page.totalAllErrors)
    && page.totalBarColor == ErrorBarColor(page.totalBarPct)
    && page.knowledgeBarColor == ErrorBarColor(page.knowledgePct)
    && page.attentionBarColor == ErrorBarColor(page.attentionPct)
  }

  /** The review page of `user` over the store's answer rows. `fetchFails` and
      `countFails` are the outcomes of the two queries. */
  method LoadReviewPage(rows: seq<AnswerRow>, catalog: map<QuestionId, QuestionData>, user: UserId,
                        subject: Option<string>, errorType: Option<string>,
                        fetchFails: bool, countFails: bool) returns (page: ReviewPage)
    ensures var fetched := if fetchFails then [] else ReviewQuery(rows, catalog, user, subject, errorType);
      && page.fetchFailed == fetchFails
      && page.entries == ReviewSpec(fetched)
      && page.totalToReview == |page.entries| <= page.totalAllErrors == |fetched|
      && CountersOf(page)
      && page.knowledgeQuestions <= page.totalToReview
      && page.attentionQuestions <= page.totalToReview
      && page.groups == GroupBy(page.entries, SubjectGroupKey)
      && page.groupOrder == Keys(page.entries, SubjectGroupKey)
      && GroupSizes(page.groups, page.groupOrder) == page.totalToReview
      && page.totalAnswersCount == (if countFails then None else Some(|AnswersOf(rows, user)|))
      && 0 <= page.totalBarPct <= 100
      && 0 <= page.knowledgePct <= 100
      && 0 <= page.attentionPct <= 100
      && (page.totalToReview == 0 ==> page.knowledgePct == 0 && page.attentionPct == 0)
      && BarsOf(page)
  {
    var fetched := if fetchFails then [] else ReviewQuery(rows, catalog, user, subject, errorType);
    var entries := BuildReview(fetched);
    var totalToReview := |entries|;
    var knowledge := CountWithType(entries, Knowledge);
    var attention := CountWithType(entries, Attention);
    var groups := GroupBy(entries, SubjectGroupKey);
    var groupOrder := Keys(entries, SubjectGroupKey);
    GroupSizesCoverAll(entries, SubjectGroupKey);
    var totalAllErrors := |fetched|;
    assert totalToReview <= totalAllErrors <= |AnswersOf(rows, user)|;
    assert knowledge <= totalAllErrors && attention <= totalAllErrors;
    var totalAnswersCount := if countFails then None else Some(|AnswersOf(rows, user)|);
    var totalBarPct := TotalBarPct(totalToReview, totalAnswersCount);
    var knowledgePct := TypeSharePct(knowledge, totalToReview, totalAllErrors);
    var attentionPct := TypeSharePct(attention, totalToReview, totalAllErrors);
    page := ReviewPage(fetchFails, entries, totalToReview, knowledge, attention, groups, groupOrder,
                       totalAllErrors, totalAnswersCount, totalBarPct, knowledgePct, attentionPct,
                       ErrorBarColor(totalBarPct), ErrorBarColor(knowledgePct), ErrorBarColor(attentionPct));
  }
}
