# fs-oslo practice and review engine, in Dafny

fs-oslo is a study platform. Users answer multiple-choice questions grouped by
subject, and the app tracks their accuracy and lets them review the questions
they missed. This project models the logic under the platform's pages and
proves properties of it:

- **Review aggregator** (`review.dfy`). The review page fetches the user's
  incorrect answers newest first. Two filters shape the fetch:
  - the error-type filter drops rows;
  - the subject filter only nulls the embedded question and keeps the row.

  The page then folds the list into one entry per question. Each entry holds
  the number of errors, the set of error types and a snapshot of the most
  recent answer. The fold is a method with a loop, proved equal to a
  declarative specification (`ReviewSpec`). The specification is then shown
  to give one entry per question, exact counts and type sets, and the newest
  snapshot. The counters, the subject grouping, the rounded percentages and
  the three-colour bar tiers are also modelled.
- **Server actions** (`actions.dfy`). The record store is a class holding
  three tables and a source of fresh row ids. Every action is a method.
  Sign-in is an `Option<UserId>` input, and failure of the store request is a
  boolean input. Each method states the store's whole new state: what is
  inserted, which rows are updated or deleted, and that nothing else changes.
- **Quiz state machine** (`quiz.dfy`). The quiz component's state is a class.
  The handlers are methods that preserve an invariant tying the question
  index, the answered flag and the results log together. A ghost set of
  classified answers shows that each recorded answer is classified at most
  once.
- **Statistics views**:
  - the performance card (`performance.dfy`);
  - the recent-sessions card (`recent.dfy`), which takes the five most recent
    completed sessions, computes each one's accuracy and gives it a badge
    tier;
  - the results page (`results.dfy`), which reads the decimal query string
    the quiz writes. The decimal text itself is in `decimal.dfy`.
- **Notebook page** (`notebook.dfy`). Entries are shown newest first and
  grouped by subject name, with counts of highlights and notes.
- **How actions show up on the pages** (`lifecycle.dfy`):
  - a recorded wrong answer enters the review list;
  - a removed question leaves the review list;
  - a classified answer appears under its type;
  - opening a session leaves the performance card unchanged;
  - closing a session adds it and its questions to the card.

Shared pieces are `common.dfy` (JavaScript's `||` on strings, and
`Math.round(a / b * 100)` as exact integer rounding), `records.dfy` (the table
rows), `seqs.dfy` (filtering and an insertion sort for `ORDER BY … DESC`) and
`grouping.dfy` (the `reduce` that groups by a key, with its key order and
group sizes).

Rounding: for `b > 0`, `Math.round(a / b * 100)` is the integer `r` with
`200a - b < 2br <= 200a + b`. That is `(200a + b) / (2b)` in floor division.

Behaviour of the code that a reader might not expect, modelled as written:

- `updateQuizSession` does not check that the session is still open
  (src/app/actions.ts:36-51). Closing twice keeps the second close
  (`Actions.CloseSessionTwice`).
- `classifyError` does not check that the answer is incorrect or still
  unclassified (src/app/actions.ts:84-99). A second classification replaces
  the first (`Actions.ClassifyTwice`).
- Answers are not append-only: `removeQuestionFromReview` deletes them
  (src/app/actions.ts:159-185).
- `classifyError` and `updateQuizSession` do not check who is signed in
  (src/app/actions.ts:36-51, 84-99).

One behaviour is modelled as written: with a subject filter, `totalAllErrors`
still counts the user's incorrect answers to other subjects. Their embedded
question is only nulled, so the type percentages are shares of all fetched
answers.

## Model

| member | source | states |
|---|---|---|
| Common.OrDefault | src/app/review/page.tsx:141 | `s \|\| d` on a nullable string: the string when present and non-empty, otherwise the default |
| Common.RoundPercent | src/app/review/page.tsx:187-190 | `Math.round(a/b*100)` for a positive divisor: the result is within half a unit of 100a/b, and halves round up |
| Common.RoundPercentInRange | src/app/review/page.tsx:193-202 | when 0 ≤ a ≤ b the rounded percentage lies in [0, 100] |
| Records.AnswersOf | src/app/review/page.tsx:178-181 | the user's answer rows: exactly the rows with that user id, no more rows than the table |
| Records.SessionsOf | src/components/dashboard/PerformanceMetrics.tsx:12-15 | the user's session rows: exactly the rows with that user id |
| Seqs.SortDesc | src/app/review/page.tsx:111 | `ORDER BY … DESC`: the result is non-increasing in the key and a permutation of the input |
| Seqs.SortDescSameElements | src/app/notebook/page.tsx:89 | ordering keeps exactly the same elements |
| Seqs.SelectKeepsOrder | src/app/notebook/page.tsx:103-113 | picking out one group keeps the newest-first order of the list |
| Grouping.Keys | src/app/review/page.tsx:169-174 | the group keys of the `reduce`, in the order they first appear: distinct, each the key of some element, every element's key present |
| Grouping.GroupBy | src/app/review/page.tsx:169-174 | the grouping record: one group per key, holding exactly the elements with that key, in list order |
| Grouping.GroupMembership | src/app/notebook/page.tsx:103-113 | every element lies in the group of its own key and in no other group |
| Grouping.GroupSizesCoverAll | src/app/review/page.tsx:169-174 | the group sizes add up to the number of elements grouped |
| Review.ErrorTypeFilterOf | src/app/review/page.tsx:116-124 | an absent, empty or `all` parameter gives no filter, `unclassified` selects a null type, and any other value selects that type name |
| Review.Admits | src/app/review/page.tsx:116-124 | no filter admits every row; a type name other than the two stored values admits none; the unclassified filter admits no typed row |
| Review.ErrorTypeFilterSemantics | src/app/review/page.tsx:116-124 | which error types each parameter admits, stated directly on the parameter |
| Review.Picked | src/app/review/page.tsx:109-124 | a row is fetched iff it is the user's, incorrect, and its type passes the filter; never more rows than the user's answers |
| Review.Embed | src/app/review/page.tsx:94-114 | the embedded question is the catalogue question of the row; with a subject filter it is of that subject, and it is null only when the question is missing or of another subject |
| Review.ReviewQuery | src/app/review/page.tsx:86-126 | the fetched list is newest first and no longer than the user's answers |
| Review.ReviewQueryMembers | src/app/review/page.tsx:86-126 | an answer is fetched iff it comes from a picked row. Its question is embedded unless missing or of another subject than the filter |
| Review.TypesOf | src/app/review/page.tsx:156-157 | exactly the non-null error types of the answers |
| Review.AnswersForNonEmpty | src/app/review/page.tsx:131-136 | each listed question id has answers, the first of them carrying the question |
| Review.FoldSkip | src/app/review/page.tsx:131 | an answer without a question leaves the map and key order unchanged |
| Review.EntryStepSame | src/app/review/page.tsx:136-158 | the answer's question is seeded from that answer when first seen, and then gets one more error and the answer's type |
| Review.EntryStepOther | src/app/review/page.tsx:136-158 | an answer does not change the entry of any other question |
| Review.Absorb | src/app/review/page.tsx:131-158 | one loop step keeps the fold invariant: the map and its key order are the specified entries of the answers seen so far |
| Review.FoldAnswers | src/app/review/page.tsx:127-158 | after the loop the map's keys are exactly the distinct question ids in first-seen order, each mapped to its specified entry |
| Review.BuildReview | src/app/review/page.tsx:127-160 | `Array.from(map.values())` equals the specification's entry list and has no more entries than answers |
| Review.ReviewSpec | src/app/review/page.tsx:127-160 | the reference entry list: one entry per distinct question id of the answers |
| Review.EntryAt | src/app/review/page.tsx:136-158 | entry i is built from the answers to the i-th distinct question, in list order |
| Review.EntryIds | src/app/review/page.tsx:160-161 | there are as many entries as distinct questions, in first-seen order |
| Review.EntriesDistinct | src/app/review/page.tsx:136-152 | no two entries share a question id |
| Review.EntriesAnswered | src/app/review/page.tsx:131-136 | every entry comes from a fetched answer whose question is not null |
| Review.AnswersHaveEntries | src/app/review/page.tsx:131-136 | every fetched answer with a question has an entry |
| Review.EntryCounts | src/app/review/page.tsx:144-157 | an entry's error count is the number of answers to its question, at least 1; its type set holds exactly the non-null types among them |
| Review.ErrorCountsAddUp | src/app/review/page.tsx:154-176 | the error counts add up to the answers with a question, at most `totalAllErrors` |
| Review.SnapshotIsMostRecent | src/app/review/page.tsx:136-152 | on a newest-first list the entry's snapshot is its newest answer: no answer is later, and it is one of the question's answers |
| Review.ReviewExample | src/app/review/page.tsx:127-158 | two answers to one question, newer unclassified first, give one entry: 2 errors, {knowledge}, the newer answer's option and time |
| Review.CountWithType | src/app/review/page.tsx:162-167 | the number of entries whose type set holds the type, at most the number of entries |
| Review.BothTypesCountTwice | src/app/review/page.tsx:162-167 | an entry with both types counts toward both counters |
| Review.SubjectGroupKey | src/app/review/page.tsx:170 | the subject name when not empty, otherwise "Sem Matéria"; never empty |
| Review.TotalBarPct | src/app/review/page.tsx:187-190 | 0 when the count is null or not positive; otherwise the rounded percentage, within [0, 100] when the entries do not outnumber the answers |
| Review.TypeSharePct | src/app/review/page.tsx:193-202 | 0 when there is nothing to review; otherwise the rounded share over `totalAllErrors`, within [0, 100] |
| Review.ErrorBarColor | src/app/review/page.tsx:72-77 | green below 20, yellow below 40, red from 40, each iff |
| Review.ErrorBarColorMonotonic | src/app/review/page.tsx:72-77 | a higher percentage never gets a milder colour |
| Review.LoadReviewPage | src/app/review/page.tsx:86-203 | the page's entries are the specification of the fetched list; `totalAllErrors` is the number of fetched answers and `totalToReview` the number of entries. Each type counter is `CountWithType` of the entries, at most the number of entries. The groups' sizes add up to the total, the answer count is null iff its query fails, `totalBarPct`, `knowledgePct` and `attentionPct` are `TotalBarPct` and `TypeSharePct` of those counts, each in [0, 100], and each bar colour is `ErrorBarColor` of its percentage |
| Actions.CloseSession | src/app/actions.ts:36-51 | only rows with the id change, and those only in completion time, score and total |
| Actions.CloseSessionTwice | src/app/actions.ts:36-51 | closing again overwrites the first close |
| Actions.ClassifyRows | src/app/actions.ts:84-99 | only the error type changes, and only on the row with the id |
| Actions.ClassifyTwice | src/app/actions.ts:84-99 | a second classification replaces the first |
| Actions.ClassifyKeepsAnswerCount | src/app/actions.ts:84-99 | no user's number of answers changes |
| Actions.WithoutReviewAnswers | src/app/actions.ts:159-185 | a row is kept iff it is not a wrong answer of the user to the question |
| Actions.RemoveKeepsOtherUsers | src/app/actions.ts:159-185 | other users' answers are kept, all of them and in order |
| Actions.RemoveKeepsOtherAnswers | src/app/actions.ts:159-185 | the user's correct answers and answers to other questions are kept in order |
| Actions.WithoutEntry | src/app/actions.ts:187-211 | a row is kept iff its id or its owner differs |
| Actions.Store.CreateQuizSession | src/app/actions.ts:13-34 | NotAuthenticated or StoreFailure leave the store unchanged; otherwise one open session of the user is appended and its fresh id returned |
| Actions.Store.UpdateQuizSession | src/app/actions.ts:36-51 | the sessions become `CloseSession` of the old ones, other tables unchanged; a failure changes nothing and is not an error |
| Actions.Store.SaveAnswer | src/app/actions.ts:54-82 | NotAuthenticated without a user; `null` and no change on failure; otherwise one answer row appended and its id returned |
| Actions.Store.ClassifyError | src/app/actions.ts:84-99 | an error on failure with no change; otherwise the answers become `ClassifyRows` of the old ones, nothing else changes |
| Actions.Store.CreateNotebookHighlight | src/app/actions.ts:101-126 | the errors and no change, or one highlight row with its source question appended |
| Actions.Store.CreateNotebookNote | src/app/actions.ts:128-157 | without a user, or with a missing or empty field, it fails before any write; otherwise one note appended |
| Actions.Store.RemoveQuestionFromReview | src/app/actions.ts:159-185 | the answers become `WithoutReviewAnswers`, other tables unchanged |
| Actions.Store.DeleteNotebookEntry | src/app/actions.ts:187-211 | the notebook becomes `WithoutEntry` of the old one, other tables unchanged |
| QuizFlow.CorrectOptionId | src/components/shared/Quiz.tsx:40 | none iff no option is correct; otherwise the id of the first correct option |
| QuizFlow.CountCorrect | src/components/shared/Quiz.tsx:141 | the number of `true` results, at most the number of results |
| QuizFlow.Quiz.constructor | src/components/shared/Quiz.tsx:27-34 | the initial state: first question, no session, selection, answer or results |
| QuizFlow.Quiz.StartSession | src/components/shared/Quiz.tsx:42-53 | on success one open session of the user for the current question's subject is appended, the other tables are unchanged, and the quiz keeps its fresh id; on failure nothing changes |
| QuizFlow.Quiz.SelectOption | src/components/shared/Quiz.tsx:106-109 | the selection changes only while the question is unanswered |
| QuizFlow.Quiz.CheckAnswer | src/components/shared/Quiz.tsx:111-123 | no-op without a selection or a session. Otherwise the question is answered and one result is logged, correct iff the selection is the first correct option; the answer id is kept only when the store records it, and then exactly that answer row is appended and the sessions and notebook are unchanged |
| QuizFlow.Quiz.ClassifyError | src/components/shared/Quiz.tsx:125-130 | with an answer pending and no failure, classifies it (not classified before) and clears it, changing only that row's error type; otherwise nothing changes |
| QuizFlow.Quiz.NextQuestion | src/components/shared/Quiz.tsx:132-152 | before the last question, index + 1 and a clean slate. On the last, the answer state is kept, the session (if any) is closed with the count of correct results out of the number of questions while answers and notebook stay, and the results link is returned |
| Performance.Completed | src/components/dashboard/PerformanceMetrics.tsx:12-16 | exactly the user's sessions with a completion time |
| Performance.CompletedSnoc | src/components/dashboard/PerformanceMetrics.tsx:12-16 | a new row is completed for the user iff it is the user's and closed |
| Performance.SumTotals | src/components/dashboard/PerformanceMetrics.tsx:24 | the `reduce` over the totals, a null total adding 0; its laws are `SumTotalsAppend` and `SumTotalsNonNegative` |
| Performance.SumTotalsAppend | src/components/dashboard/PerformanceMetrics.tsx:24 | the sum of totals splits over concatenation |
| Performance.SumTotalsNonNegative | src/components/dashboard/PerformanceMetrics.tsx:24 | with no negative totals the sum is not negative |
| Performance.GetPerformanceStats | src/components/dashboard/PerformanceMetrics.tsx:6-29 | null iff no user; zeros on failure; otherwise the sum of totals and the number of completed sessions |
| Performance.EmptyStateIff | src/components/dashboard/PerformanceMetrics.tsx:63 | empty state iff no user, a failed query, or no completed session |
| RecentSessions.NormalizeSubject | src/components/dashboard/RecentSessions.tsx:45-48 | an array gives way to its first element (none when empty); an object or null stays |
| RecentSessions.SubjectLabel | src/components/dashboard/RecentSessions.tsx:97 | the subject name when present and not empty, otherwise "Sessão desconhecida"; never empty |
| RecentSessions.Take | src/components/dashboard/RecentSessions.tsx:39 | `.limit(n)`: the first min(n, length) elements |
| RecentSessions.RecentQuery | src/components/dashboard/RecentSessions.tsx:27-39 | at most five sessions and no more than the user's completed sessions |
| RecentSessions.RecentQueryIsTopFive | src/components/dashboard/RecentSessions.tsx:27-39 | at most five of the user's completed sessions, newest first, and no session left out is newer than one selected |
| RecentSessions.SessionAccuracy | src/components/dashboard/RecentSessions.tsx:88-90 | 0 for a null or non-positive total; otherwise the rounded percentage, within [0, 100] when the score is within the total |
| RecentSessions.AccuracyBadge | src/components/dashboard/RecentSessions.tsx:53-56 | green from 80, yellow from 60, red below, each iff |
| RecentSessions.AccuracyBadgeMonotonic | src/components/dashboard/RecentSessions.tsx:53-56 | a better accuracy never gets a more severe badge |
| RecentSessions.Item | src/components/dashboard/RecentSessions.tsx:87-110 | the card row keeps the session's id, score and total, shows its `SessionAccuracy` with that accuracy's badge, and its subject label falls back when the subject is unknown |
| RecentSessions.GetRecentSessions | src/components/dashboard/RecentSessions.tsx:22-51 | null iff no user or a failed query; otherwise at most five items, the i-th being `Item` of the i-th selected session: its id, score and total, its `SessionAccuracy` and that accuracy's badge |
| RecentSessions.RendersListIff | src/components/dashboard/RecentSessions.tsx:68-70 | the card renders iff the user is signed in, the query succeeds and a completed session exists |
| RecentSessions.ItemAccuracyInRange | src/components/dashboard/RecentSessions.tsx:88-90 | a score within its total gives an accuracy in [0, 100], and a full score gives green |
| Notebook.NotebookQuery | src/app/notebook/page.tsx:76-89 | exactly the user's entries, newest first |
| Notebook.SubjectKey | src/app/notebook/page.tsx:105 | the subject name when present and not empty, otherwise "Sem Matéria"; never empty |
| Notebook.NotebookPage | src/app/notebook/page.tsx:64-121 | unauthenticated iff no user. A failed subjects query empties only the subject list; a failed entries query shows the error over no entries. On success the entries are `NotebookQuery` of the user's rows; the groups, the total and the highlight and note counts come from the entries |
| Notebook.HighlightsPlusNotes | src/app/notebook/page.tsx:115-121 | highlights and notes add up to all entries |
| Notebook.PageCounts | src/app/notebook/page.tsx:103-121 | the counts add up to the total, and so do the group sizes |
| Notebook.GroupsNewestFirst | src/app/notebook/page.tsx:103-113 | each group keeps the newest-first order |
| Notebook.SubjectsErrorOnlyLogged | src/app/notebook/page.tsx:92-101 | a failed subjects query changes nothing but the subject list |
| Decimal.Show | src/components/shared/Quiz.tsx:148 | `${n}`: non-empty digits with no leading zero |
| Decimal.ShowValue | src/components/shared/Quiz.tsx:148 | the digits denote the number |
| Decimal.DigitPrefix | src/app/practice/results/page.tsx:28-29 | the longest digit prefix: all digits, followed by a non-digit or the end |
| Decimal.ParseInt | src/app/practice/results/page.tsx:28-29 | `parseInt(s, 10)`: a number only for non-empty text, never negative without a leading minus, never positive with one |
| Decimal.ParseShow | src/app/practice/results/page.tsx:28-29 | `parseInt` reads back what `${n}` writes |
| Decimal.ParseIntNoDigits | src/app/practice/results/page.tsx:28-29 | text with no digit where the number should start is NaN |
| Results.Accuracy | src/app/practice/results/page.tsx:31 | none (NaN or infinity) iff the total is 0; otherwise the rounded percentage, within [0, 100] when 0 ≤ correct ≤ total |
| Results.ResultsPage | src/app/practice/results/page.tsx:16-77 | redirect iff `total` or `correct` is missing or empty. Otherwise: the parsed counts, incorrect = total − correct when both parse, the accuracy `Accuracy(correct, total)` of the parsed counts (none when either is NaN or the total is 0), the retry link to the subject iff a subject id, the session line iff a session id |
| Results.LinkParams | src/components/shared/Quiz.tsx:148-151 | the query the quiz writes: `total` and `correct` are non-empty and `parseInt` reads back the counts, `subjectId` is the subject, and `sessionId` is present iff the quiz had a session |
| Results.QuizLinkResults | src/app/practice/results/page.tsx:24-31 | for the link a finished quiz writes, the page shows its counts, a non-negative incorrect count, an accuracy in [0, 100], and the retry and session lines as given |
| Lifecycle.WrongAnswerEntersReview | src/app/review/page.tsx:109-136 | a wrong answer to a catalogue question that passes the filters makes the question a review entry |
| Lifecycle.RemovedQuestionLeavesReview | src/app/actions.ts:159-185 | after removal the question is no review entry of the user, whatever the filters |
| Lifecycle.ClassifiedShowsUnderType | src/app/actions.ts:84-99 | a classified wrong answer's question is an entry of the review page filtered by that type |
| Lifecycle.OpeningKeepsStats | src/app/actions.ts:13-34 | inserting an open session leaves the performance card unchanged |
| Lifecycle.CloseCompletes | src/app/actions.ts:36-51 | closing a user's open sessions with an id adds each to the completed sessions, with the given total |
| Lifecycle.FinishingQuizCounts | src/components/shared/Quiz.tsx:140-151 | finishing a quiz on its one open session adds one session and the quiz's questions to the card |

## Left out

- Rendering, styling and markup of every page and card, and locale date formatting.
- Sign-in and sign-up, and how the signed-in user is found. The user is an input.
- Text selection, `Range` handling and popup placement in the quiz (`handleHighlight`). The action the selection calls, `createNotebookHighlight`, is modelled.
- `useTransition`, `useEffect`, router navigation, `revalidatePath` and `console.error`. Each store call is one atomic step whose failure is an input. `StartSession` models the mount effect.
- The store's query builder. Tables are sequences of rows, and queries are filters, an insertion sort for `ORDER BY … DESC` and `Take` for `.limit`. Ties are kept in table order, where the database promises no order.
- Review.LoadReviewPage: entries are values in a map, not objects the loop mutates in place. The page crash when nobody is signed in (`user!`) is not modelled: the page takes a user.
- Review.LoadReviewPage: the groups are keyed by `subject_name || "Sem Matéria"`. Object key order for keys that look like integers (JavaScript lists them first) is not modelled.
- Review.LoadReviewPage: the grouping `reduce` starts from a plain `{}` (src/app/review/page.tsx:169-174). A subject named after an inherited object member ("constructor", "toString", "valueOf", "hasOwnProperty", "__proto__" and the like) finds that member already truthy, so `push` throws and the page crashes. The model builds an ordinary group for such a name.
- Notebook.NotebookPage: the grouping `reduce` starts from a plain `{}` (src/app/notebook/page.tsx:103-113). A subject named after an inherited object member makes `push` throw and the page crash; the model builds an ordinary group for it.
- Notebook.NotebookPage: the groups are rendered with `Object.entries` (src/app/notebook/page.tsx:317). The model's `groupOrder` is first-appearance order; JavaScript lists integer-like keys first, and that order is not modelled.
- Review.LoadReviewPage: the `subject` and `errorType` query parameters are typed `string | string[]` (src/app/review/page.tsx:68-69). The model takes one optional string each; the array case is not modelled.
- QuizFlow.Quiz.CheckAnswer: when `saveAnswer` throws (no signed-in user), the promise inside `startTransition` rejects. The model treats it as a step that records no answer and leaves the store unchanged; the unhandled rejection itself is not modelled.
- QuizFlow.Quiz.ClassifyError: when `classifyError` throws (a store failure), the promise inside `startTransition` rejects before the pending answer is cleared. The model keeps the pending answer and leaves the store unchanged; the unhandled rejection itself is not modelled.
- Floating point: `Math.round` is exact integer rounding. NaN and infinity are `None`.
- Decimal.ParseInt: leading whitespace is not skipped. Only the optional sign and the digits that follow are read.
- `subjectId` is not URL-encoded in the results link.
- The notebook's `questions (statement)` embed and the fractional bar widths.
- The dashboard's `get_subject_stats` call: its body is not part of this model.
- Question creation, batch ingestion and subject/topic resolution are not part of this model.
- Lifecycle.FinishingQuizCounts: it assumes the session id occurs once in the table and the row is open. Ids are fresh from the store, but this is stated rather than derived from the store's history.
