/** The notebook page: the user's entries newest first, grouped by subject name,
    with the counts of highlights and notes. */
module Notebook {
  import opened Common
  import opened Records
  import opened Seqs
  import opened Grouping

  /** An entry as the page receives it, with the name of its subject (null when
      the subject row is missing). */
  datatype NotebookEntry = NotebookEntry(id: RowId, content: string, entryType: EntryType, createdAt: int, subjectName: Option<string>)

  datatype Subject = Subject(id: string, name: string)

  function EntryCreatedAt(e: NotebookEntry): int {
    e.createdAt
  }

  function EntryFromRow(row: NotebookRow, subjectNames: map<string, string>): NotebookEntry {
    NotebookEntry(row.id, row.content, row.entryType, row.createdAt,
                  if row.subjectId in subjectNames then Some(subjectNames[row.subjectId]) else None)
  }

  /** The entries query: the user's rows, newest first, with their subject names. */
  function NotebookQuery(rows: seq<NotebookRow>, user: UserId, subjectNames: map<string, string>): (r: seq<NotebookEntry>)
    ensures NonIncreasing(r, EntryCreatedAt)
    ensures |r| == |Filter(rows, (x: NotebookRow) => x.userId == user)|
    ensures forall e :: e in r <==> exists row :: row in rows && row.userId == user && e == EntryFromRow(row, subjectNames)
  {
    var mine := Filter(rows, (x: NotebookRow) => x.userId == user);
    var raw := Map(mine, (row: NotebookRow) => EntryFromRow(row, subjectNames));
    var r := SortDesc(raw, EntryCreatedAt);
    forall e ensures e in r <==> exists row :: row in rows && row.userId == user && e == EntryFromRow(row, subjectNames) {
      SortDescSameElements(raw, EntryCreatedAt, e);
      MapMembers(mine, (row: NotebookRow) => EntryFromRow(row, subjectNames), e);
    }
    r
  }

  /** `entry.subjects?.name || "Sem Matéria"`. */
  function SubjectKey(e: NotebookEntry): (k: string)
    ensures k != ""
    ensures e.subjectName.Some? && e.subjectName.value != "" ==> k == e.subjectName.value
    ensures e.subjectName.None? || e.subjectName.value == "" ==> k == "Sem Matéria"
  {
    OrDefault(e.subjectName, "Sem Matéria")
  }

  predicate IsHighlight(e: NotebookEntry) {
    e.entryType == Highlight
  }

  predicate IsNote(e: NotebookEntry) {
    e.entryType == UserNote
  }

  /** What the page shows. */
  datatype NotebookView =
    | Unauthenticated
    | Page(subjects: seq<Subject>, entriesFailed: bool, entries: seq<NotebookEntry>,
           groups: map<string, seq<NotebookEntry>>, groupOrder: seq<string>,
           totalEntries: nat, highlightsCount: nat, notesCount: nat)

  /** The notebook page of `user`. The two queries run side by side; a failed
      subjects query only empties the subject list, a failed entries query
      shows the error view over an empty list. */
  function NotebookPage(user: Option<UserId>, rows: seq<NotebookRow>, subjects: seq<Subject>,
                        subjectsFail: bool, entriesFail: bool): (v: NotebookView)
    ensures v.Unauthenticated? <==> user.None?
    ensures v.Page? ==>
      && v.subjects == (if subjectsFail then [] else subjects)
      && v.entriesFailed == entriesFail
      && v.entries == (if entriesFail then [] else NotebookQuery(rows, user.value, SubjectNames(subjects)))
      && v.highlightsCount == |Filter(v.entries, IsHighlight)|
      && v.notesCount == |Filter(v.entries, IsNote)|
      && v.totalEntries == |v.entries|
      && v.groups == GroupBy(v.entries, SubjectKey)
      && v.groupOrder == Keys(v.entries, SubjectKey)
  {
    if user.None? then Unauthenticated
    else
      var entries := if entriesFail then [] else NotebookQuery(rows, user.value, SubjectNames(subjects));
      Page(if subjectsFail then [] else subjects, entriesFail, entries,
           GroupBy(entries, SubjectKey), Keys(entries, SubjectKey), |entries|,
           |Filter(entries, IsHighlight)|, |Filter(entries, IsNote)|)
  }

  /** The name of the first subject with the given id. */
  function SubjectName(subjects: seq<Subject>, id: string): string
    requires exists s :: s in subjects && s.id == id
  {
    if subjects[0].id == id then subjects[0].name else SubjectName(subjects[1..], id)
  }

  /** The subject names by id, as the `subjects (name)` embed resolves them. */
  function SubjectNames(subjects: seq<Subject>): map<string, string> {
    map id | id in (set s | s in subjects :: s.id) :: SubjectName(subjects, id)
  }

  /** Every entry is either a highlight or a note, so the two counts add up to the total. */
  lemma {:induction false} HighlightsPlusNotes(entries: seq<NotebookEntry>)
    ensures |Filter(entries, IsHighlight)| + |Filter(entries, IsNote)| == |entries|
  {
    if entries != [] {
      var init, e := entries[..|entries| - 1], entries[|entries| - 1];
      assert entries == init + [e];
      HighlightsPlusNotes(init);
      SelectSnoc(init, e, IsHighlight, true);
      SelectSnoc(init, e, IsNote, true);
    }
  }

  /** The page's counters: highlights and notes add up to the total, and the
      group sizes add up to it too. */
  lemma PageCounts(user: Option<UserId>, rows: seq<NotebookRow>, subjects: seq<Subject>, subjectsFail: bool, entriesFail: bool)
    requires user.Some?
    ensures var v := NotebookPage(user, rows, subjects, subjectsFail, entriesFail);
      && v.highlightsCount + v.notesCount == v.totalEntries
      && GroupSizes(v.groups, v.groupOrder) == v.totalEntries
  {
    var v := NotebookPage(user, rows, subjects, subjectsFail, entriesFail);
    HighlightsPlusNotes(v.entries);
    GroupSizesCoverAll(v.entries, SubjectKey);
  }

  /** Each group keeps the newest-first order of the query. */
  lemma GroupsNewestFirst(user: Option<UserId>, rows: seq<NotebookRow>, subjects: seq<Subject>,
                          subjectsFail: bool, entriesFail: bool, k: string)
    requires user.Some?
    ensures var v := NotebookPage(user, rows, subjects, subjectsFail, entriesFail);
      k in v.groups ==> NonIncreasing(v.groups[k], EntryCreatedAt)
  {
    var v := NotebookPage(user, rows, subjects, subjectsFail, entriesFail);
    SelectKeepsOrder(v.entries, SubjectKey, k, EntryCreatedAt);
  }

  /** A failed subjects query changes nothing but the subject list. */
  lemma SubjectsErrorOnlyLogged(user: Option<UserId>, rows: seq<NotebookRow>, subjects: seq<Subject>, entriesFail: bool)
    requires user.Some?
    ensures var v := NotebookPage(user, rows, subjects, true, entriesFail);
      v.Page? && v.subjects == [] && v.(subjects := subjects) == NotebookPage(user, rows, subjects, false, entriesFail)
  {
  }
}
