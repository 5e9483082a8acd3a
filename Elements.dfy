/** The page's checklist markup, read as data: the elements the script looks
    up and writes to, with their ids, and the snapshot object it stores. */
module Elements {

  /** One `.checklist-item`: its checkbox (id and `checked`), the text of its
      label, its `.date-completed` span (id and text content) and whether the
      item carries the `completed` class. */
  datatype Task = Task(
    id: string,
    labelText: string,
    checked: bool,
    dateId: string,
    date: string,
    completed: bool)

  /** One `.section`: the title in its header, the text of its
      `.section-progress` element, its checklist items in document order,
      the textarea holding the section's notes (id and value) and whether its
      `.section-content` carries the `active` class. */
  datatype Section = Section(
    title: string,
    progress: string,
    tasks: seq<Task>,
    noteId: string,
    note: string,
    active: bool)

  /** The object saveChecklist serialises: checkbox id to `checked`,
      textarea id to value, date span id to text content. */
  datatype Snapshot = Snapshot(
    tasks: map<string, bool>,
    notes: map<string, string>,
    dates: map<string, string>)

  /** Where a task sits: index of its section, index inside the section. */
  datatype Pos = Pos(section: nat, task: nat)

  predicate IsPos(secs: seq<Section>, p: Pos) {
    p.section < |secs| && p.task < |secs[p.section].tasks|
  }

  /** The id of a task's checkbox. */
  function TaskId(tk: Task): string {
    tk.id
  }

  /** The id of a task's date span. */
  function DateKey(tk: Task): string {
    tk.dateId
  }

  /** The id `key` gives the task at position (s, t). */
  function KeyAt(secs: seq<Section>, key: Task -> string, s: int, t: int): string
    requires 0 <= s < |secs| && 0 <= t < |secs[s].tasks|
  {
    key(secs[s].tasks[t])
  }

  /** The id of section `i`'s textarea. */
  function NoteIdAt(secs: seq<Section>, i: int): string
    requires 0 <= i < |secs|
  {
    secs[i].noteId
  }

  /** No two task elements share the id `key` gives them. */
  ghost predicate UniqueBy(secs: seq<Section>, key: Task -> string) {
    forall s1, t1, s2, t2 {:trigger KeyAt(secs, key, s1, t1), KeyAt(secs, key, s2, t2)} |
      0 <= s1 < |secs| && 0 <= t1 < |secs[s1].tasks| &&
      0 <= s2 < |secs| && 0 <= t2 < |secs[s2].tasks| &&
      KeyAt(secs, key, s1, t1) == KeyAt(secs, key, s2, t2)
      :: s1 == s2 && t1 == t2
  }

  /** The page's markup gives every checkbox, date span and textarea an id:
      none is empty (`getElementById("")` finds nothing), and, as HTML
      requires of ids, no two elements share one. */
  ghost predicate UniqueIds(secs: seq<Section>) {
    && (forall s, t {:trigger KeyAt(secs, TaskId, s, t)} | 0 <= s < |secs| && 0 <= t < |secs[s].tasks|
          :: KeyAt(secs, TaskId, s, t) != "")
    && (forall s, t {:trigger KeyAt(secs, DateKey, s, t)} | 0 <= s < |secs| && 0 <= t < |secs[s].tasks|
          :: KeyAt(secs, DateKey, s, t) != "")
    && (forall i {:trigger NoteIdAt(secs, i)} | 0 <= i < |secs| :: NoteIdAt(secs, i) != "")
    && UniqueBy(secs, TaskId)
    && UniqueBy(secs, DateKey)
    && (forall i, j {:trigger NoteIdAt(secs, i), NoteIdAt(secs, j)} |
          0 <= i < |secs| && 0 <= j < |secs| && NoteIdAt(secs, i) == NoteIdAt(secs, j) :: i == j)
    && (forall s1, t1, s2, t2 {:trigger KeyAt(secs, TaskId, s1, t1), KeyAt(secs, DateKey, s2, t2)} |
          0 <= s1 < |secs| && 0 <= t1 < |secs[s1].tasks| &&
          0 <= s2 < |secs| && 0 <= t2 < |secs[s2].tasks|
          :: KeyAt(secs, TaskId, s1, t1) != KeyAt(secs, DateKey, s2, t2))
    && (forall s1, t1, s2 {:trigger KeyAt(secs, TaskId, s1, t1), NoteIdAt(secs, s2)} |
          0 <= s1 < |secs| && 0 <= t1 < |secs[s1].tasks| && 0 <= s2 < |secs|
          :: KeyAt(secs, TaskId, s1, t1) != NoteIdAt(secs, s2))
    && (forall s1, t1, s2 {:trigger KeyAt(secs, DateKey, s1, t1), NoteIdAt(secs, s2)} |
          0 <= s1 < |secs| && 0 <= t1 < |secs[s1].tasks| && 0 <= s2 < |secs|
          :: KeyAt(secs, DateKey, s1, t1) != NoteIdAt(secs, s2))
  }

  /** Two states of the same page: same sections, same items, same ids. */
  ghost predicate SameIds(a: seq<Section>, b: seq<Section>) {
    && |a| == |b|
    && (forall i :: 0 <= i < |a| ==> |a[i].tasks| == |b[i].tasks| && a[i].noteId == b[i].noteId)
    && (forall i, j :: 0 <= i < |a| && 0 <= j < |a[i].tasks| ==>
          a[i].tasks[j].id == b[i].tasks[j].id && a[i].tasks[j].dateId == b[i].tasks[j].dateId)
  }

  /** The page structure is fixed, so id uniqueness carries over to every
      later state of it. */
  lemma SameIdsUnique(a: seq<Section>, b: seq<Section>)
    requires SameIds(a, b) && UniqueIds(a)
    ensures UniqueIds(b)
  {
    forall s, t | 0 <= s < |b| && 0 <= t < |b[s].tasks|
      ensures KeyAt(b, TaskId, s, t) != "" && KeyAt(b, DateKey, s, t) != ""
    {
      assert KeyAt(a, TaskId, s, t) != "" && KeyAt(a, DateKey, s, t) != "";
    }
    forall i | 0 <= i < |b|
      ensures NoteIdAt(b, i) != ""
    {
      assert NoteIdAt(a, i) != "";
    }
    forall s1, t1, s2, t2 |
      0 <= s1 < |b| && 0 <= t1 < |b[s1].tasks| &&
      0 <= s2 < |b| && 0 <= t2 < |b[s2].tasks| &&
      KeyAt(b, TaskId, s1, t1) == KeyAt(b, TaskId, s2, t2)
      ensures s1 == s2 && t1 == t2
    {
      assert KeyAt(a, TaskId, s1, t1) == KeyAt(a, TaskId, s2, t2);
    }
    forall s1, t1, s2, t2 |
      0 <= s1 < |b| && 0 <= t1 < |b[s1].tasks| &&
      0 <= s2 < |b| && 0 <= t2 < |b[s2].tasks| &&
      KeyAt(b, DateKey, s1, t1) == KeyAt(b, DateKey, s2, t2)
      ensures s1 == s2 && t1 == t2
    {
      assert KeyAt(a, DateKey, s1, t1) == KeyAt(a, DateKey, s2, t2);
    }
    forall i, j | 0 <= i < |b| && 0 <= j < |b| && NoteIdAt(b, i) == NoteIdAt(b, j)
      ensures i == j
    {
      assert NoteIdAt(a, i) == NoteIdAt(a, j);
    }
    forall s1, t1, s2, t2 |
      0 <= s1 < |b| && 0 <= t1 < |b[s1].tasks| &&
      0 <= s2 < |b| && 0 <= t2 < |b[s2].tasks|
      ensures KeyAt(b, TaskId, s1, t1) != KeyAt(b, DateKey, s2, t2)
    {
      assert KeyAt(a, TaskId, s1, t1) != KeyAt(a, DateKey, s2, t2);
    }
    forall s1, t1, s2 | 0 <= s1 < |b| && 0 <= t1 < |b[s1].tasks| && 0 <= s2 < |b|
      ensures KeyAt(b, TaskId, s1, t1) != NoteIdAt(b, s2)
      ensures KeyAt(b, DateKey, s1, t1) != NoteIdAt(b, s2)
    {
      assert KeyAt(a, TaskId, s1, t1) != NoteIdAt(a, s2);
      assert KeyAt(a, DateKey, s1, t1) != NoteIdAt(a, s2);
    }
  }

  /** The page after `el => ...` has run on every checklist item, as a
      `forEach` over `document.querySelectorAll(...)` does. */
  function MapTasks(secs: seq<Section>, f: Task -> Task): (r: seq<Section>)
    ensures |r| == |secs|
    ensures forall i :: 0 <= i < |secs| ==>
      |r[i].tasks| == |secs[i].tasks| && r[i] == secs[i].(tasks := r[i].tasks)
    ensures forall i, j :: 0 <= i < |secs| && 0 <= j < |secs[i].tasks| ==>
      r[i].tasks[j] == f(secs[i].tasks[j])
  {
    seq(|secs|, i requires 0 <= i < |secs| =>
      secs[i].(tasks := seq(|secs[i].tasks|, j requires 0 <= j < |secs[i].tasks| => f(secs[i].tasks[j]))))
  }

  /** Every checkbox of the page in document order, what
      `querySelectorAll('input[type="checkbox"]')` returns. */
  function AllTasks(secs: seq<Section>): (r: seq<Task>)
    decreases |secs|
  {
    if secs == [] then [] else AllTasks(secs[..|secs| - 1]) + secs[|secs| - 1].tasks
  }
}
