/** What saveChecklist writes to the storage slot, what loadChecklist does
    with it, and what resetChecklist leaves behind. */
module Persistence {
  import opened Text
  import opened Elements
  import opened Progress

  // ---------------------------------------------------------------- saving

  /** One forEach over task elements writing `obj[key(tk)] = val(tk)`, in
      document order: a later element overwrites an earlier one with the
      same id. */
  function Record<V>(acc: map<string, V>, tasks: seq<Task>, key: Task -> string, val: Task -> V): map<string, V>
    decreases |tasks|
  {
    if tasks == [] then acc
    else Record(acc, tasks[..|tasks| - 1], key, val)[key(tasks[|tasks| - 1]) := val(tasks[|tasks| - 1])]
  }

  /** The same forEach over every task element of the page. */
  function RecordAll<V>(secs: seq<Section>, key: Task -> string, val: Task -> V): map<string, V>
    decreases |secs|
  {
    if secs == [] then map[]
    else Record(RecordAll(secs[..|secs| - 1], key, val), secs[|secs| - 1].tasks, key, val)
  }

  /** The forEach over the textareas: `notes[textarea.id] = textarea.value`. */
  function RecordNotes(secs: seq<Section>): map<string, string>
    decreases |secs|
  {
    if secs == [] then map[]
    else RecordNotes(secs[..|secs| - 1])[secs[|secs| - 1].noteId := secs[|secs| - 1].note]
  }

  function Flag(tk: Task): bool {
    tk.checked
  }

  function DateText(tk: Task): string {
    tk.date
  }

  /** The object saveChecklist stores. */
  function Saved(secs: seq<Section>): Snapshot {
    Snapshot(RecordAll(secs, TaskId, Flag), RecordNotes(secs), RecordAll(secs, DateKey, DateText))
  }

  /** A key is recorded exactly when some element has it. */
  lemma {:induction false} RecordKeys<V>(acc: map<string, V>, tasks: seq<Task>, key: Task -> string, val: Task -> V, k: string)
    ensures k in Record(acc, tasks, key, val) <==> k in acc || exists i :: 0 <= i < |tasks| && key(tasks[i]) == k
    decreases |tasks|
  {
    if tasks != [] {
      var n := |tasks| - 1;
      RecordKeys(acc, tasks[..n], key, val, k);
      if exists i :: 0 <= i < |tasks| && key(tasks[i]) == k {
        var i :| 0 <= i < |tasks| && key(tasks[i]) == k;
        if i < n {
          assert key(tasks[..n][i]) == k;
        }
      }
    }
  }

  /** Where no later element shares its id, an element's value is the one
      recorded. */
  lemma {:induction false} RecordLookup<V>(acc: map<string, V>, tasks: seq<Task>, key: Task -> string, val: Task -> V, i: nat)
    requires i < |tasks|
    requires forall j :: i < j < |tasks| ==> key(tasks[j]) != key(tasks[i])
    ensures key(tasks[i]) in Record(acc, tasks, key, val)
    ensures Record(acc, tasks, key, val)[key(tasks[i])] == val(tasks[i])
    decreases |tasks|
  {
    var n := |tasks| - 1;
    if i < n {
      RecordLookup(acc, tasks[..n], key, val, i);
    }
  }

  /** Keys no element has keep what the accumulator held. */
  lemma {:induction false} RecordPassThrough<V>(acc: map<string, V>, tasks: seq<Task>, key: Task -> string, val: Task -> V, k: string)
    requires forall j :: 0 <= j < |tasks| ==> key(tasks[j]) != k
    requires k in acc
    ensures k in Record(acc, tasks, key, val) && Record(acc, tasks, key, val)[k] == acc[k]
    decreases |tasks|
  {
    if tasks != [] {
      RecordPassThrough(acc, tasks[..|tasks| - 1], key, val, k);
    }
  }

  lemma {:induction false} RecordAllKeys<V>(secs: seq<Section>, key: Task -> string, val: Task -> V, k: string)
    ensures k in RecordAll(secs, key, val) <==>
      exists s, t :: 0 <= s < |secs| && 0 <= t < |secs[s].tasks| && key(secs[s].tasks[t]) == k
    decreases |secs|
  {
    if secs != [] {
      var n := |secs| - 1;
      var pre := secs[..n];
      RecordAllKeys(pre, key, val, k);
      RecordKeys(RecordAll(pre, key, val), secs[n].tasks, key, val, k);
      if exists s, t :: 0 <= s < |secs| && 0 <= t < |secs[s].tasks| && key(secs[s].tasks[t]) == k {
        var s, t :| 0 <= s < |secs| && 0 <= t < |secs[s].tasks| && key(secs[s].tasks[t]) == k;
        if s < n {
          assert key(pre[s].tasks[t]) == k;
        }
      }
    }
  }

  /** With unique ids, every task element's value is recorded under its id. */
  lemma {:induction false} RecordAllLookup<V>(secs: seq<Section>, key: Task -> string, val: Task -> V, s: nat, t: nat)
    requires UniqueBy(secs, key)
    requires s < |secs| && t < |secs[s].tasks|
    ensures key(secs[s].tasks[t]) in RecordAll(secs, key, val)
    ensures RecordAll(secs, key, val)[key(secs[s].tasks[t])] == val(secs[s].tasks[t])
    decreases |secs|
  {
    var n := |secs| - 1;
    var pre := secs[..n];
    if s == n {
      forall j | t < j < |secs[n].tasks|
        ensures key(secs[n].tasks[j]) != key(secs[n].tasks[t])
      {
        assert KeyAt(secs, key, n, j) != KeyAt(secs, key, n, t);
      }
      RecordLookup(RecordAll(pre, key, val), secs[n].tasks, key, val, t);
    } else {
      assert UniqueBy(pre, key) by {
        forall s1, t1, s2, t2 |
          0 <= s1 < |pre| && 0 <= t1 < |pre[s1].tasks| &&
          0 <= s2 < |pre| && 0 <= t2 < |pre[s2].tasks| &&
          KeyAt(pre, key, s1, t1) == KeyAt(pre, key, s2, t2)
          ensures s1 == s2 && t1 == t2
        {
          assert KeyAt(secs, key, s1, t1) == KeyAt(secs, key, s2, t2);
        }
      }
      RecordAllLookup(pre, key, val, s, t);
      forall j | 0 <= j < |secs[n].tasks|
        ensures key(secs[n].tasks[j]) != key(secs[s].tasks[t])
      {
        assert KeyAt(secs, key, n, j) != KeyAt(secs, key, s, t);
      }
      RecordPassThrough(RecordAll(pre, key, val), secs[n].tasks, key, val, key(secs[s].tasks[t]));
    }
  }

  /** When every element holds `v`, so does every recorded entry. */
  lemma {:induction false} RecordAllConstant<V>(secs: seq<Section>, key: Task -> string, val: Task -> V, v: V)
    requires forall s, t :: 0 <= s < |secs| && 0 <= t < |secs[s].tasks| ==> val(secs[s].tasks[t]) == v
    ensures forall k :: k in RecordAll(secs, key, val) ==> RecordAll(secs, key, val)[k] == v
    decreases |secs|
  {
    if secs != [] {
      var n := |secs| - 1;
      var pre := secs[..n];
      RecordAllConstant(pre, key, val, v);
      RecordConstant(RecordAll(pre, key, val), secs[n].tasks, key, val, v);
    }
  }

  lemma {:induction false} RecordConstant<V>(acc: map<string, V>, tasks: seq<Task>, key: Task -> string, val: Task -> V, v: V)
    requires forall k :: k in acc ==> acc[k] == v
    requires forall j :: 0 <= j < |tasks| ==> val(tasks[j]) == v
    ensures forall k :: k in Record(acc, tasks, key, val) ==> Record(acc, tasks, key, val)[k] == v
    decreases |tasks|
  {
    if tasks != [] {
      RecordConstant(acc, tasks[..|tasks| - 1], key, val, v);
    }
  }

  lemma {:induction false} RecordNotesKeys(secs: seq<Section>, k: string)
    ensures k in RecordNotes(secs) <==> exists s :: 0 <= s < |secs| && secs[s].noteId == k
    decreases |secs|
  {
    if secs != [] {
      var n := |secs| - 1;
      RecordNotesKeys(secs[..n], k);
      if exists s :: 0 <= s < |secs| && secs[s].noteId == k {
        var s :| 0 <= s < |secs| && secs[s].noteId == k;
        if s < n {
          assert secs[..n][s].noteId == k;
        }
      }
    }
  }

  lemma {:induction false} RecordNotesLookup(secs: seq<Section>, s: nat)
    requires s < |secs|
    requires forall i :: 0 <= i < |secs| && secs[i].noteId == secs[s].noteId ==> i == s
    ensures secs[s].noteId in RecordNotes(secs) && RecordNotes(secs)[secs[s].noteId] == secs[s].note
    decreases |secs|
  {
    var n := |secs| - 1;
    if s < n {
      RecordNotesLookup(secs[..n], s);
    }
  }

  lemma {:induction false} RecordNotesConstant(secs: seq<Section>, v: string)
    requires forall s :: 0 <= s < |secs| ==> secs[s].note == v
    ensures forall k :: k in RecordNotes(secs) ==> RecordNotes(secs)[k] == v
    decreases |secs|
  {
    if secs != [] {
      RecordNotesConstant(secs[..|secs| - 1], v);
    }
  }

  /** saveChecklist records every checkbox, every textarea and every date
      span of the page under its id. */
  lemma SavedRecordsPage(secs: seq<Section>)
    requires UniqueIds(secs)
    ensures forall s, t :: 0 <= s < |secs| && 0 <= t < |secs[s].tasks| ==>
      && secs[s].tasks[t].id in Saved(secs).tasks
      && Saved(secs).tasks[secs[s].tasks[t].id] == secs[s].tasks[t].checked
      && secs[s].tasks[t].dateId in Saved(secs).dates
      && Saved(secs).dates[secs[s].tasks[t].dateId] == secs[s].tasks[t].date
    ensures forall s :: 0 <= s < |secs| ==>
      secs[s].noteId in Saved(secs).notes && Saved(secs).notes[secs[s].noteId] == secs[s].note
  {
    var snap := Saved(secs);
    forall s, t | 0 <= s < |secs| && 0 <= t < |secs[s].tasks|
      ensures secs[s].tasks[t].id in snap.tasks && snap.tasks[secs[s].tasks[t].id] == secs[s].tasks[t].checked
      ensures secs[s].tasks[t].dateId in snap.dates && snap.dates[secs[s].tasks[t].dateId] == secs[s].tasks[t].date
    {
      RecordAllLookup(secs, TaskId, Flag, s, t);
      RecordAllLookup(secs, DateKey, DateText, s, t);
    }
    forall s | 0 <= s < |secs|
      ensures secs[s].noteId in snap.notes && snap.notes[secs[s].noteId] == secs[s].note
    {
      forall i | 0 <= i < |secs| && secs[i].noteId == secs[s].noteId
        ensures i == s
      {
        assert NoteIdAt(secs, i) == NoteIdAt(secs, s);
      }
      RecordNotesLookup(secs, s);
    }
  }

  /** ... and records nothing else: every key of the snapshot is the id of
      an element of the page. */
  lemma SavedKeys(secs: seq<Section>, k: string)
    ensures k in Saved(secs).tasks <==>
      exists s, t :: 0 <= s < |secs| && 0 <= t < |secs[s].tasks| && secs[s].tasks[t].id == k
    ensures k in Saved(secs).dates <==>
      exists s, t :: 0 <= s < |secs| && 0 <= t < |secs[s].tasks| && secs[s].tasks[t].dateId == k
    ensures k in Saved(secs).notes <==> exists s :: 0 <= s < |secs| && secs[s].noteId == k
  {
    RecordAllKeys(secs, TaskId, Flag, k);
    RecordAllKeys(secs, DateKey, DateText, k);
    RecordNotesKeys(secs, k);
  }

  // --------------------------------------------------------------- loading

  /** `element[...] = value` for the element whose id is a key of `m`. */
  function LoadEntry<V>(tk: Task, m: map<string, V>, key: Task -> string, put: (Task, V) -> Task): Task {
    if key(tk) in m then put(tk, m[key(tk)]) else tk
  }

  /** One of loadChecklist's forEach loops over the keys of a task map. */
  function LoadEntries<V>(secs: seq<Section>, m: map<string, V>, key: Task -> string, put: (Task, V) -> Task): (r: seq<Section>)
    ensures |r| == |secs|
    ensures forall i :: 0 <= i < |secs| ==>
      |r[i].tasks| == |secs[i].tasks| && r[i] == secs[i].(tasks := r[i].tasks)
    ensures forall i, j :: 0 <= i < |secs| && 0 <= j < |secs[i].tasks| ==>
      r[i].tasks[j] == LoadEntry(secs[i].tasks[j], m, key, put)
  {
    seq(|secs|, i requires 0 <= i < |secs| =>
      secs[i].(tasks := seq(|secs[i].tasks|, j requires 0 <= j < |secs[i].tasks| =>
        LoadEntry(secs[i].tasks[j], m, key, put))))
  }

  /** loadChecklist's forEach over the keys of `notes`. */
  function LoadNotes(secs: seq<Section>, m: map<string, string>): (r: seq<Section>)
    ensures |r| == |secs|
    ensures forall i :: 0 <= i < |secs| ==>
      r[i] == if secs[i].noteId in m then secs[i].(note := m[secs[i].noteId]) else secs[i]
  {
    seq(|secs|, i requires 0 <= i < |secs| =>
      if secs[i].noteId in m then secs[i].(note := m[secs[i].noteId]) else secs[i])
  }

  function PutFlag(tk: Task, v: bool): Task {
    tk.(checked := v)
  }

  function PutDate(tk: Task, v: string): Task {
    tk.(date := v)
  }

  /** Before any key of the map has been visited the page is as it was. */
  lemma LoadEntriesNone<V>(secs: seq<Section>, key: Task -> string, put: (Task, V) -> Task)
    ensures LoadEntries(secs, map[], key, put) == secs
  {
    var r := LoadEntries(secs, map[], key, put);
    forall i | 0 <= i < |secs|
      ensures r[i] == secs[i]
    {
      assert r[i].tasks == secs[i].tasks;
    }
  }

  /** Visiting key `k`, carried by the element at `p` alone, writes that
      element and no other. */
  lemma LoadEntriesStep<V>(secs: seq<Section>, done: map<string, V>, k: string, v: V,
                           key: Task -> string, put: (Task, V) -> Task, p: Pos)
    requires k !in done
    requires UniqueBy(secs, key)
    requires IsPos(secs, p) && key(secs[p.section].tasks[p.task]) == k
    ensures var cur := LoadEntries(secs, done, key, put);
      var sec := cur[p.section];
      LoadEntries(secs, done[k := v], key, put)
        == cur[p.section := sec.(tasks := sec.tasks[p.task := put(sec.tasks[p.task], v)])]
  {
    var cur := LoadEntries(secs, done, key, put);
    var sec := cur[p.section];
    var a := LoadEntries(secs, done[k := v], key, put);
    var b := cur[p.section := sec.(tasks := sec.tasks[p.task := put(sec.tasks[p.task], v)])];
    forall i | 0 <= i < |secs|
      ensures a[i] == b[i]
    {
      forall j | 0 <= j < |secs[i].tasks|
        ensures a[i].tasks[j] == b[i].tasks[j]
      {
        if i != p.section || j != p.task {
          assert KeyAt(secs, key, i, j) != KeyAt(secs, key, p.section, p.task);
        }
      }
      assert a[i].tasks == b[i].tasks;
    }
  }

  /** Visiting a key no element carries changes nothing. */
  lemma LoadEntriesSkip<V>(secs: seq<Section>, done: map<string, V>, k: string, v: V,
                           key: Task -> string, put: (Task, V) -> Task)
    requires forall s, t :: 0 <= s < |secs| && 0 <= t < |secs[s].tasks| ==> key(secs[s].tasks[t]) != k
    ensures LoadEntries(secs, done[k := v], key, put) == LoadEntries(secs, done, key, put)
  {
    var a, b := LoadEntries(secs, done[k := v], key, put), LoadEntries(secs, done, key, put);
    forall i | 0 <= i < |secs|
      ensures a[i] == b[i]
    {
      assert a[i].tasks == b[i].tasks;
    }
  }

  lemma LoadNotesNone(secs: seq<Section>)
    ensures LoadNotes(secs, map[]) == secs
  {
  }

  /** Visiting note id `k`, carried by section `i` alone, writes that
      section's textarea and no other. */
  lemma LoadNotesStep(secs: seq<Section>, done: map<string, string>, k: string, v: string, i: nat)
    requires k !in done
    requires forall j :: 0 <= j < |secs| && secs[j].noteId == k ==> j == i
    requires i < |secs| && secs[i].noteId == k
    ensures var cur := LoadNotes(secs, done);
      LoadNotes(secs, done[k := v]) == cur[i := cur[i].(note := v)]
  {
  }

  lemma LoadNotesSkip(secs: seq<Section>, done: map<string, string>, k: string, v: string)
    requires forall j :: 0 <= j < |secs| ==> secs[j].noteId != k
    ensures LoadNotes(secs, done[k := v]) == LoadNotes(secs, done)
  {
  }

  /** The page after loadChecklist found `snap` in storage: flags, then
      notes, then dates. */
  function Loaded(secs: seq<Section>, snap: Snapshot): (r: seq<Section>)
    ensures |r| == |secs|
  {
    LoadEntries(LoadNotes(LoadEntries(secs, snap.tasks, TaskId, PutFlag), snap.notes), snap.dates, DateKey, PutDate)
  }

  /** loadChecklist only overwrites what the snapshot names: a checkbox,
      date span or textarea whose id is absent keeps its state, and nothing
      but `checked`, the date text and the note value ever changes. */
  lemma LoadedAt(secs: seq<Section>, snap: Snapshot)
    ensures SameIds(secs, Loaded(secs, snap))
    ensures forall s, t :: 0 <= s < |secs| && 0 <= t < |secs[s].tasks| ==>
      var before, after := secs[s].tasks[t], Loaded(secs, snap)[s].tasks[t];
      && after.checked == (if before.id in snap.tasks then snap.tasks[before.id] else before.checked)
      && after.date == (if before.dateId in snap.dates then snap.dates[before.dateId] else before.date)
      && after.labelText == before.labelText && after.completed == before.completed
    ensures forall s :: 0 <= s < |secs| ==>
      var before, after := secs[s], Loaded(secs, snap)[s];
      && after.note == (if before.noteId in snap.notes then snap.notes[before.noteId] else before.note)
      && after.title == before.title && after.progress == before.progress && after.active == before.active
  {
    var flags := LoadEntries(secs, snap.tasks, TaskId, PutFlag);
    var notes := LoadNotes(flags, snap.notes);
    var r := LoadEntries(notes, snap.dates, DateKey, PutDate);
    assert r == Loaded(secs, snap);
    forall s | 0 <= s < |secs|
      ensures |r[s].tasks| == |secs[s].tasks| && r[s].noteId == secs[s].noteId
      ensures r[s].note == (if secs[s].noteId in snap.notes then snap.notes[secs[s].noteId] else secs[s].note)
      ensures r[s].title == secs[s].title && r[s].progress == secs[s].progress && r[s].active == secs[s].active
    {
      assert notes[s].tasks == flags[s].tasks;
    }
    forall s, t | 0 <= s < |secs| && 0 <= t < |secs[s].tasks|
      ensures var before, after := secs[s].tasks[t], r[s].tasks[t];
        && after.id == before.id && after.dateId == before.dateId
        && after.checked == (if before.id in snap.tasks then snap.tasks[before.id] else before.checked)
        && after.date == (if before.dateId in snap.dates then snap.dates[before.dateId] else before.date)
        && after.labelText == before.labelText && after.completed == before.completed
    {
      assert flags[s].tasks[t] == LoadEntry(secs[s].tasks[t], snap.tasks, TaskId, PutFlag);
      assert notes[s].tasks[t] == flags[s].tasks[t];
      assert r[s].tasks[t] == LoadEntry(notes[s].tasks[t], snap.dates, DateKey, PutDate);
    }
  }

  /** Snapshot entries for ids the page does not have are ignored: two
      snapshots that agree on the page's ids load the same. */
  lemma LoadIgnoresForeignIds(secs: seq<Section>, a: Snapshot, b: Snapshot)
    requires forall s, t :: 0 <= s < |secs| && 0 <= t < |secs[s].tasks| ==>
      var tk := secs[s].tasks[t];
      && (tk.id in a.tasks <==> tk.id in b.tasks)
      && (tk.id in a.tasks ==> a.tasks[tk.id] == b.tasks[tk.id])
      && (tk.dateId in a.dates <==> tk.dateId in b.dates)
      && (tk.dateId in a.dates ==> a.dates[tk.dateId] == b.dates[tk.dateId])
    requires forall s :: 0 <= s < |secs| ==>
      var id := secs[s].noteId;
      (id in a.notes <==> id in b.notes) && (id in a.notes ==> a.notes[id] == b.notes[id])
    ensures Loaded(secs, a) == Loaded(secs, b)
  {
    LoadedAt(secs, a);
    LoadedAt(secs, b);
    var la, lb := Loaded(secs, a), Loaded(secs, b);
    forall s | 0 <= s < |secs|
      ensures la[s] == lb[s]
    {
      assert la[s].tasks == lb[s].tasks;
    }
  }

  /** A stored entry under the empty id is never loaded: no element of a
      valid page has that id, just as `getElementById("")` finds nothing. */
  lemma LoadIgnoresEmptyId(secs: seq<Section>, snap: Snapshot)
    requires UniqueIds(secs)
    ensures Loaded(secs, snap) == Loaded(secs, Snapshot(snap.tasks - {""}, snap.notes - {""}, snap.dates - {""}))
  {
    var other := Snapshot(snap.tasks - {""}, snap.notes - {""}, snap.dates - {""});
    forall s, t | 0 <= s < |secs| && 0 <= t < |secs[s].tasks|
      ensures var tk := secs[s].tasks[t];
        && (tk.id in snap.tasks <==> tk.id in other.tasks)
        && (tk.id in snap.tasks ==> snap.tasks[tk.id] == other.tasks[tk.id])
        && (tk.dateId in snap.dates <==> tk.dateId in other.dates)
        && (tk.dateId in snap.dates ==> snap.dates[tk.dateId] == other.dates[tk.dateId])
    {
      assert KeyAt(secs, TaskId, s, t) != "" && KeyAt(secs, DateKey, s, t) != "";
    }
    forall s | 0 <= s < |secs|
      ensures var id := secs[s].noteId;
        (id in snap.notes <==> id in other.notes) && (id in snap.notes ==> snap.notes[id] == other.notes[id])
    {
      assert NoteIdAt(secs, s) != "";
    }
    LoadIgnoresForeignIds(secs, snap, other);
  }

  /** Round trip: loading what saveChecklist stored onto the same page (in
      any state) restores every checkbox, every date and every note. */
  lemma LoadRestoresSaved(before: seq<Section>, secs: seq<Section>)
    requires SameIds(before, secs) && UniqueIds(secs)
    ensures |Loaded(before, Saved(secs))| == |secs|
    ensures forall s, t :: 0 <= s < |secs| && 0 <= t < |secs[s].tasks| ==>
      && Loaded(before, Saved(secs))[s].tasks[t].checked == secs[s].tasks[t].checked
      && Loaded(before, Saved(secs))[s].tasks[t].date == secs[s].tasks[t].date
    ensures forall s :: 0 <= s < |secs| ==> Loaded(before, Saved(secs))[s].note == secs[s].note
  {
    SavedRecordsPage(secs);
    LoadedAt(before, Saved(secs));
  }

  /** In particular, loading the page's own snapshot changes nothing. */
  lemma LoadSavedIsIdentity(secs: seq<Section>)
    requires UniqueIds(secs)
    ensures Loaded(secs, Saved(secs)) == secs
  {
    LoadRestoresSaved(secs, secs);
    LoadedAt(secs, Saved(secs));
    var l := Loaded(secs, Saved(secs));
    forall s | 0 <= s < |secs|
      ensures l[s] == secs[s]
    {
      assert l[s].tasks == secs[s].tasks;
    }
  }

  // ------------------------------------------------------------- resetting

  function Uncheck(tk: Task): Task {
    tk.(checked := false)
  }

  function ClearDate(tk: Task): Task {
    tk.(date := "")
  }

  /** Every textarea emptied. */
  function ClearedNotes(secs: seq<Section>): (r: seq<Section>)
    ensures |r| == |secs|
    ensures forall i :: 0 <= i < |secs| ==> r[i] == secs[i].(note := "")
  {
    seq(|secs|, i requires 0 <= i < |secs| => secs[i].(note := ""))
  }

  /** The page after resetChecklist's three loops: every checkbox unchecked,
      every note emptied, every date span emptied. */
  function Cleared(secs: seq<Section>): (r: seq<Section>)
    ensures |r| == |secs|
  {
    MapTasks(ClearedNotes(MapTasks(secs, Uncheck)), ClearDate)
  }

  /** Section by section, item by item: what the reset loops leave. */
  lemma ClearedAt(secs: seq<Section>)
    ensures forall i :: 0 <= i < |secs| ==>
      var c := Cleared(secs)[i];
      && |c.tasks| == |secs[i].tasks|
      && c == secs[i].(note := "", tasks := c.tasks)
    ensures forall i, j :: 0 <= i < |secs| && 0 <= j < |secs[i].tasks| ==>
      Cleared(secs)[i].tasks[j] == secs[i].tasks[j].(checked := false, date := "")
  {
    var u := MapTasks(secs, Uncheck);
    var n := ClearedNotes(u);
    forall i, j | 0 <= i < |secs| && 0 <= j < |secs[i].tasks|
      ensures Cleared(secs)[i].tasks[j] == secs[i].tasks[j].(checked := false, date := "")
    {
      assert n[i].tasks[j] == u[i].tasks[j];
    }
  }

  /** After a confirmed reset and the progress update that follows it, no
      task is checked or dated, no item is marked completed and no note is
      left; the page keeps its elements and ids. */
  lemma ResetLeavesBlank(secs: seq<Section>, today: string)
    ensures SameIds(secs, Reconciled(Cleared(secs), today))
    ensures var r := Reconciled(Cleared(secs), today);
      forall s, t :: 0 <= s < |r| && 0 <= t < |r[s].tasks| ==>
        !r[s].tasks[t].checked && r[s].tasks[t].date == "" && !r[s].tasks[t].completed
    ensures var r := Reconciled(Cleared(secs), today);
      forall s :: 0 <= s < |r| ==> r[s].note == ""
  {
    ClearedAt(secs);
    ReconciledRule(Cleared(secs), today);
  }

  /** ... so the counts read 0 of the same number of tasks, and the overall
      text reads `0% complete (0/t tasks)`. */
  lemma ResetCountsZero(secs: seq<Section>, today: string)
    ensures TotalChecked(Reconciled(Cleared(secs), today)) == 0
    ensures TotalTasks(Reconciled(Cleared(secs), today)) == TotalTasks(secs)
    ensures ProgressText(0, TotalTasks(secs)) == "0% complete (0/" + NatToString(TotalTasks(secs)) + " tasks)"
  {
    ReconciledCounts(Cleared(secs), today);
    ClearedCounts(secs);
    NothingCheckedText(TotalTasks(secs));
  }

  /** ... and the snapshot updateProgress re-saves then holds `false` and
      empty strings only. Loading it back changes nothing. */
  lemma ResetSnapshotBlank(secs: seq<Section>, today: string)
    requires UniqueIds(secs)
    ensures var snap := Saved(Reconciled(Cleared(secs), today));
      && (forall k :: k in snap.tasks ==> !snap.tasks[k])
      && (forall k :: k in snap.notes ==> snap.notes[k] == "")
      && (forall k :: k in snap.dates ==> snap.dates[k] == "")
    ensures Loaded(Reconciled(Cleared(secs), today), Saved(Reconciled(Cleared(secs), today)))
      == Reconciled(Cleared(secs), today)
  {
    var r := Reconciled(Cleared(secs), today);
    ResetLeavesBlank(secs, today);
    SameIdsUnique(secs, r);
    RecordAllConstant(r, TaskId, Flag, false);
    RecordAllConstant(r, DateKey, DateText, "");
    RecordNotesConstant(r, "");
    LoadSavedIsIdentity(r);
  }

  lemma {:induction false} ClearedCounts(secs: seq<Section>)
    ensures TotalChecked(Cleared(secs)) == 0
    ensures TotalTasks(Cleared(secs)) == TotalTasks(secs)
    decreases |secs|
  {
    if secs != [] {
      var n := |secs| - 1;
      var c, c' := Cleared(secs), Cleared(secs[..n]);
      ClearedAt(secs);
      ClearedAt(secs[..n]);
      forall i | 0 <= i < n
        ensures c[i] == c'[i]
      {
        assert c[i].tasks == c'[i].tasks;
      }
      assert c[..n] == c';
      ClearedCounts(secs[..n]);
      assert CountChecked(c[n].tasks) == 0;
    }
  }
}
