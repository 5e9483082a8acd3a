/** The checklist page as the script drives it: the `.section` elements of
    the document, the overall progress bar and text, and the
    `decoNetworkChecklist` slot of localStorage, with the script's functions
    as methods that update them in place. */
module Checklist {
  import opened Text
  import opened Elements
  import opened Progress
  import opened Persistence
  import opened Report

  datatype Option<T> = None | Some(value: T)

  // ------------------------------------------------------ document queries

  /** `document.getElementById(k)` restricted to the task elements whose id
      `key` gives: the first match in document order, or none. */
  method FindTask(secs: seq<Section>, key: Task -> string, k: string) returns (p: Option<Pos>)
    ensures p.Some? ==> IsPos(secs, p.value) && key(secs[p.value.section].tasks[p.value.task]) == k
    ensures p.Some? ==> forall s, t ::
      (0 <= s < |secs| && 0 <= t < |secs[s].tasks| &&
       (s < p.value.section || (s == p.value.section && t < p.value.task))) ==> key(secs[s].tasks[t]) != k
    ensures p.None? ==> forall s, t :: 0 <= s < |secs| && 0 <= t < |secs[s].tasks| ==> key(secs[s].tasks[t]) != k
  {
    for s := 0 to |secs|
      invariant forall i, t :: 0 <= i < s && 0 <= t < |secs[i].tasks| ==> key(secs[i].tasks[t]) != k
    {
      for t := 0 to |secs[s].tasks|
        invariant forall j :: 0 <= j < t ==> key(secs[s].tasks[j]) != k
      {
        if key(secs[s].tasks[t]) == k {
          return Some(Pos(s, t));
        }
      }
    }
    return None;
  }

  /** `document.getElementById(k)` restricted to the textareas. */
  method FindNote(secs: seq<Section>, k: string) returns (i: Option<nat>)
    ensures i.Some? ==> i.value < |secs| && secs[i.value].noteId == k
    ensures i.Some? ==> forall j :: 0 <= j < i.value ==> secs[j].noteId != k
    ensures i.None? ==> forall j :: 0 <= j < |secs| ==> secs[j].noteId != k
  {
    for s := 0 to |secs|
      invariant forall j :: 0 <= j < s ==> secs[j].noteId != k
    {
      if secs[s].noteId == k {
        return Some(s);
      }
    }
    return None;
  }

  /** `querySelectorAll(...).forEach(el => f(el))` over every checklist item
      of the page, section by section. */
  method ForEachTask(secs: seq<Section>, f: Task -> Task) returns (r: seq<Section>)
    ensures r == MapTasks(secs, f)
  {
    r := secs;
    for s := 0 to |r|
      invariant |r| == |secs|
      invariant forall i :: 0 <= i < s ==> r[i] == MapTasks(secs, f)[i]
      invariant forall i :: s <= i < |r| ==> r[i] == secs[i]
    {
      var tasks := r[s].tasks;
      for t := 0 to |tasks|
        invariant |tasks| == |secs[s].tasks|
        invariant forall j :: 0 <= j < t ==> tasks[j] == f(secs[s].tasks[j])
        invariant forall j :: t <= j < |tasks| ==> tasks[j] == secs[s].tasks[j]
      {
        tasks := tasks[t := f(tasks[t])];
      }
      assert tasks == MapTasks(secs, f)[s].tasks;
      r := r[s := r[s].(tasks := tasks)];
    }
  }

  /** updateProgress's forEach over one section's checkboxes: the date span
      of each is stamped or cleared. */
  method StampDates(tasks: seq<Task>, today: string) returns (r: seq<Task>)
    ensures r == StampedTasks(tasks, today)
  {
    r := tasks;
    for t := 0 to |r|
      invariant |r| == |tasks|
      invariant forall j :: 0 <= j < t ==> r[j] == Stamped(tasks[j], today)
      invariant forall j :: t <= j < |r| ==> r[j] == tasks[j]
    {
      var tk := r[t];
      if tk.checked && tk.date == "" {
        r := r[t := tk.(date := CompletedPrefix + today)];
      } else if !tk.checked {
        r := r[t := tk.(date := "")];
      }
    }
  }

  /** saveChecklist's forEach over the checkboxes (or the date spans):
      `data[key(el)] = val(el)`. */
  method CollectTasks<V>(secs: seq<Section>, key: Task -> string, val: Task -> V) returns (m: map<string, V>)
    ensures m == RecordAll(secs, key, val)
  {
    m := map[];
    for s := 0 to |secs|
      invariant m == RecordAll(secs[..s], key, val)
    {
      ghost var acc := m;
      for t := 0 to |secs[s].tasks|
        invariant m == Record(acc, secs[s].tasks[..t], key, val)
      {
        var tk := secs[s].tasks[t];
        assert secs[s].tasks[..t + 1][..t] == secs[s].tasks[..t];
        m := m[key(tk) := val(tk)];
      }
      assert secs[s].tasks[..|secs[s].tasks|] == secs[s].tasks;
      assert secs[..s + 1][..s] == secs[..s];
    }
    assert secs[..|secs|] == secs;
  }

  /** The callback updateProgress runs on one section: count its checked
      boxes, write its `c/t` label, stamp its dates. */
  method UpdateSection(section: Section, today: string) returns (r: Section, sectionTotal: nat, sectionCompleted: nat)
    ensures r == StampedSection(section, today)
    ensures sectionTotal == |section.tasks| && sectionCompleted == CountChecked(section.tasks)
  {
    sectionCompleted := CountChecked(section.tasks);
    sectionTotal := |section.tasks|;
    var progress := NatToString(sectionCompleted) + "/" + NatToString(sectionTotal);
    var tasks := StampDates(section.tasks, today);
    r := section.(progress := progress, tasks := tasks);
  }

  /** updateProgress's forEach over the `.section` elements: each section's
      progress text is written and its dates reconciled, while the totals
      are summed. */
  method UpdateSections(secs: seq<Section>, today: string) returns (r: seq<Section>, totalTasks: nat, completedTasks: nat)
    ensures r == StampedSections(secs, today)
    ensures totalTasks == TotalTasks(secs) && completedTasks == TotalChecked(secs)
  {
    r := secs;
    totalTasks, completedTasks := 0, 0;
    for s := 0 to |r|
      invariant |r| == |secs|
      invariant forall i :: 0 <= i < s ==> r[i] == StampedSection(secs[i], today)
      invariant forall i :: s <= i < |r| ==> r[i] == secs[i]
      invariant totalTasks == TotalTasks(secs[..s]) && completedTasks == TotalChecked(secs[..s])
    {
      var section, sectionTotal, sectionCompleted := UpdateSection(r[s], today);
      totalTasks := totalTasks + sectionTotal;
      completedTasks := completedTasks + sectionCompleted;
      r := r[s := section];
      TotalsSnoc(secs, s);
    }
    assert secs[..|secs|] == secs;
  }

  /** exportChecklist's body for one section: heading, one line per
      checklist item, the notes when not blank, a blank line. */
  method ExportSection(section: Section) returns (block: string)
    ensures block == SectionBlock(section)
  {
    block := "## " + section.title + " (" + section.progress + ")\n\n";
    for t := 0 to |section.tasks|
      invariant block == SectionHeading(section) + TaskLines(section.tasks[..t])
    {
      var task := section.tasks[t];
      var status := if task.checked then "✓" else "☐";
      var dateCompleted := if task.date != "" then "(" + task.date + ")" else "";
      var line := "- " + status + " " + task.labelText + " " + dateCompleted + "\n";
      assert line == TaskLine(task);
      TaskLinesSnoc(section.tasks, t);
      ConcatAssoc(SectionHeading(section), TaskLines(section.tasks[..t]), line);
      block := block + line;
    }
    assert section.tasks[..|section.tasks|] == section.tasks;
    if Trim(section.note) != "" {
      block := block + ("\n**Notes:**\n" + section.note + "\n");
    }
    block := block + "\n";
  }

  // ---------------------------------------------------------- accordion

  /** The sections after a click on the header of section `k`: every other
      section's content is closed and section `k`'s is toggled. */
  function Toggled(secs: seq<Section>, k: nat): (r: seq<Section>)
    requires k < |secs|
    ensures |r| == |secs|
  {
    seq(|secs|, i requires 0 <= i < |secs| => secs[i].(active := i == k && !secs[k].active))
  }

  /** After a click at most one section is open, the clicked one flips, and
      nothing but the `active` class changes. */
  lemma ToggleOpensAtMostOne(secs: seq<Section>, k: nat)
    requires k < |secs|
    ensures Toggled(secs, k)[k].active == !secs[k].active
    ensures forall i :: 0 <= i < |secs| && i != k ==> !Toggled(secs, k)[i].active
    ensures forall i, j ::
      (0 <= i < |secs| && 0 <= j < |secs| && Toggled(secs, k)[i].active && Toggled(secs, k)[j].active) ==> i == j
    ensures forall i :: 0 <= i < |secs| ==> Toggled(secs, k)[i] == secs[i].(active := Toggled(secs, k)[i].active)
  {
  }

  /** Clicking the same header twice leaves that section as it was and every
      other one closed. */
  lemma ToggleTwice(secs: seq<Section>, k: nat)
    requires k < |secs|
    ensures Toggled(Toggled(secs, k), k)[k] == secs[k]
    ensures forall i :: 0 <= i < |secs| && i != k ==> !Toggled(Toggled(secs, k), k)[i].active
  {
  }

  // -------------------------------------------------------------- the page

  class Checklist {
    /** The `.section` elements in document order. */
    var sections: seq<Section>
    /** The text of `#progress-text`. */
    var progressText: string
    /** The width of `#overall-progress`, in percent. */
    var barWidth: nat
    /** The `decoNetworkChecklist` slot of localStorage, already parsed. */
    var store: Option<Snapshot>

    /** Element ids are unique, as in any well-formed HTML document. */
    ghost predicate Valid()
      reads this`sections
    {
      UniqueIds(sections)
    }

    /** A freshly parsed page and whatever storage already holds. */
    constructor (page: seq<Section>, stored: Option<Snapshot>)
      requires UniqueIds(page)
      ensures Valid()
      ensures sections == page && store == stored
      ensures progressText == "" && barWidth == 0
    {
      sections := page;
      store := stored;
      progressText := "";
      barWidth := 0;
    }

    /** toggleSection for the header of section `k`. */
    method ToggleSection(k: nat)
      requires Valid()
      requires k < |sections|
      modifies this`sections
      ensures Valid()
      ensures sections == Toggled(old(sections), k)
    {
      ghost var orig := sections;
      for i := 0 to |sections|
        invariant |sections| == |orig|
        invariant forall j :: 0 <= j < i ==> sections[j] == orig[j].(active := j == k && orig[j].active)
        invariant forall j :: i <= j < |sections| ==> sections[j] == orig[j]
      {
        if i != k {
          sections := sections[i := sections[i].(active := false)];
        }
      }
      sections := sections[k := sections[k].(active := !sections[k].active)];
      assert SameIds(orig, sections);
      SameIdsUnique(orig, sections);
    }

    /** The two loops of updateProgress over the page: section texts and
        dates with the running sums, then the `completed` classes. */
    method RefreshSections(today: string) returns (totalTasks: nat, completedTasks: nat)
      requires Valid()
      modifies this`sections
      ensures Valid()
      ensures sections == Reconciled(old(sections), today)
      ensures totalTasks == TotalTasks(old(sections)) && completedTasks == TotalChecked(old(sections))
    {
      ghost var orig := sections;
      sections, totalTasks, completedTasks := UpdateSections(sections, today);
      sections := ForEachTask(sections, MarkCompleted);
      ReconciledUnique(orig, today);
    }

    /** updateProgress, `today` being `new Date().toLocaleDateString()`:
        section texts and dates, then the overall bar and text, then the
        `completed` classes, then a save. */
    method UpdateProgress(today: string)
      requires Valid()
      modifies this
      ensures Valid()
      ensures sections == Reconciled(old(sections), today)
      ensures barWidth == Percent(TotalChecked(old(sections)), TotalTasks(old(sections)))
      ensures progressText == ProgressText(TotalChecked(old(sections)), TotalTasks(old(sections)))
      ensures store == Some(Saved(sections))
    {
      var totalTasks, completedTasks := RefreshSections(today);
      var progressPercentage := Percent(completedTasks, totalTasks);
      barWidth := progressPercentage;
      progressText := ProgressText(completedTasks, totalTasks);
      SaveChecklist();
    }

    /** saveChecklist (and saveNotes, which only calls it): every checkbox,
        textarea and date span is recorded under its id and the snapshot
        replaces what storage held. */
    method SaveChecklist()
      modifies this`store
      ensures store == Some(Saved(sections))
    {
      var tasks := CollectTasks(sections, TaskId, Flag);
      var notes: map<string, string> := map[];
      for s := 0 to |sections|
        invariant notes == RecordNotes(sections[..s])
      {
        assert sections[..s + 1][..s] == sections[..s];
        notes := notes[sections[s].noteId := sections[s].note];
      }
      assert sections[..|sections|] == sections;
      var dates := CollectTasks(sections, DateKey, DateText);
      store := Some(Snapshot(tasks, notes, dates));
    }

    /** One of loadChecklist's loops over `Object.keys(m)`: each key that is
        the id of a task element writes `m[key]` into it with `put`; other
        keys are skipped. */
    method ApplyTaskEntries<V>(m: map<string, V>, key: Task -> string, put: (Task, V) -> Task)
      requires Valid()
      requires UniqueBy(sections, key)
      requires forall tk: Task, v: V ::
        put(tk, v).id == tk.id && put(tk, v).dateId == tk.dateId && key(put(tk, v)) == key(tk)
      modifies this`sections
      ensures Valid()
      ensures sections == LoadEntries(old(sections), m, key, put)
    {
      ghost var orig := sections;
      var pending := m.Keys;
      LoadEntriesNone(orig, key, put);
      assert m - pending == map[];
      while pending != {}
        invariant pending <= m.Keys
        invariant sections == LoadEntries(orig, m - pending, key, put)
        decreases pending
      {
        var k :| k in pending;
        ghost var done := m - pending;
        assert done[k := m[k]] == m - (pending - {k});
        var p := FindTask(sections, key, k);
        if p.Some? {
          var pos := p.value;
          assert key(orig[pos.section].tasks[pos.task]) == k;
          LoadEntriesStep(orig, done, k, m[k], key, put, pos);
          var sec := sections[pos.section];
          sections := sections[pos.section := sec.(tasks := sec.tasks[pos.task := put(sec.tasks[pos.task], m[k])])];
        } else {
          assert forall s, t :: 0 <= s < |orig| && 0 <= t < |orig[s].tasks| ==>
            key(orig[s].tasks[t]) == key(sections[s].tasks[t]);
          LoadEntriesSkip(orig, done, k, m[k], key, put);
        }
        pending := pending - {k};
      }
      assert m - pending == m;
      assert SameIds(orig, sections);
      SameIdsUnique(orig, sections);
    }

    /** loadChecklist's loop over `Object.keys(notes)`. */
    method ApplyNotes(m: map<string, string>)
      requires Valid()
      modifies this`sections
      ensures Valid()
      ensures sections == LoadNotes(old(sections), m)
    {
      ghost var orig := sections;
      var pending := m.Keys;
      LoadNotesNone(orig);
      assert m - pending == map[];
      while pending != {}
        invariant pending <= m.Keys
        invariant sections == LoadNotes(orig, m - pending)
        decreases pending
      {
        var k :| k in pending;
        ghost var done := m - pending;
        assert done[k := m[k]] == m - (pending - {k});
        var i := FindNote(sections, k);
        if i.Some? {
          forall j | 0 <= j < |orig| && orig[j].noteId == k
            ensures j == i.value
          {
            assert NoteIdAt(orig, j) == NoteIdAt(orig, i.value);
          }
          LoadNotesStep(orig, done, k, m[k], i.value);
          sections := sections[i.value := sections[i.value].(note := m[k])];
        } else {
          LoadNotesSkip(orig, done, k, m[k]);
        }
        pending := pending - {k};
      }
      assert m - pending == m;
      assert SameIds(orig, sections);
      SameIdsUnique(orig, sections);
    }

    /** loadChecklist: with nothing stored the page is left alone; otherwise
        the stored flags, then notes, then dates are written back. */
    method LoadChecklist()
      requires Valid()
      modifies this`sections
      ensures Valid()
      ensures old(store).None? ==> sections == old(sections)
      ensures old(store).Some? ==> sections == Loaded(old(sections), old(store).value)
    {
      if store.Some? {
        var checklistData := store.value;
        ApplyTaskEntries(checklistData.tasks, TaskId, PutFlag);
        ApplyNotes(checklistData.notes);
        ApplyTaskEntries(checklistData.dates, DateKey, PutDate);
      }
    }

    /** resetChecklist, `confirmed` being the answer to the confirm dialog. */
    method ResetChecklist(confirmed: bool, today: string)
      requires Valid()
      modifies this
      ensures Valid()
      ensures !confirmed ==> && sections == old(sections) && store == old(store)
                             && progressText == old(progressText) && barWidth == old(barWidth)
      ensures confirmed ==> sections == Reconciled(Cleared(old(sections)), today)
      ensures confirmed ==> progressText == ProgressText(0, TotalTasks(old(sections))) && barWidth == 0
      ensures confirmed ==> store == Some(Saved(sections))
    {
      if confirmed {
        ghost var orig := sections;
        store := None;
        sections := ForEachTask(sections, Uncheck);
        ghost var unchecked := sections;
        for s := 0 to |sections|
          invariant |sections| == |unchecked|
          invariant forall i :: 0 <= i < s ==> sections[i] == unchecked[i].(note := "")
          invariant forall i :: s <= i < |sections| ==> sections[i] == unchecked[i]
        {
          sections := sections[s := sections[s].(note := "")];
        }
        assert sections == ClearedNotes(unchecked);
        sections := ForEachTask(sections, ClearDate);
        ClearedAt(orig);
        assert SameIds(orig, sections);
        SameIdsUnique(orig, sections);
        ClearedCounts(orig);
        if TotalTasks(orig) > 0 {
          PercentEmpty(0, TotalTasks(orig));
        }
        UpdateProgress(today);
      }
    }

    /** exportChecklist, `generatedOn` being `new Date().toLocaleString()`:
        the Markdown report, built line by line. The page is not changed. */
    method ExportChecklist(generatedOn: string) returns (reportContent: string)
      ensures reportContent == ReportText(sections, progressText, generatedOn)
    {
      reportContent := "# DecoNetwork Pre-Launch Checklist Report\n\n";
      reportContent := reportContent + ("Generated on: " + generatedOn + "\n\n");
      reportContent := reportContent + ("## Overall Progress\n" + progressText + "\n\n");
      assert sections[..0] == [];
      assert reportContent == ReportText(sections[..0], progressText, generatedOn);
      for s := 0 to |sections|
        invariant reportContent == ReportText(sections[..s], progressText, generatedOn)
      {
        var block := ExportSection(sections[s]);
        ReportTextSnoc(sections, progressText, generatedOn, s);
        reportContent := reportContent + block;
      }
      assert sections[..|sections|] == sections;
    }

    /** The DOMContentLoaded handler: load, open the first section, update. */
    method Initialize(today: string)
      requires Valid()
      modifies this
      ensures Valid()
      ensures var loaded := if old(store).Some? then Loaded(old(sections), old(store).value) else old(sections);
        var firstOpen := if |loaded| > 0 then Toggled(loaded, 0) else loaded;
        && sections == Reconciled(firstOpen, today)
        && barWidth == Percent(TotalChecked(firstOpen), TotalTasks(firstOpen))
        && progressText == ProgressText(TotalChecked(firstOpen), TotalTasks(firstOpen))
        && store == Some(Saved(sections))
    {
      LoadChecklist();
      if |sections| > 0 {
        ToggleSection(0);
      }
      UpdateProgress(today);
    }
  }
}
