/** What updateProgress computes: per-section and overall counts, the rounded
    percentage, the progress texts, and the completion-date rule that
    reconciles every task's date span and `completed` class with its
    checkbox. */
module Progress {
  import opened Text
  import opened Elements

  /** `Array.from(checkboxes).filter(cb => cb.checked).length`. */
  function CountChecked(tasks: seq<Task>): (n: nat)
    ensures n <= |tasks|
    ensures n == |tasks| <==> forall i :: 0 <= i < |tasks| ==> tasks[i].checked
    ensures n == 0 <==> forall i :: 0 <= i < |tasks| ==> !tasks[i].checked
    decreases |tasks|
  {
    if tasks == [] then 0
    else CountChecked(tasks[..|tasks| - 1]) + (if tasks[|tasks| - 1].checked then 1 else 0)
  }

  lemma {:induction false} CountCheckedAppend(a: seq<Task>, b: seq<Task>)
    ensures CountChecked(a + b) == CountChecked(a) + CountChecked(b)
    decreases |b|
  {
    if b != [] {
      assert (a + b)[..|a + b| - 1] == a + b[..|b| - 1];
      CountCheckedAppend(a, b[..|b| - 1]);
    } else {
      assert a + b == a;
    }
  }

  /** The count depends on the checkboxes alone. */
  lemma {:induction false} CountCheckedSameFlags(a: seq<Task>, b: seq<Task>)
    requires |a| == |b|
    requires forall i :: 0 <= i < |a| ==> a[i].checked == b[i].checked
    ensures CountChecked(a) == CountChecked(b)
    decreases |a|
  {
    if a != [] {
      CountCheckedSameFlags(a[..|a| - 1], b[..|b| - 1]);
    }
  }

  /** `totalTasks` after the loop over sections: the sum of the section totals. */
  function TotalTasks(secs: seq<Section>): nat
    decreases |secs|
  {
    if secs == [] then 0 else TotalTasks(secs[..|secs| - 1]) + |secs[|secs| - 1].tasks|
  }

  /** One more section adds its counts to the running sums. */
  lemma TotalsSnoc(secs: seq<Section>, s: nat)
    requires s < |secs|
    ensures TotalTasks(secs[..s + 1]) == TotalTasks(secs[..s]) + |secs[s].tasks|
    ensures TotalChecked(secs[..s + 1]) == TotalChecked(secs[..s]) + CountChecked(secs[s].tasks)
  {
    assert secs[..s + 1][..s] == secs[..s];
  }

  /** `completedTasks` after the loop over sections: the sum of the section counts. */
  function TotalChecked(secs: seq<Section>): (n: nat)
    ensures n <= TotalTasks(secs)
    decreases |secs|
  {
    if secs == [] then 0
    else TotalChecked(secs[..|secs| - 1]) + CountChecked(secs[|secs| - 1].tasks)
  }

  /** Summing section by section counts every checkbox of the page once:
      the totals agree with counting the document's checkboxes directly. */
  lemma {:induction false} TotalsMatchDocument(secs: seq<Section>)
    ensures TotalTasks(secs) == |AllTasks(secs)|
    ensures TotalChecked(secs) == CountChecked(AllTasks(secs))
    decreases |secs|
  {
    if secs != [] {
      var last := secs[|secs| - 1];
      TotalsMatchDocument(secs[..|secs| - 1]);
      CountCheckedAppend(AllTasks(secs[..|secs| - 1]), last.tasks);
    }
  }

  lemma {:induction false} MulMonotone(d: nat, a: int, b: int)
    requires a <= b
    ensures d * a <= d * b
  {
    assert d * b - d * a == d * (b - a);
  }

  /** `totalTasks > 0 ? Math.round((completedTasks / totalTasks) * 100) : 0`,
      computed exactly: Math.round(x) is floor(x + 1/2), and
      floor(100c/t + 1/2) = floor((200c + t) / 2t). */
  function Percent(completed: nat, total: nat): (p: nat)
    ensures total == 0 ==> p == 0
    ensures completed <= total ==> p <= 100
  {
    if total > 0 then
      var p := (200 * completed + total) / (2 * total);
      assert completed <= total ==> p <= 100 by {
        if completed <= total && p > 100 {
          assert 2 * total * p <= 200 * completed + total;
          MulMonotone(2 * total, 101, p);
        }
      }
      p
    else 0
  }

  /** The percentage is the integer nearest to 100c/t, a tie going up:
      2t * p <= 200c + t < 2t * (p + 1). */
  lemma PercentRounds(completed: nat, total: nat)
    requires total > 0
    ensures 2 * total * Percent(completed, total) <= 200 * completed + total
    ensures 200 * completed + total < 2 * total * (Percent(completed, total) + 1)
  {
  }

  /** The floor characterisation has one solution. */
  lemma FloorUnique(x: int, d: nat, p: int, q: int)
    requires d > 0
    requires d * p <= x < d * (p + 1)
    requires d * q <= x < d * (q + 1)
    ensures p == q
  {
    if p < q {
      MulMonotone(d, p + 1, q);
    } else if q < p {
      MulMonotone(d, q + 1, p);
    }
  }

  /** The bar reads 100% exactly when at least 99.5% of the tasks are done:
      rounding reaches 100 one task early on large lists (199 of 200). */
  lemma PercentFull(c: nat, t: nat)
    requires 0 < t && c <= t
    ensures Percent(c, t) == 100 <==> 200 * c >= 199 * t
    ensures c == t ==> Percent(c, t) == 100
  {
    var p := Percent(c, t);
    PercentRounds(c, t);
    if 200 * c >= 199 * t {
      FloorUnique(200 * c + t, 2 * t, p, 100);
    }
    if p == 100 {
      assert 2 * t * 100 <= 200 * c + t;
    }
  }

  /** The bar reads 0% exactly when less than 0.5% of the tasks are done. */
  lemma PercentEmpty(c: nat, t: nat)
    requires 0 < t
    ensures Percent(c, t) == 0 <==> 200 * c < t
  {
    var p := Percent(c, t);
    PercentRounds(c, t);
    if 200 * c < t {
      FloorUnique(200 * c + t, 2 * t, p, 0);
    }
  }

  /** Checking one more task never lowers the percentage. */
  lemma PercentMonotone(c1: nat, c2: nat, t: nat)
    requires c1 <= c2
    ensures Percent(c1, t) <= Percent(c2, t)
  {
    if t > 0 {
      var p1, p2 := Percent(c1, t), Percent(c2, t);
      PercentRounds(c1, t);
      PercentRounds(c2, t);
      if p2 < p1 {
        MulMonotone(2 * t, p2 + 1, p1);
      }
    }
  }

  /** The `.section-progress` text, `${sectionCompleted}/${sectionTotal}`. */
  function SectionProgressText(tasks: seq<Task>): string {
    NatToString(CountChecked(tasks)) + "/" + NatToString(|tasks|)
  }

  /** The `#progress-text` text, `${p}% complete (${c}/${t} tasks)`. */
  function ProgressText(completed: nat, total: nat): string {
    NatToString(Percent(completed, total)) + "% complete ("
      + NatToString(completed) + "/" + NatToString(total) + " tasks)"
  }

  /** The section text `${c}/${t}` shows both counts exactly: two sections
      that read the same have the same number of checked and of all tasks. */
  lemma SectionProgressTextDeterminesCounts(a: seq<Task>, b: seq<Task>)
    requires SectionProgressText(a) == SectionProgressText(b)
    ensures CountChecked(a) == CountChecked(b) && |a| == |b|
  {
    var ca, cb := NatToString(CountChecked(a)), NatToString(CountChecked(b));
    var ta, tb := NatToString(|a|), NatToString(|b|);
    assert AllDigits(ca) && AllDigits(cb) && AllDigits(ta) && AllDigits(tb);
    FractionUnique(ca, ta, cb, tb, "/");
    NatToStringInjective(CountChecked(a), CountChecked(b));
    NatToStringInjective(|a|, |b|);
  }

  /** The overall text shows the exact counts: two texts that read the same
      come from the same numbers of completed and of all tasks. */
  lemma ProgressTextDeterminesCounts(c1: nat, t1: nat, c2: nat, t2: nat)
    requires ProgressText(c1, t1) == ProgressText(c2, t2)
    ensures c1 == c2 && t1 == t2
  {
    var p1, p2 := NatToString(Percent(c1, t1)), NatToString(Percent(c2, t2));
    var n1, n2 := NatToString(c1), NatToString(c2);
    var m1, m2 := NatToString(t1), NatToString(t2);
    assert AllDigits(p1) && AllDigits(p2) && AllDigits(n1) && AllDigits(n2) && AllDigits(m1) && AllDigits(m2);
    LabelledNumbersUnique(p1, n1, m1, p2, n2, m2, "% complete (", "/", " tasks)");
    NatToStringInjective(c1, c2);
    NatToStringInjective(t1, t2);
  }

  /** Half a percent rounds up: one task of eight is 12.5%, shown as 13%. */
  lemma HalfRoundsUp()
    ensures Percent(1, 8) == 13
  {
  }

  /** With nothing checked the overall text reads `0% complete (0/t tasks)`. */
  lemma NothingCheckedText(total: nat)
    ensures ProgressText(0, total) == "0% complete (0/" + NatToString(total) + " tasks)"
  {
    if total > 0 {
      PercentEmpty(0, total);
    }
    var zero := NatToString(0);
    assert zero == "0";
    assert zero + "% complete (" + zero + "/" == "0% complete (0/";
  }

  /** 4/6 is 66.67%, which rounds to 67. */
  lemma FourOfSixRounds()
    ensures Percent(4, 6) == 67
  {
  }

  lemma SixtySevenPrints()
    ensures NatToString(67) == "67"
  {
    assert NatToString(67) == NatToString(6) + ['7'];
  }

  /** Two sections of three tasks with four checked read 67%. */
  lemma FourOfSixReads67()
    ensures ProgressText(4, 6) == "67% complete (4/6 tasks)"
  {
    FourOfSixRounds();
    SixtySevenPrints();
    assert NatToString(4) == "4" && NatToString(6) == "6";
    assert ProgressText(4, 6) == "67" + "% complete (" + "4" + "/" + "6" + " tasks)";
  }

  /** The prefix stamped in front of toLocaleDateString's output. */
  const CompletedPrefix := "Completed: "

  /** The completion-date rule for one task, `today` being the locale date:
      a checked task with an empty date gets one, an unchecked task loses it,
      a checked task that has a date keeps it. */
  function Stamped(tk: Task, today: string): Task {
    if tk.checked && tk.date == "" then tk.(date := CompletedPrefix + today)
    else if !tk.checked then tk.(date := "")
    else tk
  }

  /** The date rule applied to the tasks of one section, in place. */
  function StampedTasks(tasks: seq<Task>, today: string): (r: seq<Task>)
    ensures |r| == |tasks|
    ensures forall i :: 0 <= i < |tasks| ==> r[i] == Stamped(tasks[i], today)
  {
    seq(|tasks|, i requires 0 <= i < |tasks| => Stamped(tasks[i], today))
  }

  /** A section once the loop over sections has visited it: progress text
      written, dates reconciled. */
  function StampedSection(sec: Section, today: string): Section {
    sec.(progress := SectionProgressText(sec.tasks), tasks := StampedTasks(sec.tasks, today))
  }

  function StampedSections(secs: seq<Section>, today: string): (r: seq<Section>)
    ensures |r| == |secs|
  {
    seq(|secs|, i requires 0 <= i < |secs| => StampedSection(secs[i], today))
  }

  /** `item.classList` gets `completed` exactly when its checkbox is checked. */
  function MarkCompleted(tk: Task): Task {
    tk.(completed := tk.checked)
  }

  /** The page after updateProgress: the loop over sections, then the loop
      over all checklist items. */
  function Reconciled(secs: seq<Section>, today: string): (r: seq<Section>)
    ensures |r| == |secs|
  {
    MapTasks(StampedSections(secs, today), MarkCompleted)
  }

  /** The completion-date rule, task by task, and the invariant it leaves
      behind: a date is shown exactly on checked tasks, and exactly the
      checked items carry the `completed` class. Checkboxes, labels, ids,
      titles and notes are untouched. */
  lemma ReconciledRule(secs: seq<Section>, today: string)
    ensures SameIds(secs, Reconciled(secs, today))
    ensures forall s, t :: 0 <= s < |secs| && 0 <= t < |secs[s].tasks| ==>
      var before, after := secs[s].tasks[t], Reconciled(secs, today)[s].tasks[t];
      && after.checked == before.checked
      && after.labelText == before.labelText
      && (before.checked && before.date == "" ==> after.date == CompletedPrefix + today)
      && (before.checked && before.date != "" ==> after.date == before.date)
      && (!before.checked ==> after.date == "")
      && (after.date != "" <==> after.checked)
      && (after.completed <==> after.checked)
    ensures forall s :: 0 <= s < |secs| ==>
      var before, after := secs[s], Reconciled(secs, today)[s];
      && after.progress == SectionProgressText(before.tasks)
      && after.title == before.title && after.note == before.note && after.active == before.active
  {
    var st := StampedSections(secs, today);
    var r := Reconciled(secs, today);
    forall s, t | 0 <= s < |secs| && 0 <= t < |secs[s].tasks|
      ensures r[s].tasks[t] == MarkCompleted(Stamped(secs[s].tasks[t], today))
    {
      assert st[s].tasks[t] == Stamped(secs[s].tasks[t], today);
    }
  }

  /** Reconciling keeps the page's ids, so they stay unique. */
  lemma ReconciledUnique(secs: seq<Section>, today: string)
    requires UniqueIds(secs)
    ensures UniqueIds(Reconciled(secs, today))
  {
    ReconciledRule(secs, today);
    SameIdsUnique(secs, Reconciled(secs, today));
  }

  /** Reconciling changes no checkbox, so the counts are the same after it. */
  lemma {:induction false} ReconciledCounts(secs: seq<Section>, today: string)
    ensures TotalTasks(Reconciled(secs, today)) == TotalTasks(secs)
    ensures TotalChecked(Reconciled(secs, today)) == TotalChecked(secs)
    decreases |secs|
  {
    if secs != [] {
      var n := |secs| - 1;
      var r := Reconciled(secs, today);
      var r' := Reconciled(secs[..n], today);
      forall i | 0 <= i < n
        ensures r[i] == r'[i]
      {
        assert r[i].tasks == r'[i].tasks;
      }
      assert r[..n] == r';
      ReconciledCounts(secs[..n], today);
      ReconciledRule(secs, today);
      CountCheckedSameFlags(r[n].tasks, secs[n].tasks);
    }
  }

  /** Running updateProgress again, on any later day, changes nothing: no
      date is stamped twice and every text is already up to date. */
  lemma ReconcileIdempotent(secs: seq<Section>, today: string, later: string)
    ensures Reconciled(Reconciled(secs, today), later) == Reconciled(secs, today)
  {
    var once := Reconciled(secs, today);
    var twice := Reconciled(once, later);
    ReconciledRule(secs, today);
    ReconciledRule(once, later);
    forall i | 0 <= i < |secs|
      ensures twice[i] == once[i]
    {
      CountCheckedSameFlags(once[i].tasks, secs[i].tasks);
      assert twice[i].tasks == once[i].tasks;
    }
  }
}
