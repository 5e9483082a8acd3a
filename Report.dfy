/** The Markdown report exportChecklist builds, as a function of the page,
    the overall progress text and the locale timestamp it is generated at. */
module Report {
  import opened Text
  import opened Elements
  import opened Progress

  /** `checkbox.checked ? "✓" : "☐"`. */
  function StatusMark(checked: bool): char {
    if checked then '✓' else '☐'
  }

  /** Part of a task line after the label: `(date)` when the date span has
      text, nothing otherwise. */
  function DatePart(date: string): string {
    if date != "" then "(" + date + ")" else ""
  }

  /** `- ${status} ${label} ${date ? `(${date})` : ''}` and a newline. */
  function TaskLine(tk: Task): string {
    "- " + [StatusMark(tk.checked)] + " " + tk.labelText + " " + DatePart(tk.date) + "\n"
  }

  /** The task lines of one section, in document order. */
  function TaskLines(tasks: seq<Task>): string
    decreases |tasks|
  {
    if tasks == [] then "" else TaskLines(tasks[..|tasks| - 1]) + TaskLine(tasks[|tasks| - 1])
  }

  /** The notes block, present only when `notesValue.trim()` is non-empty. */
  function NotesBlock(note: string): string {
    if Trim(note) != "" then "\n**Notes:**\n" + note + "\n" else ""
  }

  function SectionHeading(sec: Section): string {
    "## " + sec.title + " (" + sec.progress + ")\n\n"
  }

  function SectionBlock(sec: Section): string {
    SectionHeading(sec) + TaskLines(sec.tasks) + NotesBlock(sec.note) + "\n"
  }

  function SectionBlocks(secs: seq<Section>): string
    decreases |secs|
  {
    if secs == [] then "" else SectionBlocks(secs[..|secs| - 1]) + SectionBlock(secs[|secs| - 1])
  }

  const Title := "# DecoNetwork Pre-Launch Checklist Report\n\n"

  function Header(generatedOn: string, progressText: string): string {
    Title + "Generated on: " + generatedOn + "\n\n" + "## Overall Progress\n" + progressText + "\n\n"
  }

  /** The whole report text. */
  function ReportText(secs: seq<Section>, progressText: string, generatedOn: string): string {
    Header(generatedOn, progressText) + SectionBlocks(secs)
  }

  /** Building the report section by section: one more section appends
      its block. */
  lemma ReportTextSnoc(secs: seq<Section>, progressText: string, generatedOn: string, s: nat)
    requires s < |secs|
    ensures ReportText(secs[..s + 1], progressText, generatedOn)
      == ReportText(secs[..s], progressText, generatedOn) + SectionBlock(secs[s])
  {
    assert secs[..s + 1][..s] == secs[..s];
    ConcatAssoc(Header(generatedOn, progressText), SectionBlocks(secs[..s]), SectionBlock(secs[s]));
  }

  /** Building a section's lines task by task: one more task appends its line. */
  lemma TaskLinesSnoc(tasks: seq<Task>, t: nat)
    requires t < |tasks|
    ensures TaskLines(tasks[..t + 1]) == TaskLines(tasks[..t]) + TaskLine(tasks[t])
  {
    assert tasks[..t + 1][..t] == tasks[..t];
  }

  /** A task line begins with the ✓ mark exactly when the task is checked,
      and with ☐ exactly when it is not. */
  lemma TaskLineStatus(tk: Task)
    ensures |TaskLine(tk)| > 2
    ensures TaskLine(tk)[2] == '✓' <==> tk.checked
    ensures TaskLine(tk)[2] == '☐' <==> !tk.checked
  {
  }

  /** The date appears, in parentheses closing the line, exactly when the
      date span has text. */
  lemma {:induction false} TaskLineShowsDate(tk: Task)
    ensures |TaskLine(tk)| >= 2
    ensures TaskLine(tk)[|TaskLine(tk)| - 2..] == ")\n" <==> tk.date != ""
    ensures tk.date != "" ==>
      && |TaskLine(tk)| >= |tk.date| + 3
      && TaskLine(tk)[|TaskLine(tk)| - |tk.date| - 3..] == "(" + tk.date + ")\n"
  {
    var line := TaskLine(tk);
    if tk.date == "" {
      assert line == "- " + [StatusMark(tk.checked)] + " " + tk.labelText + " " + "\n";
      assert line[|line| - 2] == ' ';
    } else {
      assert line == ("- " + [StatusMark(tk.checked)] + " " + tk.labelText + " " + "(" + tk.date) + ")\n";
    }
  }

  /** The notes block is written exactly when the note is not blank. */
  lemma NotesBlockIffNotBlank(note: string)
    ensures NotesBlock(note) != "" <==> !Blank(note)
  {
    TrimEmptyIffBlank(note);
  }

  /** No ✓ or ☐ in a text the user or the page supplies. */
  predicate NoMarks(s: string) {
    forall i :: 0 <= i < |s| ==> s[i] != '✓' && s[i] != '☐'
  }

  /** Every user-supplied text of the page and the header is free of marks. */
  predicate PageHasNoMarks(secs: seq<Section>, progressText: string, generatedOn: string) {
    && NoMarks(progressText) && NoMarks(generatedOn)
    && (forall s :: 0 <= s < |secs| ==>
          NoMarks(secs[s].title) && NoMarks(secs[s].progress) && NoMarks(secs[s].note))
    && (forall s, t :: 0 <= s < |secs| && 0 <= t < |secs[s].tasks| ==>
          NoMarks(secs[s].tasks[t].labelText) && NoMarks(secs[s].tasks[t].date))
  }

  lemma NoMarksAppend(a: string, b: string)
    requires NoMarks(a) && NoMarks(b)
    ensures NoMarks(a + b)
  {
    forall i | 0 <= i < |a + b|
      ensures (a + b)[i] != '✓' && (a + b)[i] != '☐'
    {
      if i >= |a| {
        assert (a + b)[i] == b[i - |a|];
      }
    }
  }

  lemma MarksAbsent(b: bool, s: string)
    requires NoMarks(s)
    ensures Occurrences(StatusMark(b), s) == 0
  {
    OccurrencesNone(StatusMark(b), s);
  }

  /** Tasks with the given checkbox state. */
  function CountState(tasks: seq<Task>, b: bool): nat {
    if b then CountChecked(tasks) else |tasks| - CountChecked(tasks)
  }

  lemma TaskLineMarks(tk: Task, b: bool)
    requires NoMarks(tk.labelText) && NoMarks(tk.date)
    ensures Occurrences(StatusMark(b), TaskLine(tk)) == if tk.checked == b then 1 else 0
  {
    var c := StatusMark(b);
    var a1 := "- " + [StatusMark(tk.checked)];
    var a2 := a1 + " " + tk.labelText;
    var a3 := a2 + " " + DatePart(tk.date);
    OccurrencesAppend(c, "- ", [StatusMark(tk.checked)]);
    OccurrencesAppend(c, a1, " ");
    OccurrencesAppend(c, a1 + " ", tk.labelText);
    OccurrencesAppend(c, a2, " ");
    OccurrencesAppend(c, a2 + " ", DatePart(tk.date));
    OccurrencesAppend(c, a3, "\n");
    MarksAbsent(b, "- ");
    MarksAbsent(b, " ");
    MarksAbsent(b, "\n");
    MarksAbsent(b, tk.labelText);
    if tk.date != "" {
      OccurrencesAppend(c, "(", tk.date);
      OccurrencesAppend(c, "(" + tk.date, ")");
      MarksAbsent(b, "(");
      MarksAbsent(b, ")");
      MarksAbsent(b, tk.date);
    }
    assert Occurrences(c, [StatusMark(tk.checked)]) == if tk.checked == b then 1 else 0;
  }

  lemma {:induction false} TaskLinesMarks(tasks: seq<Task>, b: bool)
    requires forall t :: 0 <= t < |tasks| ==> NoMarks(tasks[t].labelText) && NoMarks(tasks[t].date)
    ensures Occurrences(StatusMark(b), TaskLines(tasks)) == CountState(tasks, b)
    decreases |tasks|
  {
    if tasks != [] {
      var n := |tasks| - 1;
      TaskLinesMarks(tasks[..n], b);
      TaskLineMarks(tasks[n], b);
      OccurrencesAppend(StatusMark(b), TaskLines(tasks[..n]), TaskLine(tasks[n]));
    }
  }

  lemma HeadingNoMarks(sec: Section)
    requires NoMarks(sec.title) && NoMarks(sec.progress)
    ensures NoMarks(SectionHeading(sec))
  {
    NoMarksAppend("## ", sec.title);
    NoMarksAppend("## " + sec.title, " (");
    NoMarksAppend("## " + sec.title + " (", sec.progress);
    NoMarksAppend("## " + sec.title + " (" + sec.progress, ")\n\n");
  }

  lemma NotesBlockNoMarks(note: string)
    requires NoMarks(note)
    ensures NoMarks(NotesBlock(note))
  {
    if Trim(note) != "" {
      NoMarksAppend("\n**Notes:**\n", note);
      NoMarksAppend("\n**Notes:**\n" + note, "\n");
    }
  }

  lemma SectionBlockMarks(sec: Section, b: bool)
    requires NoMarks(sec.title) && NoMarks(sec.progress) && NoMarks(sec.note)
    requires forall t :: 0 <= t < |sec.tasks| ==> NoMarks(sec.tasks[t].labelText) && NoMarks(sec.tasks[t].date)
    ensures Occurrences(StatusMark(b), SectionBlock(sec)) == CountState(sec.tasks, b)
  {
    var c := StatusMark(b);
    var h, lines, n := SectionHeading(sec), TaskLines(sec.tasks), NotesBlock(sec.note);
    HeadingNoMarks(sec);
    MarksAbsent(b, h);
    NotesBlockNoMarks(sec.note);
    MarksAbsent(b, n);
    MarksAbsent(b, "\n");
    TaskLinesMarks(sec.tasks, b);
    OccurrencesAppend(c, h, lines);
    OccurrencesAppend(c, h + lines, n);
    OccurrencesAppend(c, h + lines + n, "\n");
  }

  /** The report lists every task of the page once with its mark: it holds
      as many ✓ as there are checked tasks and as many ☐ as unchecked ones
      (provided no title, label, date, note or timestamp contains a mark). */
  lemma {:induction false} ReportMarksCountTasks(secs: seq<Section>, progressText: string, generatedOn: string, b: bool)
    requires PageHasNoMarks(secs, progressText, generatedOn)
    ensures Occurrences(StatusMark(b), ReportText(secs, progressText, generatedOn))
      == if b then TotalChecked(secs) else TotalTasks(secs) - TotalChecked(secs)
    decreases |secs|
  {
    var c := StatusMark(b);
    var hd := Header(generatedOn, progressText);
    var h1 := Title + "Generated on: ";
    NoMarksAppend(Title, "Generated on: ");
    NoMarksAppend(h1, generatedOn);
    NoMarksAppend(h1 + generatedOn, "\n\n");
    NoMarksAppend(h1 + generatedOn + "\n\n", "## Overall Progress\n");
    NoMarksAppend(h1 + generatedOn + "\n\n" + "## Overall Progress\n", progressText);
    NoMarksAppend(h1 + generatedOn + "\n\n" + "## Overall Progress\n" + progressText, "\n\n");
    MarksAbsent(b, hd);
    BlocksMarks(secs, b);
    OccurrencesAppend(c, hd, SectionBlocks(secs));
  }

  lemma {:induction false} BlocksMarks(secs: seq<Section>, b: bool)
    requires forall s :: 0 <= s < |secs| ==>
      NoMarks(secs[s].title) && NoMarks(secs[s].progress) && NoMarks(secs[s].note)
    requires forall s, t :: 0 <= s < |secs| && 0 <= t < |secs[s].tasks| ==>
      NoMarks(secs[s].tasks[t].labelText) && NoMarks(secs[s].tasks[t].date)
    ensures Occurrences(StatusMark(b), SectionBlocks(secs))
      == if b then TotalChecked(secs) else TotalTasks(secs) - TotalChecked(secs)
    decreases |secs|
  {
    if secs != [] {
      var n := |secs| - 1;
      BlocksMarks(secs[..n], b);
      SectionBlockMarks(secs[n], b);
      OccurrencesAppend(StatusMark(b), SectionBlocks(secs[..n]), SectionBlock(secs[n]));
      assert TotalChecked(secs[..n]) <= TotalTasks(secs[..n]);
    }
  }
}
