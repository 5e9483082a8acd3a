# DecoNetwork onboarding checklist — Dafny model

This project models the script behind the DecoNetwork pre-launch checklist page
(`checklist/checklistScript.js`). The page is a list of sections. Each section
has a title, a `x/y` progress label, checklist items and a notes textarea. Each
item has a checkbox, a label and a "Completed: …" date span. The script:

- keeps the per-section and overall progress up to date, stamps completion
  dates and marks completed items;
- saves checkbox states, notes and dates to the `decoNetworkChecklist` slot of
  localStorage and loads them back;
- resets everything after a confirmation;
- exports a Markdown report;
- opens one section at a time.

The model has six modules:

- `Text`:
  - the decimal rendering of a count inside a template literal and its
    inverse;
  - `String.prototype.trim`;
  - character counting;
  - reading numbers back out of a labelled text.
- `Elements`: the page as data. Each item is a `Task`, each `.section` a
  `Section`, and the stored object a `Snapshot`. It also states what the
  model assumes of the page's markup: every checkbox, date span and textarea
  has a non-empty id, and no two of them share one.
- `Progress`: the specification of `updateProgress`.
  - `Percent` is the rounded percentage, computed with exact integers.
  - `ProgressText` and `SectionProgressText` are the two progress labels.
  - `Reconciled` is the page after the dates and `completed` classes have
    been brought up to date.
- `Persistence`: the specifications of `saveChecklist` (`Saved`),
  `loadChecklist` (`Loaded`) and the clearing part of `resetChecklist`
  (`Cleared`), with the round trip between save and load.
- `Report`: the text `exportChecklist` builds, line by line.
- `Checklist`: the imperative part. The class `Checklist.Checklist` holds:
  - the sections;
  - the progress text;
  - the progress bar width;
  - the parsed storage slot.

  Each function of the script is a method that updates these fields in place
  and is proved equal to the specification functions above. The loops over
  sections, items and stored keys are `while`/`for` loops with invariants.

Two behaviours of the code worth noting:

- The percentage is `Math.round(c / t * 100)`. So 199 of 200 tasks already
  shows 100% (`Progress.PercentFull` states exactly when 100% is reached).
- A saved snapshot holds only `tasks`, `notes` and `dates`. The code writes no
  timestamp or version field.

## Model

| member | source | states |
|---|---|---|
| Text.NatToString | checklist/checklistScript.js:40 | `${n}` of a count is a non-empty string of decimal digits, with a leading `0` only for zero and a single digit exactly below ten |
| Text.ParseNatToString | checklist/checklistScript.js:63 | reading the printed count back as a decimal number gives the count |
| Text.NatToStringInjective | checklist/checklistScript.js:63 | two different counts never print the same |
| Text.LabelledNumbersUnique | checklist/checklistScript.js:63 | three digit strings between fixed labels that do not start with a digit can be read back apart |
| Text.TrimEmptyIffBlank | checklist/checklistScript.js:207 | `trim()` gives the empty string exactly when the note consists of JavaScript whitespace only |
| Progress.CountChecked | checklist/checklistScript.js:36 | the number of checked boxes is at most the number of boxes; it equals it iff all are checked and is 0 iff none is |
| Progress.TotalChecked | checklist/checklistScript.js:42-43 | the summed completed count never exceeds the summed total |
| Progress.TotalsMatchDocument | checklist/checklistScript.js:30-43 | the totals summed section by section equal the count over all checkboxes of the document |
| Progress.Percent | checklist/checklistScript.js:61 | 0 when there are no tasks; at most 100 when completed ≤ total |
| Progress.PercentRounds | checklist/checklistScript.js:61 | the result is the exact percentage rounded half up: p − ½ ≤ 100·c/t < p + ½ |
| Progress.PercentFull | checklist/checklistScript.js:61 | for every non-empty checklist, 100% is shown exactly when at least 99.5% of the tasks are done, so always when all are |
| Progress.PercentEmpty | checklist/checklistScript.js:61 | 0% is shown exactly when less than 0.5% of the tasks are done |
| Progress.PercentMonotone | checklist/checklistScript.js:61 | checking more tasks never lowers the percentage |
| Progress.HalfRoundsUp | checklist/checklistScript.js:61 | one task of eight (12.5%) shows as 13% |
| Progress.SectionProgressTextDeterminesCounts | checklist/checklistScript.js:40 | the section label `c/t` determines both counts: equal labels mean equal checked and total counts |
| Progress.ProgressTextDeterminesCounts | checklist/checklistScript.js:63 | the overall text determines the completed and total counts |
| Progress.NothingCheckedText | checklist/checklistScript.js:61-63 | with nothing checked the text reads `0% complete (0/T tasks)` |
| Progress.FourOfSixReads67 | checklist/checklistScript.js:61-63 | four of six tasks read `67% complete (4/6 tasks)` |
| Progress.ReconciledRule | checklist/checklistScript.js:34-73 | after an update: a checked item with no date gets `Completed: <today>`; a checked item keeps its date; an unchecked item loses it; an item has a date iff it is checked; it is `completed` iff checked; the section label is `c/t`; nothing else changes |
| Progress.ReconciledCounts | checklist/checklistScript.js:29-73 | updating progress changes neither the total nor the completed count |
| Progress.ReconcileIdempotent | checklist/checklistScript.js:29-73 | a second update, on any later day, changes nothing: dates already stamped stay |
| Persistence.SavedRecordsPage | checklist/checklistScript.js:79-99 | the snapshot maps every checkbox id to its state, every date span id to its text and every textarea id to its value |
| Persistence.SavedKeys | checklist/checklistScript.js:79-99 | the snapshot has a key exactly for each checkbox, date span and textarea of the page |
| Persistence.LoadedAt | checklist/checklistScript.js:116-152 | after a load each checkbox, date span and note takes the stored value when its id is stored and keeps its own otherwise; labels, titles, progress labels and open sections are untouched |
| Persistence.LoadIgnoresForeignIds | checklist/checklistScript.js:124-149 | stored entries whose ids name no element of the page have no effect on the load |
| Persistence.LoadIgnoresEmptyId | checklist/checklistScript.js:124-149 | a stored entry under the empty id has no effect on the load, as `getElementById("")` finds no element |
| Persistence.LoadRestoresSaved | checklist/checklistScript.js:79-152 | loading a snapshot of a page into any page with the same elements restores every checkbox, date and note |
| Persistence.LoadSavedIsIdentity | checklist/checklistScript.js:79-152 | loading what was just saved leaves the page unchanged |
| Persistence.ClearedAt | checklist/checklistScript.js:158-171 | reset unchecks every box, empties every date and every note, and touches nothing else |
| Persistence.ResetLeavesBlank | checklist/checklistScript.js:154-175 | after a confirmed reset no item is checked, dated or `completed`, every note is empty, and the page keeps its elements |
| Persistence.ResetCountsZero | checklist/checklistScript.js:154-175 | after a confirmed reset nothing is checked, the total is unchanged and the text reads `0% complete (0/T tasks)` |
| Persistence.ResetSnapshotBlank | checklist/checklistScript.js:154-175 | the snapshot re-saved by a reset holds only unchecked flags, empty notes and empty dates, and loading it back gives the reset page |
| Report.TaskLineStatus | checklist/checklistScript.js:200-201 | a task line shows `✓` exactly when the box is checked and `☐` exactly when it is not |
| Report.TaskLineShowsDate | checklist/checklistScript.js:201 | a task line ends in `)` and a newline exactly when the date span is non-empty, and then its last characters are `(` + the date text + `)` |
| Report.NotesBlockIffNotBlank | checklist/checklistScript.js:204-209 | a section's notes appear in the report exactly when the trimmed note is non-empty |
| Report.ReportMarksCountTasks | checklist/checklistScript.js:178-212 | if the page's texts contain no `✓`/`☐`, the report holds exactly one `✓` per checked task and one `☐` per unchecked task |
| Checklist.FindTask | checklist/checklistScript.js:125-126 | `getElementById` over task elements returns the first item with that id, or none when no item has it |
| Checklist.FindNote | checklist/checklistScript.js:135-136 | `getElementById` over textareas returns the first section with that note id, or none when no section has it |
| Checklist.ForEachTask | checklist/checklistScript.js:66-73 | a `forEach` over every checklist item applies the callback to each item in place and changes nothing else |
| Checklist.StampDates | checklist/checklistScript.js:46-57 | the date loop of one section yields the stamped items |
| Checklist.CollectTasks | checklist/checklistScript.js:86-99 | the `forEach` filling `tasks` or `dates` yields the map of every element id to its value |
| Checklist.UpdateSection | checklist/checklistScript.js:34-57 | the callback for one section counts its checked boxes and boxes, writes its `c/t` label and stamps its dates |
| Checklist.UpdateSections | checklist/checklistScript.js:30-58 | the section loop writes each `c/t` label and stamps each date, and its running sums equal the total and completed counts |
| Checklist.ExportSection | checklist/checklistScript.js:188-211 | the text appended for one section is its heading, one line per task, the notes block if any and a blank line |
| Checklist.ToggleOpensAtMostOne | checklist/checklistScript.js:14-27 | toggling flips the target section, closes every other one, leaves at most one open and changes nothing else |
| Checklist.ToggleTwice | checklist/checklistScript.js:14-27 | toggling the same section twice restores it and leaves every other section closed |
| Checklist.Checklist.ToggleSection | checklist/checklistScript.js:14-27 | the page becomes the toggled page |
| Checklist.Checklist.RefreshSections | checklist/checklistScript.js:30-73 | the two loops of updateProgress turn the page into the reconciled page, keep ids unique and return the total and completed counts of the page before the update |
| Checklist.Checklist.UpdateProgress | checklist/checklistScript.js:29-77 | the page becomes the reconciled page; the bar width is the rounded percentage; the text is the progress text of the counts before the update; storage holds the saved page |
| Checklist.Checklist.SaveChecklist | checklist/checklistScript.js:79-101 | storage holds the snapshot of the current page; nothing else changes |
| Checklist.Checklist.ApplyTaskEntries | checklist/checklistScript.js:122-130 | applying the stored checkbox (or date) entries one key at a time gives the loaded page and keeps ids unique |
| Checklist.Checklist.ApplyNotes | checklist/checklistScript.js:132-140 | applying the stored notes one key at a time gives the loaded page and keeps ids unique |
| Checklist.Checklist.LoadChecklist | checklist/checklistScript.js:116-152 | with an empty slot the page is unchanged; otherwise it becomes the loaded page; storage is not written |
| Checklist.Checklist.ResetChecklist | checklist/checklistScript.js:154-176 | when not confirmed nothing changes; when confirmed the page becomes the cleared, reconciled page, it reads 0%, and storage holds that page's snapshot |
| Checklist.Checklist.ExportChecklist | checklist/checklistScript.js:178-212 | the report is the header, the overall progress and one block per section in document order; the page is not modified |
| Checklist.Checklist.Initialize | checklist/checklistScript.js:1-12 | on page load the stored state is loaded and the first section is toggled open; then the page is reconciled, the bar width and progress text are those of that page's counts, and the result is saved |

## Left out

- The DOM itself. Elements are fields of the `Task` and `Section` values. Querying them (`querySelectorAll`, `nextElementSibling`) is indexing into the sequence of sections.
- Element lookups outside the checklist. `getElementById` on a stored key is modelled for checkboxes, date spans and textareas. Page elements outside the checklist (for example a stored date key `progress-text`) are not part of this model.
- Cross-kind writes. A stored key can name an element of another kind (a `tasks` key that is a textarea's id, say). The model skips such keys. In most cases the script then writes a property that element does not display. One case is an exception: a `dates` key that names a textarea. Line 147 then sets the textarea's `textContent`, which replaces its default value. If the stored `notes` did not set that textarea's value first, the textarea shows the stored date text. The next save (line 93) stores that text as the note. The model keeps the note unchanged instead.
- The date element lookup. `updateProgress` finds each item's date span by the id `date-{section}-{item}`. The model takes the span that belongs to the item. It assumes the page's ids follow that pattern.
- JSON. `JSON.stringify`/`JSON.parse` are not modelled: the storage slot holds an already parsed `Snapshot`. A stored text that fails to parse is therefore not modelled.
- Missing snapshot fields. The `if (checklistData.tasks)` guards are not modelled, because a parsed snapshot always has all three maps.
- The "Progress Saved!" button feedback and its `setTimeout` restore (lines 103-109). They are visual only.
- `saveNotes` (lines 112-114) is not modelled separately. It is `saveChecklist` itself.
- The confirmation dialog. `confirm(...)` is a boolean parameter of `ResetChecklist`.
- Line-break normalisation. Setting a textarea's `value` (line 137) turns CR and CRLF into LF when the value is read back. So a stored note containing `\r` is exported and re-saved (line 93) with LF. The model keeps the note as stored. Snapshots the page writes itself are already normalised, so only foreign data is affected.
- Dates. `new Date().toLocaleDateString()` and `toLocaleString()` are string parameters (`today`, `generatedOn`), because locale formatting and the clock are outside the model.
- Floating point. `Math.round(c / t * 100)` is modelled as exact rounding half up of the rational 100·c/t. Double rounding at exact .5 boundaries is not modelled.
- Progress bar CSS. The bar width is kept as a number of percent, not the CSS string `p%`.
- The download. The Blob, object URL, temporary link and the file name `deco-network-checklist-<date>.md` (lines 214-223) are side effects outside the model. Only the report text is modelled.
- Event wiring. Only the `DOMContentLoaded` handler is modelled (as `Initialize`). The click and change handlers in the page markup are not part of this model.
