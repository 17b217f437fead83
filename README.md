# RFID assignment and attendance, modelled in Dafny

This project models the logic of the Rfid_Assign school front end in three parts.

**Assignment sequencer** (`src/pages/RfidAssignPage.jsx`, and its copy `src/pages/RfidAssignDummy.jsx`)
- The page holds a roster of students, a cursor (`currentIndex`) on the next student to receive a card, the set of codes in use (`assignedRfids`), the scan input and the status banner.
- Loading a fetched roster sets the flags, the cursor and the set.
- Pressing Enter on a scanned code runs the guards of `assignRfid` in order, asks the backend, and on success writes the code onto the student at the cursor. The cursor then moves to the next student without a card.
- Removing a card asks the backend, clears the student, drops the code from the set, and puts the cursor on that student.

**Attendance desk** (`src/pages/RfidAttendanceDummy.jsx`)
- A map records who is inside. A mode is either "in" or "out".
- A scan of a known card marks an entry or an exit, or refuses one that would not change where the student is.

**Report page** (`src/pages/RfidAttendanceReport.jsx`)
- The filter form's update.
- The CSV text the export builds.
- The six academic-year choices.

## Module layout

**`Wrappers`, `Backend`, `Text`**: shared pieces.
- `Option`.
- A backend reply, `Answered(success, message)` or `Threw`, which stands for a call that threw.
- JavaScript's `trim`, `join` and `split` over `seq<char>`.

**`AssignPage`**: the roster datatypes and a pure step function per handler.
- `Loaded`, `Assign`, `Scan`, `Remove`, `StatsOf`, `Percent`.
- The `while` loop of the cursor advance, as method `Advance`, proved equal to `NextUnassigned`.
- Class `Sequencer`. Its fields are the page's state variables, and each method's new state is the matching step function's result.

**`AssignProps`**: what the handlers promise.
- The load, guard, success and failure behaviour.
- The page invariant `Consistent`: flags agree with codes, codes are distinct, the set is exactly the held codes, and the cursor is on an unassigned student or at the end. Assign keeps it. Remove keeps it when it is called as the table calls it: with the code the student holds, on a roster whose ids are distinct.
- The assign-then-remove round trip.
- The stats and progress bounds.

**`AssignDummy`**: the in-page mock `apiService` of the dummy page and what it implies. The dummy's handlers, `stats` (`src/pages/RfidAssignDummy.jsx:182-186`) and progress percentage (`src/pages/RfidAssignDummy.jsx:316-318`) are the same expressions as the page's. They are modelled once, in `AssignPage`.

**`Attendance`**: the pure `ScanStep`, class `Desk` (the page state, with `HandleScan` and `ToggleMode`), and the lemmas about in/out transitions.

**`Report`**: the CSV text, the lemmas on reading it back, the `YearOptions` loop, and class `ReportPage` with `HandleChange`.

### Behaviour kept as written

- **Load cursor.** When every fetched student already has a code, the load effect puts the cursor on 0, not past the end.
  - `LoadAllAssignedThenAssignOverwrites` shows the consequence. A following successful assign overwrites student 0's code, while the old code stays in the used set.
- **Blank check versus stored code.** The blank check of `handleScan` trims the input, but `assignRfid` compares and stores the untrimmed input (`ScanStoresUntrimmed`). A code typed with surrounding spaces therefore passes the duplicate check even when another student holds the trimmed code (`ScanUntrimmedDuplicate`).
- **Inherited keys.** `activeStudents[code]` is a lookup on a plain object. A code that names a member of `Object.prototype`, such as "constructor", reads as inside before any scan (`InheritedNameCountsInside`).
- **Remove without a match check.** Remove drops the code it is given from the set whether or not the student held that code.
- **No CSV quoting.** CSV values are written without quoting. A comma or line break inside a value shifts columns or lines (`RowSplitsIntoFields`, `CommaInNameShiftsColumns`). That is the behaviour of the code; quoting as in section 2 of RFC 4180 is not done.

## Model

| member | source | states |
|---|---|---|
| Backend.FailureMessage | src/pages/RfidAssignPage.jsx:103-107 | `res.message \|\| fallback`: the backend's message when it answered with a non-empty one, otherwise the fallback; never empty when the fallback is not |
| Text.Trim | src/pages/RfidAssignPage.jsx:76 | `trim()` never lengthens its input, and the result neither starts nor ends with white space |
| Text.TrimIdempotent | src/pages/RfidAssignPage.jsx:76 | trimming an already trimmed code changes nothing |
| Text.TrimStart | src/pages/RfidAssignPage.jsx:76 | the result is a suffix of the input, everything dropped is white space, and it does not start with white space |
| Text.TrimEnd | src/pages/RfidAssignPage.jsx:76 | the result is a prefix of the input, everything dropped is white space, and it does not end with white space |
| Text.TrimEmptyIffAllWhite | src/pages/RfidAssignPage.jsx:76 | `!rfid.trim()` holds exactly when the input is white space only (both directions) |
| Text.Join | src/pages/RfidAttendanceReport.jsx:40-43 | `join` of a non-empty list starts with the first part |
| Text.Split | src/pages/RfidAttendanceReport.jsx:43 | splitting always yields at least one piece |
| Text.SplitJoin | src/pages/RfidAttendanceReport.jsx:36-43 | splitting on the separator undoes the join when no part contains it |
| Text.CountJoin | src/pages/RfidAttendanceReport.jsx:43 | a join holds the parts' own separators plus exactly one between each pair of neighbours |
| Text.SplitCount | src/pages/RfidAttendanceReport.jsx:43 | a split yields one piece more than there are separators |
| AssignPage.FirstUnassigned | src/pages/RfidAssignPage.jsx:54 | `findIndex(s => !s.rfid)`: -1 when every row has a code, otherwise the first row with an empty code |
| AssignPage.Flagged | src/pages/RfidAssignPage.jsx:52 | one student per fetched row, with its id, name and code, flagged assigned exactly when the code is non-empty |
| AssignPage.UsedCodes | src/pages/RfidAssignPage.jsx:57 | the set holds exactly the non-empty codes that some fetched row carries |
| AssignPage.Loaded | src/pages/RfidAssignPage.jsx:51-57 | the loaded roster has one student per row, keeps the scan input, and its cursor is a valid index or 0 |
| AssignPage.NextUnassigned | src/pages/RfidAssignPage.jsx:97-99 | the least index at or after `from` whose student is unassigned, or the length; all students in between are assigned |
| AssignPage.Advance | src/pages/RfidAssignPage.jsx:97-98 | the `while` loop that skips assigned students returns NextUnassigned |
| AssignPage.Assign | src/pages/RfidAssignPage.jsx:81-111 | assign keeps the roster length and never drops a used code; when it changes anything the backend succeeded and the set gained exactly the input |
| AssignPage.Scan | src/pages/RfidAssignPage.jsx:74-79 | a key other than Enter changes nothing and shows nothing; a change needs Enter, an input that is not all white space, and a backend success |
| AssignPage.Cleared | src/pages/RfidAssignPage.jsx:119 | every student with the id loses its code and flag and keeps its id; every other student is unchanged |
| AssignPage.IndexOfId | src/pages/RfidAssignPage.jsx:128 | `findIndex(s => s.id === id)`: -1 when no student has the id, otherwise the first student that has it |
| AssignPage.Remove | src/pages/RfidAssignPage.jsx:113-141 | remove keeps the roster length and the input and never adds a code; with an id and a backend success the given code leaves the set; without both nothing changes |
| AssignPage.CountAssigned | src/pages/RfidAssignPage.jsx:145 | the assigned count is at most the roster length |
| AssignPage.CountPending | src/pages/RfidAssignPage.jsx:146 | the pending count is the roster length less the assigned count |
| AssignPage.StatsOf | src/pages/RfidAssignPage.jsx:143-147 | the total is the roster length, and assigned plus pending equals the total |
| AssignPage.Percent | src/pages/RfidAssignPage.jsx:152 | 0 for an empty roster; otherwise the integer nearest to 100·count/total, halves rounded up |
| AssignPage.Progress | src/pages/RfidAssignPage.jsx:149-152 | 0 for an empty roster; otherwise within half a point of 100·assigned/total |
| AssignPage.Sequencer.constructor | src/pages/RfidAssignPage.jsx:16-20 | the page starts with no students, cursor 0, no codes, empty input and no banner |
| AssignPage.Sequencer.Edit | src/Components/rfidAssign/AssignInput.jsx:34 | the input's onChange replaces the scan text |
| AssignPage.Sequencer.Load | src/pages/RfidAssignPage.jsx:46-63 | a resolved fetch leaves the state Loaded describes, keeping the input and banner; a failed fetch changes nothing but shows "Failed to load students" |
| AssignPage.Sequencer.AssignRfid | src/pages/RfidAssignPage.jsx:81-111 | the guards, the backend call and the update in place leave the state and banner Assign describes |
| AssignPage.Sequencer.HandleScan | src/pages/RfidAssignPage.jsx:74-79 | Enter with blank input shows "Please scan RFID first"; other Enter presses run AssignRfid; other keys do nothing |
| AssignPage.Sequencer.HandleRemoveRfid | src/pages/RfidAssignPage.jsx:113-141 | the new state and banner are those Remove describes |
| AssignPage.Sequencer.Stats | src/pages/RfidAssignPage.jsx:143-147 | the stats total is the roster length |
| AssignProps.LoadedFlags | src/pages/RfidAssignPage.jsx:52 | after load each student keeps its fetched row and is flagged assigned exactly when its code is non-empty |
| AssignProps.LoadedCursor | src/pages/RfidAssignPage.jsx:54-55 | after load the cursor is the first row without a code, or 0 when every row has one (including an empty roster) |
| AssignProps.LoadedCodes | src/pages/RfidAssignPage.jsx:57 | after load the used set is exactly the non-empty codes of the roster, which are the codes the students hold |
| AssignProps.LoadedConsistentIff | src/pages/RfidAssignPage.jsx:52-57 | a loaded roster keeps the page invariant exactly when its codes are distinct and it is empty or has a row without a code |
| AssignProps.LoadAllAssignedThenAssignOverwrites | src/pages/RfidAssignPage.jsx:55 | with every row coded the cursor is 0, and a successful assign overwrites student 0's code, leaving the old code in the set and breaking the invariant |
| AssignProps.AssignRejections | src/pages/RfidAssignPage.jsx:82-84 | the guards in order: empty code silent, a code in use "RFID c is already assigned", cursor past the end "All students are already assigned", then a backend failure its message; none changes the state |
| AssignProps.AssignChangesOnlyOnSuccess | src/pages/RfidAssignPage.jsx:81-111 | assign changes the state exactly when all guards pass and the backend succeeds, and then the banner is a success |
| AssignProps.AssignSuccess | src/pages/RfidAssignPage.jsx:91-101 | a successful assign writes the code onto the student at the cursor and leaves every other student alone; it adds exactly that code to the set and clears the input; the new cursor is the next unassigned index after the old one, or the length |
| AssignProps.AssignCountsOneMore | src/pages/RfidAssignPage.jsx:91-93 | on a consistent roster a successful assign marks exactly one more student |
| AssignProps.CountAssignedUpdate | src/pages/RfidAssignPage.jsx:145 | replacing one student changes the assigned count by the difference of the two flags |
| AssignProps.AssignPreservesConsistent | src/pages/RfidAssignPage.jsx:81-111 | assign keeps the page invariant |
| AssignProps.ScanBlankRefused | src/pages/RfidAssignPage.jsx:76 | Enter on white-space-only input shows "Please scan RFID first" and changes nothing |
| AssignProps.ScanStoresUntrimmed | src/pages/RfidAssignPage.jsx:76-94 | a non-blank input goes to assign untrimmed: the stored code and the added set member are the input as typed |
| AssignProps.ScanUntrimmedDuplicate | src/pages/RfidAssignPage.jsx:76-94 | on a consistent roster, when another student holds the trimmed form of the input, a successful scan leaves two students holding different codes that trim to the same card |
| AssignProps.RemoveSuccess | src/pages/RfidAssignPage.jsx:119-129 | a successful remove clears the students with that id and leaves the others alone; the given code leaves the set; the cursor goes to the first student with the id, or stays when there is none |
| AssignProps.BackendFailureChangesNothing | src/pages/RfidAssignPage.jsx:103-137 | a failed or throwing backend call leaves students, set and cursor unchanged in assign and in remove, and shows one error message |
| AssignProps.RemovePreservesConsistent | src/pages/RfidAssignPage.jsx:113-129 | removing a held code from its student, as the table's Remove button does, keeps the page invariant |
| AssignProps.AssignThenRemove | src/pages/RfidAssignPage.jsx:89-129 | assigning a fresh code at the cursor and then removing it from that student restores the students, the set and the cursor |
| AssignProps.CountAssignedBounds | src/pages/RfidAssignPage.jsx:145 | the assigned count is at most the roster length, and equals it when every student is assigned |
| AssignProps.PercentBounds | src/pages/RfidAssignPage.jsx:152 | for a count within the total the percentage lies in [0, 100], and is 100 when all are counted |
| AssignProps.ProgressBounds | src/pages/RfidAssignPage.jsx:149-152 | the progress bar reads 0 for an empty roster, lies in [0, 100], and reads 100 when every student is assigned |
| AssignDummy.MockAssign | src/pages/RfidAssignDummy.jsx:28-35 | the mock assign fails exactly on the code "0000", and then the banner text is "RFID cannot be 0000" |
| AssignDummy.MockRemove | src/pages/RfidAssignDummy.jsx:36-39 | the mock remove always succeeds |
| AssignDummy.MockStudents | src/pages/RfidAssignDummy.jsx:21-27 | five rows with distinct ids and no codes |
| AssignDummy.DummyScan | src/pages/RfidAssignDummy.jsx:109-147 | with the mock backend a scan changes the state only on Enter with an input other than "0000", and then the input is in the used set |
| AssignDummy.DummyRemove | src/pages/RfidAssignDummy.jsx:150-168 | with the mock backend a remove with an id always drops the given code from the set |
| AssignDummy.Scan0000NeverChanges | src/pages/RfidAssignDummy.jsx:116-143 | scanning "0000" never changes the state, and once the guards pass it shows "RFID cannot be 0000" |
| AssignDummy.DummyScanStores | src/pages/RfidAssignDummy.jsx:109-137 | any other non-blank fresh code is stored as typed on the student at the cursor; the set gains it; the cursor ends at the length or on an unassigned student |
| AssignDummy.DummyScanBlank | src/pages/RfidAssignDummy.jsx:109-114 | Enter on white-space-only input shows "Please scan RFID first" and does not attempt an assignment |
| AssignDummy.DummyRemoveAlwaysApplies | src/pages/RfidAssignDummy.jsx:150-168 | removal always goes through: the student is cleared and the cursor moves to it; the given code leaves the set even if the student held another code |
| AssignDummy.DummyAssignThenRemove | src/pages/RfidAssignDummy.jsx:121-168 | with the mock backend, scan then remove on the same student restores the students, the set and the cursor |
| AssignDummy.MockRosterLoads | src/pages/RfidAssignDummy.jsx:21-27 | the five mock students load with the cursor on the first, no codes, nothing assigned, 0 % progress and the invariant in place |
| Attendance.Flip | src/pages/RfidAttendanceDummy.jsx:154 | the toggle always changes the mode |
| Attendance.FindSaved | src/pages/RfidAttendanceDummy.jsx:36 | `saved.find(...)`: nothing exactly when no saved entry has the code, otherwise the first entry that has it |
| Attendance.IsInside | src/pages/RfidAttendanceDummy.jsx:39 | `activeStudents[code] \|\| false`: an own entry decides; a code without one is inside exactly when it names an inherited member of `Object.prototype` |
| Attendance.ScanStep | src/pages/RfidAttendanceDummy.jsx:27-89 | Enter is ignored exactly when the trimmed input is empty; a scan adds at most the trimmed code to the map's keys; a failed storage read gives "Local storage error" and changes nothing |
| Attendance.Desk.constructor | src/pages/RfidAttendanceDummy.jsx:12-21 | the desk starts in mode "in" with nobody inside, empty input and no card |
| Attendance.Desk.Edit | src/pages/RfidAttendanceDummy.jsx:174 | the input's onChange replaces the scan text |
| Attendance.Desk.HandleScan | src/pages/RfidAttendanceDummy.jsx:27-89 | another key, or Enter on blank input, changes nothing; otherwise the map and card are those ScanStep gives, the input is cleared whatever the outcome, and the mode is kept |
| Attendance.Decide | src/pages/RfidAttendanceDummy.jsx:34-83 | a non-blank scan always shows a card; a known code is marked exactly when its inside state differs from the mode, and then only its entry is set to the mode's side; otherwise the map is kept |
| Attendance.Desk.Mark | src/pages/RfidAttendanceDummy.jsx:34-83 | the lookup and in/out branches update the map in place and set the card as Decide says |
| Attendance.Desk.ToggleMode | src/pages/RfidAttendanceDummy.jsx:154 | the mode button flips the mode |
| Attendance.BlankScanIgnored | src/pages/RfidAttendanceDummy.jsx:29 | Enter does nothing exactly when the input is white space only |
| Attendance.UnknownCodeRefused | src/pages/RfidAttendanceDummy.jsx:35-80 | a trimmed code that no saved entry carries gives "RFID not recognized" and leaves the map unchanged |
| Attendance.InModeScan | src/pages/RfidAttendanceDummy.jsx:39-58 | in mode "in" a known code that is outside (a false entry, or no entry and not an inherited member name) is marked in and becomes inside; one already inside gets "already inside" and the map stays |
| Attendance.OutModeScan | src/pages/RfidAttendanceDummy.jsx:59-76 | in mode "out" a code that is inside is marked out and becomes outside; one not inside gets "already outside" and the map stays |
| Attendance.ScanFlipsAtMostOne | src/pages/RfidAttendanceDummy.jsx:38-77 | the map changes exactly when a student is marked, then only the trimmed code's entry flips, to the mode's side; every other entry is unchanged |
| Attendance.RepeatScanRefused | src/pages/RfidAttendanceDummy.jsx:41-76 | a second scan of the same card in the same mode is refused and leaves the map as the first left it |
| Attendance.InThenOut | src/pages/RfidAttendanceDummy.jsx:41-76 | scan in, toggle, scan again: the student is marked out and the code's entry ends false |
| Attendance.InheritedNameCountsInside | src/pages/RfidAttendanceDummy.jsx:39-47 | a card saved under the code "constructor" is refused as already inside on an empty map |
| Report.OutText | src/pages/RfidAttendanceReport.jsx:40 | `r.outTime \|\| ""`: empty exactly when the exit time is missing or empty, otherwise the exit time |
| Report.Fields | src/pages/RfidAttendanceReport.jsx:40 | a row has one value per header column |
| Report.Header | src/pages/RfidAttendanceReport.jsx:36 | the header reads back as the eight column titles and holds no line break |
| Report.HeaderReadsBack | src/pages/RfidAttendanceReport.jsx:36 | joining the column titles with commas loses nothing and stays on one line |
| Report.Row | src/pages/RfidAttendanceReport.jsx:40 | a row holds the seven separators plus every comma inside a value |
| Report.Rows | src/pages/RfidAttendanceReport.jsx:38-41 | `report.map(...)`: one row per record, in order |
| Report.Lines | src/pages/RfidAttendanceReport.jsx:36-42 | the lines are the header followed by one row per record in report order |
| Report.Csv | src/pages/RfidAttendanceReport.jsx:34-43 | the text starts with the data-URI prefix and then the header; an empty report gives just those |
| Report.CsvLines | src/pages/RfidAttendanceReport.jsx:34-43 | with no line break inside a value, splitting the text on line breaks gives the header and then each row: report length + 1 lines and report length line breaks |
| Report.RowFree | src/pages/RfidAttendanceReport.jsx:40 | a row contains no character other than the comma separator unless one of its values does |
| Report.RowSplitsIntoFields | src/pages/RfidAttendanceReport.jsx:40 | splitting a row on commas yields 8 pieces plus one per comma inside a value, and gives back the eight values exactly when no value contains a comma |
| Report.CommaInNameShiftsColumns | src/pages/RfidAttendanceReport.jsx:40 | a name such as "Doe, Jane" makes the row split into nine columns |
| Report.YearOptions | src/pages/RfidAttendanceReport.jsx:55-64 | six years, from the current year downwards, each one less than the previous |
| Report.WithField | src/pages/RfidAttendanceReport.jsx:17 | the object spread sets the named field to the value, adds no other key, and keeps every other field |
| Report.ReportPage.constructor | src/pages/RfidAttendanceReport.jsx:5-12 | the form starts with the five filter fields empty and no report |
| Report.ReportPage.HandleChange | src/pages/RfidAttendanceReport.jsx:16-18 | the filters become WithField of the old filters |
| Report.ChangeKeepsFields | src/pages/RfidAttendanceReport.jsx:5-17 | changing one of the form's own fields keeps the same set of fields |

## Left out

- Network and storage I/O are not modelled. This covers `fetch`, `src/api/assign.js`, `localStorage`/`JSON.parse`, and the attendance page's POST. Each backend call is a `Reply` parameter. A storage read in the attendance desk is an `Option` of the saved list, where None stands for a read that threw.
- The classes/sections/sessions fetch and the selection guard that triggers a student fetch are not modelled. They are selection plumbing; a student fetch is the `Load` input.
- Timers and the time of day are not modelled: focus timers, the banner and card auto-dismiss, and the report's fake delay. The scan time is an opaque string input.
- `isLoading`, the initial `Promise.all`, and React's batching of state updates are not modelled. Each handler is one atomic step from the state before it to the state after it completes.
- The browser download (`encodeURI`, anchor creation, click) is not modelled. `Csv` is the text before encoding.
- `fetchReport`, which only copies the stored log into the table after a delay, is not modelled.
- All rendering is left out: the components under `src/Components`, `src/App.jsx`, `renderCard`, the status styling, and the `<option>` elements. The one exception is the rule that the table offers Remove only for a student with a code, which appears as the precondition of `RemovePreservesConsistent`.
- Field values are modelled as strings. A missing or null `rfid` is the empty string, which is falsy like it. A record field other than `outTime` that is missing would print as "undefined" in the CSV; the model assumes those fields are present. Numeric `roll` values are strings.
- AssignPage.Percent: computes round-half-up of the exact ratio 100·count/total. The source computes `Math.round` over floating-point `count / total * 100`, which for some ratios (such as 29 of 200, 14.4999…) rounds the other way; floating point is not modelled.
- Attendance.ScanStep: a saved list that parses but is not an array of objects would make `find` or `item.rfid` throw into the same "Local storage error" branch. The model only has the whole read failing (None).
- Prototype members that other scripts or non-standard engines add are not modelled. `Attendance.Inherited` covers the twelve members of `Object.prototype` in standard engines.
