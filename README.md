# Student union dashboard: record-management model

This project models the record-keeping core of a browser dashboard for a
student union (`StudentUnionApp` in `script.js`). The dashboard keeps members,
events, elections, an audit log and a notification feed in local storage.
Here each stored collection is a field of the class `App.StudentUnionApp`, and
each save is an assignment to that field. Form inputs, `confirm`/`prompt`
answers, `Date.now()` ids and clock readings are parameters of the handlers.

Modules, one per component:

- `Lists`: `find` (`IndexOf`) and `filter` (`Filter`) on arrays, order-preserving subsequences, distinct keys.
- `Text`: `toLowerCase`, `includes`, `split` on one separator character, and `join` as its inverse.
- `Roster`: the member record, the members-table search filter, and the delete, edit and CSV-import edits.
- `Activities`: events and elections, the events-grid filter, numbering by `length + 1`, and the RSVP and vote counters.
- `Paging`: five members per page and `Math.ceil(total / 5)` pages.
- `Audit`: the newest-first audit log, capped at 100 entries.
- `Feed`: notifications, marking one read, and the unread badge count.
- `Session`: the current user, the admin-role test and the fixed login credentials.
- `App`: the `StudentUnionApp` class, whose methods are the handlers that change state.

The model follows the code in these respects:

- Only delete is role-gated in an operation. It runs only for a confirmed click by a user whose role is `admin`.
- The other role checks (`script.js` lines 383, 445, 789) decide only whether a form opens, and the check at lines 877-879 disables every `.btn-primary` button for a non-admin at start-up. `UpdateMember`, `AddNewMember`, `AddNewEvent`, `ImportCsv`, `Rsvp` and `VoteElection` have no role check.
- Login accepts only `admin`/`demo123`. It renames the user, leaves the role unchanged and logs the login.
- The CSV import never looks for ids that are already present (`Roster.ImportIgnoresDuplicates`).
- A repeated delete of the same id is a no-op, not an error.
- `voteElection` does not check the election's status. Only the rendering offers a Vote button, and only for an election whose status is `Active` (line 747).
- RSVP or vote on an unknown id makes the source throw before it saves anything. The model returns `ok == false` and changes nothing.

## Model

| member | source | states |
|---|---|---|
| `Lists.IndexOf` | script.js:430 | the first position holding the key, or none exactly when the key is absent (`Array.prototype.find`) |
| `Lists.Filter` | script.js:339-342 | the kept elements all satisfy the predicate and are no more than the input |
| `Lists.FilterIsSubsequence` | script.js:400 | a filter's result is an order-preserving subsequence of its input |
| `Lists.FilterCount` | script.js:587-590 | each element is kept as often as it occurs in the input if the predicate accepts it, otherwise never |
| `Lists.FilterKeepsAll` | script.js:339-342 | a predicate that accepts everything returns the input unchanged |
| `Lists.FilterEmptyIff` | script.js:195 | a filter returns nothing exactly when it accepts no element |
| `Text.ToLower` | script.js:337 | same length; every ASCII capital becomes its lower-case letter (code + 32), every other character stays |
| `Text.IncludesIffOccurs` | script.js:340 | `includes` holds exactly when the search text occurs at some position |
| `Text.Split` | script.js:527 | `split` yields at least one piece and no piece contains the separator |
| `Text.JoinSplit` | script.js:525 | joining the pieces of a split gives back the text |
| `Text.SplitJoin` | script.js:527 | splitting a join of separator-free pieces gives back the pieces |
| `Text.SplitFirstEmpty` | script.js:528 | the first piece is empty exactly when the text is empty or starts with the separator |
| `Text.SplitPieces` | script.js:525 | `split` yields one more piece than the text has separators |
| `Text.SplitJoinThen` | script.js:527 | splitting separator-free pieces joined and followed by a separator and more text gives the pieces, then the pieces of that text |
| `Roster.FilteredMembersSpec` | script.js:336-343 | the member filter keeps, in order and with multiplicity, exactly the members whose lower-cased name or id contains the lower-cased search and whose status equals a non-empty status filter |
| `Roster.UnfilteredMembers` | script.js:337-342 | an empty search and an empty status filter return the member list unchanged |
| `Roster.AddKeepsIdsUnique` | script.js:465-469 | appending a member with a new id keeps ids unique, and that id then occurs exactly once |
| `Roster.WithoutIdSpec` | script.js:400 | delete removes every member with the id and keeps every other member, in order and with multiplicity |
| `Roster.DeleteTwice` | script.js:400 | deleting the same id again changes nothing |
| `Roster.DeleteKeepsIdsUnique` | script.js:400 | delete keeps ids unique |
| `Roster.UpdatedMembersSpec` | script.js:429-435 | edit is a no-op for an unknown id; otherwise only the first member with the id changes, and only in name, dept, status and join date, so ids stay unchanged |
| `Roster.UpdateKeepsIdsUnique` | script.js:429-435 | edit keeps ids unique |
| `Roster.MemberLifecycle` | script.js:456-470 | a new member edited to Inactive is listed by the Inactive filter, is gone after delete, and a second delete changes nothing |
| `Roster.CsvRowAsWritten` | script.js:527 | destructuring gives five columns; column k is defined exactly when the row has at least k commas, and then it is the row's k-th comma-separated piece |
| `Roster.ShortRowImportedWithoutName` | script.js:527-529 | a non-empty row with no comma passes the id test while its name column is undefined |
| `Roster.ParseCsvRow` | script.js:527-529 | a row that is read gives a member with a non-empty id and no photo |
| `Roster.ParseCsvRowColumns` | script.js:527-529 | a row is read exactly when its destructured id is non-empty; each column is the destructured one where that is defined and "" where it is undefined, and none holds a comma |
| `Roster.ShortRowPadded` | script.js:527-529 | a non-empty row with no comma reads as a member with that id and every other column empty |
| `Roster.ExtraColumnsIgnored` | script.js:527 | columns after the fifth are ignored: a member's row followed by more columns reads back as that member |
| `Roster.ParseCsvRowSkips` | script.js:528 | a row is skipped exactly when it is empty or starts with a comma |
| `Roster.CsvRowRoundTrip` | script.js:527-529 | a member with a non-empty id, no photo and no comma in any column reads back unchanged from its CSV row |
| `Roster.ImportedMembers` | script.js:526-531 | the import adds at most one member per row; the member of every row that is read is added, and every added member is the member of some row |
| `Roster.ImportedMembersAppend` | script.js:526-531 | importing two batches of rows in turn is importing them together, so rows are imported in order |
| `Roster.CsvDataRowsSpec` | script.js:525 | the data rows are one per line break, hold no line break, and with the header line before them joined by line breaks they are the file's text |
| `Roster.ImportIgnoresDuplicates` | script.js:525-529 | a file whose one data line is a member already on the roster imports that member again, leaving its id twice |
| `Activities.FilteredEventsSpec` | script.js:584-591 | the event filter keeps, in order and with multiplicity, exactly the events whose lower-cased title contains the lower-cased search and whose type equals a non-empty type filter |
| `Activities.UnfilteredEvents` | script.js:585-590 | an empty search and an empty type filter return the event list unchanged |
| `Activities.NumberingExtends` | script.js:885 | appending id `length + 1` to ids numbered 1..n gives ids numbered 1..n+1 |
| `Activities.NumberedLookup` | script.js:598 | with ids numbered 1..n, looking up k finds position k-1 exactly when 1 <= k <= n |
| `Activities.DefaultsNumbered` | script.js:13-21 | the built-in events and elections are numbered 1..n |
| `Activities.TotalAfterIncrement` | script.js:599 | raising one counter by one raises the total by exactly one |
| `Activities.RsvpedSpec` | script.js:597-599 | RSVP fails exactly for an unknown id; otherwise only the first event with the id changes, gaining one attendee, so total attendance rises by one |
| `Activities.VotedSpec` | script.js:757-759 | vote fails exactly for an unknown id; otherwise only the first election with the id changes, gaining one voter, so the total rises by one |
| `Activities.CandidateList` | script.js:815 | one candidate more than the text has commas, none holding a comma, and joined with commas they are the prompt text |
| `Paging.TotalPages` | script.js:346 | the page count is the least number of five-member pages that holds the total |
| `Paging.PageOf` | script.js:313-315 | a page holds at most five members, the ones at positions (page-1)*5 onward of the filtered list |
| `Paging.PageNonEmptyIff` | script.js:313-315 | a page is non-empty exactly when its number is at most the page count |
| `Paging.PagesCoverList` | script.js:311-315 | pages 1..page count laid end to end are exactly the filtered list |
| `Audit.Recorded` | script.js:672-676 | after recording, the log has at most 100 entries, the new entry first, then the old log's first min(n, 99) entries in order |
| `Audit.ReplayKeepsNewest` | script.js:674-675 | after one or more records the log is the first 100 of all entries, newest first, followed by the old log |
| `Audit.ReplayFullWindow` | script.js:674-675 | after 100 or more records the log is exactly the last 100 recorded, newest first |
| `Feed.UnreadCount` | script.js:195 | the badge count is at most the number of notices and zero exactly when every notice is read |
| `Feed.PostedSpec` | script.js:190-195 | posting puts one unread notice in front of the old ones and raises the unread count by one |
| `Feed.UnreadCountAfterSet` | script.js:195 | replacing one notice changes the unread count only by the read flags of the old and new notice |
| `Feed.MarkedReadSpec` | script.js:210-215 | mark-read is a no-op for an unknown id; otherwise only the first notice with the id changes, to read, and the unread count never rises |
| `Feed.MarkReadTwice` | script.js:211-212 | marking the same id read twice is marking it once |
| `App.DefaultMembersUnique` | script.js:4-12 | the built-in roster has unique ids |
| `App.StudentUnionApp.constructor` | script.js:3-26 | each collection is the stored value or its default; page 1, badge count 0; the defaults have unique member ids and events and elections numbered 1..n |
| `App.StudentUnionApp.LogAudit` | script.js:672-677 | the log becomes `Recorded` of the old log and an entry under the current user's name, at most 100 entries |
| `App.StudentUnionApp.Login` | script.js:77-91 | succeeds exactly on admin/demo123; then renames the user, keeps the role and logs the login; otherwise nothing changes; a login never grants or removes admin rights |
| `App.StudentUnionApp.AddNotification` | script.js:189-196 | the feed gains an unread notice in front and the badge count becomes the old unread count plus one |
| `App.StudentUnionApp.MarkNotifRead` | script.js:209-216 | the feed becomes `MarkedRead` of the old feed and the badge count is its unread count, never above the old one |
| `App.StudentUnionApp.ShownMembers` | script.js:311-315 | the table shows the filtered members from position (page-1)*5: five of them, or the rest on the last page, and none exactly past the last page |
| `App.StudentUnionApp.PrevPage` | script.js:353-358 | goes back one page only from a page above 1, so the page stays at least 1 |
| `App.StudentUnionApp.NextPage` | script.js:360-366 | goes forward one page only while the page is below the page count of the filtered members; a page within range stays within range |
| `App.StudentUnionApp.ResetMembersPage` | script.js:777-785 | a new search or status filter returns to page 1 |
| `App.StudentUnionApp.DeleteMemberClicked` | script.js:396-405 | only a confirmed click by an admin removes the members with the id and logs it, keeping ids unique; otherwise nothing changes |
| `App.StudentUnionApp.UpdateMember` | script.js:429-441 | the roster becomes `UpdatedMembers` of the old one with ids unchanged; the edit is logged only when the id exists |
| `App.StudentUnionApp.AddNewMember` | script.js:456-475 | a taken id changes nothing; otherwise exactly one member is appended with no photo and logged, keeping ids unique |
| `App.StudentUnionApp.ImportCsv` | script.js:524-536 | the roster gains the imported members of every line after the header, in order, and the upload is logged under the file name |
| `App.StudentUnionApp.AddNewEvent` | script.js:882-899 | appends an event numbered old length + 1 with 0 attendees, keeps ids numbered 1..n, and logs it |
| `App.StudentUnionApp.CreateElection` | script.js:806-823 | with a non-empty title and candidate text, appends a Pending election numbered old length + 1 with 0 voters, keeps numbering, and logs it; otherwise nothing changes |
| `App.StudentUnionApp.Rsvp` | script.js:596-605 | for a known id the events become `Rsvped` of the old ones, attendance rises by one, and the RSVP is logged with the event's title; otherwise nothing changes |
| `App.StudentUnionApp.VoteElection` | script.js:757-764 | for a known id the elections become `Voted` of the old ones, voters rise by one, and the vote is logged with the election's title; otherwise nothing changes |

## Findings

| source | as written | input that shows it | evidently intended | confidence | as-written member | corrected member |
|---|---|---|---|---|---|---|
| script.js:527-529 | a CSV row with fewer than five comma-separated columns passes `if (id)`, and its missing columns are stored as `undefined`. A one-column row leaves `name` undefined, so the members filter throws on `m.name.toLowerCase()` (line 340). A two- or three-column row leaves `status` undefined, so the table throws on `member.status.toLowerCase()` (line 322) when the row is on the page shown. A four-column row only shows "undefined" as its join date. When `renderMembersTable` (line 533) throws, the members are already saved but the `upload_csv` audit entry (line 535) is never written. Once a one-column row is stored, every later `renderMembersTable` throws at line 340 too: add (472), edit (438) and delete (402) save their change but never reach their audit entries (474, 440, 404), and on reload `renderAllSections` (722) stops before the events and elections are drawn | a data line `1234/16` | every imported member has all five fields defined; missing columns read as empty strings, as the photo field already is | high; not executed | `Roster.ShortRowImportedWithoutName` | `Roster.ShortRowPadded` |

`Roster.CsvRowAsWritten` models the destructuring as written. `Roster.ParseCsvRow` is the corrected reading, and `App.StudentUnionApp.ImportCsv` uses it. `Roster.ParseCsvRowColumns` ties the two together for rows of any length, and `Roster.CsvRowRoundTrip` covers full five-column rows.

## Left out

- Rendering and presentation are left out: HTML templates, modals, toasts, charts, confetti, dark mode, navigation, tabs, welcome/profile text and the pagination button states. Apart from the audit entries in the next line, they change none of the modelled state.
- The audit entries written by navigation (line 129), the theme toggle (line 163), logout (line 144), PDF export (line 560) and the profile form (line 855) are left out with their handlers. Each would be a `LogAudit` call, and like any entry it can push the oldest one out of the 100-entry log.
- `loadData`/`saveData` are left out. JSON encoding and local storage are replaced by fields, and the constructor takes what was stored as `Stored`.
- Logout is left out. It clears the whole browser storage (`localStorage.clear()`) but leaves the in-memory collections in place, and that interplay with storage is not modelled.
- The profile form (renaming the current user) is left out. It is not part of the record-keeping core.
- The periodic random notification, the clock, the counter animation and the random "events attended" figures are left out, because they depend on timers, randomness or floating point. Notification ids and timestamps are parameters.
- Drag-and-drop reordering is left out, because it depends on on-screen geometry.
- PDF export, photo upload, the `FileReader` plumbing and service-worker registration are left out as external I/O. The CSV import starts from the file's text.
- The contradictory rewiring of the add-event button (lines 799-803) is left out. `AddNewEvent` is modelled directly.
- The modal-opening role checks (lines 383, 445, 789) and the start-up disabling of `.btn-primary` buttons for non-admins (lines 877-879) are left out. They only decide whether a form or button is offered. `Session.IsAdmin` is the test they make, and it is modelled where it gates an operation (delete).
- Text.ToLower: lower-cases only ASCII A-Z, whereas `toLowerCase` also folds other Unicode capitals.
- Roster.ParseCsvRow: reads a missing column as the empty string; as written the source stores `undefined` (see Findings). Carriage returns from CRLF files stay in the last column, as in the source.
- App.StudentUnionApp.DeleteMemberClicked: does not move the page back when a delete empties the current page; neither does the source, which then shows an empty page.
- Integers are unbounded. The source's counters are JavaScript numbers, which are exact far beyond any realistic count.
