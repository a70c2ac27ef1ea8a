# Cuaderno gradebook: a Dafny model of its state, handlers, storage and gate

Cuaderno is a single-page teacher's notebook. A teacher keeps:

- activities (classes and general events);
- students enrolled in classes;
- the time slots of the school day;
- a weekly timetable of which activity fills each weekday slot;
- date-bounded substitutions of that timetable ("overrides");
- one class entry per session, with the plan, what was done and an annotation per student.

All of it lives in one shared state object. The user actions update that object in place. The state is saved to a hosted database, through an adapter that falls back silently when the database is missing or fails, and to the browser's local storage. An optional password gate protects the whole page.

This project models that core, one module per file:

| file | module | models |
|---|---|---|
| `text.dfy` | `Text` | the JavaScript string built-ins the code relies on: `trim`, `toLowerCase` on Latin letters, `split` on one character, `startsWith`/`endsWith`, `padStart`, `toString(10/16)`, `Number` on digit strings, `find`, `filter` |
| `domain.dfy` | `Domain` | the entities as values, the `${day}-${label}` and `${activityId}_${date}` keys, removal by id |
| `store.dfy` | `Store` | the shared `state` object as a class `AppState`, and the pastel colour choice |
| `actions.dfy` | `Actions` | the action handlers as methods that modify `AppState`, each proved against a function of the old data |
| `generator.dfy` | `Generator` | the `generate-schedule-slots` handler: `HH:MM` parsing and printing, and the slot layout loop |
| `database.dfy` | `Database` | the storage adapter class `DatabaseService`: the availability flag, seven tables as row lists, and the conversions between rows and the application's maps |
| `persistence.dfy` | `Persistence` | `saveState`, `loadState`, the local-storage fallback, the one-time migration and the single-record save/delete helpers |
| `views.dfy` | `Views` | the values the views compute before rendering: a timetable cell's content, a student's annotation history, the enrolled and available students of a class, and the reorder-button guards |
| `auth.dfy` | `Auth` | the password gate: the password hash, the password check, the login cookie and the start-up decision |

Parameters stand in for:

- the page (form values, the cookie string, the configuration object);
- the clock;
- `crypto.randomUUID` (a fresh id, or an oracle indexed by loop position);
- `Math.random` (an index into the palette);
- SHA-256;
- the network (one `fails` flag per run).

The browser's `Object.keys` order is a key sequence that enumerates the map.

## Model

| member | source | states |
|---|---|---|
| Text.LowerAccented | actions.js:17 | names that differ only in the case of accented letters (`ÁLVARO`, `álvaro`) are the same name once folded |
| Domain.EntryKeySplit | views.js:166 | an entry key `${activityId}_${date}` splits back into the activity id and the date when neither holds `_` |
| Domain.DayOfSlotKey | actions.js:169 | the day read back from `${day}-${label}` with `split('-')[0]` is the day, when the day holds no `-` |
| Domain.SlotKeyInjective | actions.js:243-245 | slot keys of `-`-free days are unambiguous: equal keys mean equal day and label |
| Domain.DropById | actions.js:149 | `filter(x => x.id !== id)`: no element with the id survives, every other element keeps its multiplicity, and a list without the id is unchanged |
| Store.AppState.constructor | state.js:8-25 | the initial state: schedule view, empty data, nothing selected, online, not loading |
| Store.AppState.SetData | state.js:183-190 | assigning the eight data fields sets exactly those and leaves the navigation fields unchanged |
| Store.AppState.SetRecords | state.js:183-187 | assigning the four lists changes only those |
| Store.AppState.SetTables | state.js:186-190 | assigning the schedule, the entries and the two course dates changes only those |
| Store.ChooseColorSpec | state.js:32-36 | the colour is always from the palette; it is the first palette colour no activity uses when there is one, and the random pick otherwise |
| Actions.Enrol | actions.js:24-26 | enrolling keeps the roster as a prefix, appends the id only when absent, never adds a duplicate |
| Actions.Unenrol | actions.js:45 | removing drops every occurrence of the student and keeps every other id with its multiplicity |
| Actions.EnrolThenUnenrol | actions.js:42-49 | removing a student just enrolled gives back the roster from before |
| Actions.EnrolByNameSpec | actions.js:11-26 | only the class's roster and the student list change; an existing student whose name is equal once both are folded to lower case (Latin letters, accented ones included) is reused, and a new one is created only when none matches; the name ends up enrolled, with no duplicate roster ids and no duplicate names |
| Actions.EnrolStudentByName | actions.js:16-26 | the method's new data is `EnrolByName` of the old data (a student with the same name up to Latin case is reused), and the view fields are untouched |
| Actions.AddStudentToClass | actions.js:8-30 | a blank trimmed name or an unknown activity changes nothing; otherwise the trimmed name is enrolled by name |
| Actions.AddSelectedStudentToClass | actions.js:31-41 | an unknown activity, the empty choice or an already enrolled id changes nothing; otherwise the id is appended to the roster |
| Actions.RemoveStudentFromClass | actions.js:42-49 | an unknown activity changes nothing; otherwise the roster loses every occurrence of the student |
| Actions.ImportLines | actions.js:335 | every imported name is non-blank, and every non-blank line of the trimmed text is among the names |
| Actions.EnrolKeepsEnrolled | actions.js:339-349 | enrolling one more name keeps every earlier enrolment |
| Actions.EnrolByNameExtends | actions.js:339-349 | one import step only grows the roster and the student list, and enrols the name |
| Actions.ImportStep | actions.js:337-349 | each loop step keeps "every earlier line is enrolled" and extends it to the next line |
| Actions.ImportCoversLines | actions.js:335-349 | after the loop, every non-blank line of the text is enrolled, trimmed, in the target class |
| Actions.ImportStudents | actions.js:325-353 | a missing class or blank text changes nothing; otherwise the data only grows and every non-blank trimmed line ends up enrolled |
| Actions.MaxOrder | actions.js:142 | `Math.max` over the slot orders: NaN exactly when some slot has no order, else an order of some slot that bounds all of them |
| Actions.NextOrder | actions.js:142 | the next order is 0 for no slots, NaN exactly when some slot has no order, and one more than the maximum otherwise |
| Actions.AddTimeslot | actions.js:138-147 | a blank label changes nothing; otherwise a slot with the fresh id, the trimmed label and the next order is appended |
| Actions.DeleteTimeslot | actions.js:148-151 | the time slots become those without the id, in order, and nothing else changes |
| Actions.RetargetEndsWith | actions.js:168-170 | the rewritten key `${day}-${newLabel}` ends with `-newLabel` |
| Actions.RetargetTwice | actions.js:169-170 | rewriting keeps the day, so rewriting twice is rewriting once with the last label |
| Actions.RetargetDiffers | actions.js:166-171 | a key of the new label never collides with a key of a different old label |
| Actions.DistinctTargets | actions.js:166-171 | two different old-label keys move to two different keys, neither of them an old-label key |
| Actions.RelabelLoopDone | actions.js:167-174 | after visiting every key, when no key of the old label is ambiguous, each old-label entry sits under its new key with the same value and every other entry is unchanged |
| Actions.RelabelSchedule | actions.js:167-174 | the schedule loop ends in the fold of key moves over the enumerated keys, which is the relabelled schedule when the old label is unambiguous |
| Actions.SaveTimeslot | actions.js:158-179 | an unknown slot, a blank label or an unchanged label changes only the editing flag; otherwise the slot takes the new label and the schedule is relabelled; the editing flag is cleared in every case |
| Actions.SuffixKeyFacts | actions.js:167-170 | a key `${day}-${first}-${old}` ends with `-old`, and is moved to `${day}-${new}` |
| Actions.SuffixLabelMoved | actions.js:166-171 | a slot whose label ends in `-old` has its schedule entry moved too: the schedule `{day-first-old: v}` becomes `{day-new: v}` |
| Actions.Swap | actions.js:185 | the destructuring swap trades the two elements, moves nothing else and is a permutation |
| Actions.SwapBack | actions.js:185 | swapping back restores the list |
| Actions.ReorderTimeslot | actions.js:180-188 | with both indices in range, the slots become the swap of `index` and its neighbour in `direction`, and nothing else changes |
| Actions.ScheduleChange | actions.js:242-246 | the cell `${day}-${time}` takes the chosen value and nothing else changes |
| Actions.AddScheduleOverride | actions.js:247-264 | the override is appended exactly when all five fields are non-empty; otherwise nothing changes |
| Actions.DeleteScheduleOverride | actions.js:265-268 | the overrides become those without the id, in order |
| Actions.EntryOrFresh | actions.js:298 | a missing entry starts as `{ annotations: {} }` |
| Actions.PlannedChange | actions.js:296-301 | the open session's entry, created if missing, records the plan; its other fields and every other entry stay |
| Actions.CompletedChange | actions.js:302-307 | the same for what was done |
| Actions.AnnotationChange | actions.js:308-314 | the same for one student's annotation; other students' annotations stay |
| Actions.EditSessionAnnotation | actions.js:72-78 | only an existing entry is edited; an unknown entry id changes nothing |
| Actions.AddActivity | actions.js:80-97 | a blank name changes nothing; otherwise an activity with the fresh id, trimmed name, type, empty roster, chosen colour and the course dates is appended |
| Actions.DeleteActivity | actions.js:98-105 | the activities become those without the id, in order |
| Actions.SaveActivity | actions.js:112-128 | a known activity takes the trimmed name when it is non-blank, and both dates as typed; the editing flag is cleared in every case |
| Actions.ChangeActivityColor | actions.js:129-136 | a known activity takes the picked colour; an unknown id changes nothing |
| Actions.EditStudentName | actions.js:58-64 | a known student takes the name exactly as typed, untrimmed |
| Actions.EditStudentNotes | actions.js:65-71 | a known student takes the notes as typed |
| Actions.UpdateCourseDate | actions.js:316-324 | `start` sets the start date; any other type sets the end date |
| Generator.TimeToMinutes | actions.js:201-204 | a time that reads as minutes has at least an hours and a minutes piece |
| Generator.TimeToMinutesOf | actions.js:201-204 | `h:m` of two numerals reads as `h * 60 + m` |
| Generator.TimeRoundTrip | actions.js:201-209 | reading back a printed time gives the same number of minutes, for every non-negative count |
| Generator.MinutesToTimeShape | actions.js:205-209 | a printed time is at least two hour digits, `:` and exactly two minute digits, five characters below 100 hours |
| Generator.BreakOf | actions.js:212-219 | a break window is in effect exactly when its length is positive and a start was given |
| Generator.PlanChained | actions.js:218-236 | consecutive generated slots follow on from one another from the start time |
| Generator.PlanFits | actions.js:218-236 | every class slot has the class length and ends by the end time; a break slot is the break window |
| Generator.PlanMaximal | actions.js:218-236 | generation stops only at the end time or before a class that would run past it |
| Generator.PlanOneBreak | actions.js:218-226 | at most one break slot is emitted |
| Generator.PlanNonNegative | actions.js:218-236 | from a non-negative start every slot starts at a non-negative time |
| Generator.SlotsOfIndex | actions.js:221-234 | slot `k` gets the `k`-th fresh id, the label of the `k`-th span and no order |
| Generator.LayOut | actions.js:214-236 | the loop builds exactly the slots of the plan, with non-negative times |
| Generator.GenerateScheduleSlots | actions.js:189-240 | corrected: accepted exactly when both time fields are filled and the class length is a positive number; then the time slots become the generated ones (none when a time cannot be read) and nothing else changes; otherwise nothing changes |
| Generator.WrittenPlanDiverges | actions.js:196-236 | as written: with a class length of zero or less, the start before the end and no break window reaching the end, the loop never stops, however many iterations are allowed |
| Generator.WrittenPlanStops | actions.js:218-236 | with a positive class length, `end - start` iterations suffice and the loop yields the plan |
| Generator.AddAfterGenerate | actions.js:142 | after generating slots, which carry no order, `add-timeslot` computes NaN as the next order |
| Database.Replace | database.js:83-101 | `update(x).eq('id', k)`: every row with the key becomes `x`, the others stay |
| Database.InsertAllFresh | database.js:62-80 | inserting records with fresh, distinct keys appends them all |
| Database.RowsKeys | database.js:292-296 | the keys read from the rows enumerate the object built from them |
| Database.DropView | database.js:323-326 | deleting the rows with a key removes exactly that key from the object read back |
| Database.UpsertView | database.js:311-318 | an upsert sets its key in the object read back |
| Database.ScheduleValuesNonEmpty | database.js:292-296 | every slot `getSchedule` reports holds a non-empty activity id |
| Database.WriteSlotView | database.js:305-333 | after `updateScheduleSlot` the slot reads back as the activity, or is gone when the activity was falsy |
| Database.WriteSlotsView | database.js:543-547 | writing a whole schedule overlays it on what the backend held |
| Database.WriteSlotsCover | database.js:543-547 | walking every key of a schedule writes all of it, in any order: each slot reads back as its activity or as free, every other slot is as before |
| Database.WriteSlotsIntoEmpty | database.js:543-547 | a schedule written into a backend with no slots reads back as its entries with a non-empty activity |
| Database.EntryRoundTrip | database.js:391-420 | an entry written and read back keeps its summary and annotations and loses `planned` and `completed`; it is unchanged exactly when it had neither and had a summary |
| Database.EntryRowColumns | database.js:411 | the row of `${activityId}_${date}` records the activity id and the date |
| Database.WriteEntriesView | database.js:557-561 | writing entries never removes one: the keys written hold their stored form, the rest are kept |
| Database.WriteEntriesCover | database.js:557-561 | walking every key of an entries object writes all of it, in any order: each entry reads back in its stored form, every other entry is as before |
| Database.SettingsRoundTrip | database.js:465-504 | the course dates written read back as written; the first write inserts one row and later writes update in place |
| Database.MigratedCovers | database.js:540-561 | a migration writes the whole snapshot: every slot of its schedule and every class entry reads back from the migrated tables, whatever the key order |
| Database.DatabaseService.constructor | database.js:8-11 | a new adapter is not initialised and is enabled exactly when there is a client |
| Database.DatabaseService.InitializeSchema | database.js:19-39 | the adapter becomes initialised; a failed probe switches the backend off for good; the tables are untouched |
| Database.DatabaseService.GetActivities | database.js:42-59 | the table, or `[]` when the backend is off or the request fails |
| Database.DatabaseService.CreateActivity | database.js:62-80 | the row is inserted when the backend answers; the caller gets its own record back in every case |
| Database.DatabaseService.UpdateActivity | database.js:83-101 | every row with the id becomes the update when the backend answers; the answer is the update |
| Database.DatabaseService.DeleteActivity | database.js:104-119 | the rows with the id go when the backend answers |
| Database.DatabaseService.GetStudents | database.js:122-138 | the table, or `[]` |
| Database.DatabaseService.CreateStudent | database.js:141-158 | as for activities |
| Database.DatabaseService.UpdateStudent | database.js:161-179 | as for activities |
| Database.DatabaseService.DeleteStudent | database.js:182-197 | as for activities |
| Database.DatabaseService.GetTimeSlots | database.js:200-216 | the table, or `[]` |
| Database.DatabaseService.CreateTimeSlot | database.js:219-236 | as for activities |
| Database.DatabaseService.UpdateTimeSlot | database.js:239-257 | as for activities |
| Database.DatabaseService.DeleteTimeSlot | database.js:260-275 | as for activities |
| Database.DatabaseService.GetSchedule | database.js:278-303 | the schedule read from the rows with its key list, or `{}`; keys are distinct and every value is non-empty |
| Database.DatabaseService.UpdateScheduleSlot | database.js:305-333 | the schedule table becomes the slot written, or stays when the backend is off or fails; no other table changes |
| Database.DatabaseService.GetScheduleOverrides | database.js:336-352 | the table, or `[]` |
| Database.DatabaseService.CreateScheduleOverride | database.js:355-373 | as for activities |
| Database.DatabaseService.GetClassEntries | database.js:376-403 | the entries read from the rows, or `{}` |
| Database.DatabaseService.UpdateClassEntry | database.js:405-428 | the entry row is upserted, or nothing changes |
| Database.DatabaseService.GetCourseSettings | database.js:431-463 | the newest settings row's dates, `''` for a missing one, or two `''` |
| Database.DatabaseService.UpdateCourseSettings | database.js:465-504 | the newest row is updated, or a row is inserted when there is none |
| Database.DatabaseService.Migrate | database.js:507-569 | false and no change when the backend is off; otherwise true, and the tables end as the seven steps leave them in their order (unchanged when the requests fail); every slot and every class entry of the snapshot then reads back from the backend |
| Database.DatabaseService.CreateStudents | database.js:522-526 | the students loop creates every student in order |
| Database.DatabaseService.CreateTimeSlots | database.js:529-533 | the time slots loop |
| Database.DatabaseService.CreateActivities | database.js:536-540 | the activities loop |
| Database.DatabaseService.CreateOverrides | database.js:550-554 | the overrides loop |
| Database.DatabaseService.WriteSchedule | database.js:543-547 | the schedule loop writes every slot of the local schedule in key order, and each then reads back as its activity or as free |
| Database.DatabaseService.WriteClassEntries | database.js:557-561 | the entries loop upserts every local entry in key order, and each then reads back in its stored form |
| Persistence.SnapshotOf | state.js:116-126 | the snapshot holds all eight data fields, and loading it gives them back |
| Persistence.LoadFromLocalStorage | state.js:215-229 | a saved snapshot replaces the eight data fields; without one nothing changes |
| Persistence.SyncComplete | state.js:86-101 | writing the changed slots and then deleting the missing ones leaves exactly the non-empty entries of the local schedule |
| Persistence.WriteChangedSlots | state.js:90-94 | the first loop writes only the slots whose value differs, and the backend then holds the local values overlaid on its own |
| Persistence.DeleteMissingSlots | state.js:97-101 | the second loop deletes every backend slot the local schedule lacks |
| Persistence.SyncSchedule | state.js:86-101 | after both loops the backend schedule is the local schedule without its empty cells |
| Persistence.SaveState | state.js:67-152 | while loading, nothing is written; otherwise the snapshot is saved locally, and a backend that answers ends with the course dates, the synced schedule and every local entry in its stored form, its other tables untouched |
| Persistence.FetchAll | state.js:164-190 | the seven getters' answers are copied into the state, `''` for missing course dates |
| Persistence.MigrateFromLocalStorageAsWritten | state.js:232-276 | as written: with a snapshot, migrate then reload from the backend, even when the backend took nothing; a backend that answers then holds every slot and entry of the snapshot |
| Persistence.MigrateFromLocalStorage | state.js:232-276 | corrected: when the backend did not take the snapshot, the snapshot itself is loaded; a backend that answers holds every slot and entry of the snapshot |
| Persistence.LoadStateAsWritten | state.js:155-212 | as written: initialise, fetch, migrate when the backend is empty; loading ends, online in every case |
| Persistence.LoadState | state.js:155-212 | corrected: the same, with the corrected migration step |
| Persistence.OfflineLoadLosesSnapshot | state.js:191-200 | as written, with the backend off, a saved non-empty snapshot is not loaded and the state stays empty |
| Persistence.OfflineRoundTrip | state.js:191-200 | corrected, with the backend off, loading gives back exactly the data the snapshot saved |
| Persistence.SaveActivity | state.js:279-296 | an activity with an id is updated, one without is created; the state is not changed |
| Persistence.SaveStudent | state.js:298-312 | the same for a student |
| Persistence.SaveTimeSlot | state.js:314-328 | the same for a time slot |
| Persistence.DeleteActivity | state.js:330-337 | removed from the backend when it answers, and from the state in every case |
| Persistence.DeleteStudent | state.js:339-346 | the same for a student |
| Persistence.DeleteTimeSlot | state.js:348-355 | the same for a time slot |
| Views.CellActivityId | views.js:32-47 | a cell's activity id is that of the first override that applies on its date, else the weekly schedule's entry for the slot |
| Views.OverrideWins | views.js:34-47 | the first applying override decides the cell's activity id |
| Views.CellActivity | views.js:47 | the cell names an activity exactly when its id is non-empty and some activity has it |
| Views.InDateRangeMeaning | views.js:51-60 | with well-formed bounds, a date is in range exactly when it lies within the course and within the activity, an empty bound being no bound |
| Views.MalformedCourseStartIgnored | views.js:52-57 | a course start that is not a date excludes nothing |
| Views.ResolveCell | views.js:47-72 | a shown activity is the activity of the cell's resolved id (the first applying override, else the weekly schedule), is listed and is in range; the cell is a session button exactly for a class, with the plan marker exactly when its entry has a plan |
| Views.CellFreeIff | views.js:47-72 | a cell is empty exactly when its id names no activity or the activity is out of range |
| Views.PlanMarkerAfterPlannedChange | views.js:63-65 | after a non-empty `planned-change`, the session's cell shows the plan marker |
| Views.HistoryItemOf | views.js:163-177 | an entry gives a line exactly when the student's annotation in it is not blank; the line carries the entry id and the annotation |
| Views.HistoryItemDate | views.js:166 | a line of `${activityId}_${date}` is dated `date` |
| Views.InsertByDate | views.js:179 | inserting a line keeps all lines |
| Views.SortByDateDesc | views.js:179 | sorting by date is a permutation |
| Views.InsertByDateSorted | views.js:179 | inserting into a latest-first list of dated lines keeps it latest first |
| Views.SortByDateDescSorted | views.js:179 | the sorted lines are latest first when every line is dated |
| Views.History | views.js:162-179 | the history holds exactly the lines collected from the entries, in some order |
| Views.CollectedIff | views.js:162-178 | the collected lines include entry `k` exactly when `k` is listed and the annotation there is not blank |
| Views.HistoryIff | views.js:162-179 | the history shows entry `k` exactly when the student's annotation in it is not blank |
| Views.HistoryNewestFirst | views.js:179 | with every entry dated, the history is latest first |
| Views.AnnotationShowsInHistory | views.js:162-179 | after a non-blank `annotation-change`, the session appears in that student's history |
| Views.EnrolledClasses | views.js:151 | a student's sheet lists exactly the classes whose roster holds the student |
| Views.Partition | views.js:236-244 | the enrolled and the available students split the student list, each student in exactly one of them |
| Views.EnrolmentAgrees | views.js:151-236 | a class lists a student exactly when the student's sheet lists the class |
| Views.ReorderGuards | views.js:321-322 | a reorder button is enabled exactly when the neighbour it swaps with exists |
| Auth.ToInt32 | auth.js:30 | the result is a signed 32-bit integer congruent to the input modulo 2^32 |
| Auth.ToInt32Congruent | auth.js:29-30 | inputs congruent modulo 2^32 wrap to the same 32-bit integer |
| Auth.StringHash | auth.js:26-31 | the running hash stays a signed 32-bit integer after every character |
| Auth.ShiftStep | auth.js:29-30 | `((h << 5) - h) + c` followed by `& h` is `31 * h + c` wrapped once to 32 bits |
| Auth.CodeUnits | auth.js:28 | a character is one UTF-16 code unit below U+10000 and a surrogate pair above, each unit below 2^16 |
| Auth.Utf16 | auth.js:27-28 | a string has at least as many UTF-16 code units as characters and at most twice as many, each below 2^16 |
| Auth.FallbackHash | auth.js:26-32 | the loop computes the hex text of the absolute value of the 31-multiplier hash |
| Auth.FallbackTextShape | auth.js:32 | the fallback hash is one to eight lowercase hex digits whose value is the absolute hash |
| Auth.FallbackCollision | auth.js:26-32 | "Aa" and "BB" have the same fallback hash |
| Auth.DigestHex | auth.js:18-19 | the digest text has two lowercase hex digits per byte |
| Auth.ByteHexValue | auth.js:19 | a byte's two digits read back as the byte |
| Auth.DigestHexInjective | auth.js:17-19 | different digests give different texts |
| Auth.ByteHexInjective | auth.js:19 | different bytes give different two-digit texts |
| Auth.HashPassword | auth.js:12-33 | the digest in hexadecimal, two digits per byte, when Web Crypto answers; otherwise the fallback hash of one to eight digits; lowercase hexadecimal in both cases |
| Auth.ConfiguredPassword | auth.js:55-58 | `''` exactly when the configuration or its password is missing or empty; otherwise the password |
| Auth.ValidatePassword | auth.js:63-76 | false with no password configured; otherwise true exactly when the two hashes are equal |
| Auth.ConfiguredPasswordValidates | auth.js:63-76 | the configured password always validates |
| Auth.NoPasswordNeverValidates | auth.js:66-69 | with no password configured, no password validates |
| Auth.DigestValidatesIff | auth.js:63-76 | with both hashes from the digest, a password validates exactly when its digest is the configured one's |
| Auth.FallbackAcceptsCollision | auth.js:26-32 | without Web Crypto, "Aa" validates against the password "BB" |
| Auth.IsAuthenticated | auth.js:46-50 | true exactly when some `;`-separated piece, trimmed, starts with `cuaderno_auth=authenticated` |
| Auth.CookieJarIff | auth.js:46-50 | for a cookie string made of pieces, the check holds exactly when one piece passes it |
| Auth.AuthCookieAssignment | auth.js:38-41 | the cookie `setAuthCookie` writes has the pair `cuaderno_auth=authenticated` as its name and value |
| Auth.CookieExpiry | auth.js:6 | the cookie expires exactly 365 days of milliseconds after now |
| Auth.LoginPairAuthenticates | auth.js:46-50 | once the login pair is among the cookies, wherever it stands, the check passes |
| Auth.LoggedOutNotAuthenticated | auth.js:211 | the cookie logout leaves does not pass the check |
| Auth.InitAuth | auth.js:178-205 | the application starts exactly when no password is configured or the login cookie is present |
| Auth.LoginThenAccess | auth.js:151-189 | after a login, the next start goes straight in whatever other cookies there are |
| Auth.NoCookieNoAccess | auth.js:178-205 | with a password configured and no login cookie, the gate stays closed |

## Left out

- Rendering: the HTML the views build, the icon library, the modal dialogs and the print actions are not modelled. The views model only what decides the rendered content.
- Navigation handlers are not modelled: `select-student`, `back-to-classes`, `edit-activity`, `cancel-edit-activity`, `edit-timeslot`, `cancel-edit-timeslot`, `select-activity`, `back-to-schedule`, `navigate-to-session`, `prev-week`, `next-week`, `today`. They only set view fields. The data-file handlers `export-data`, `import-data` (which replaces all eight data fields from a parsed file) and `delete-all-data` (actions.js:354-407) are not modelled either: they work through files and dialogs.
- The week arithmetic of utils.js (`getWeekStartDate`, `formatDate`) is not part of this model. A cell's date is a `YYYY-MM-DD` parameter, and date comparisons are day-granular, on the lexicographic order of such strings.
- `IsIsoDate` checks only the `YYYY-MM-DD` shape; calendar validity (such as February 30) is not checked.
- `parseInt`, the browser's time input format and `Number` on non-numerals are only modelled as far as the handlers need them: an absent or non-numeric field is `None`.
- `Object.keys`/`Object.entries` order is a parameter: a key sequence that enumerates the map.
- The backend's result order (`order('name')` for activities and students, `order('start_time')` for time slots, `order('date')`, `created_at`) is not modelled: rows are a list in insertion order, so a list loaded from the backend keeps insertion order where the source returns it sorted, and the newest settings row is the last.
- Columns the database fills in (`id`, `created_at`, `updated_at`) are not modelled.
- `Promise.all` is run sequentially. The seven getters touch different tables, so the outcome is the same.
- One `fails` flag stands for every request of a run failing or succeeding together. Mixed outcomes within one run are not modelled.
- The `catch` branch of `saveState` (state.js:139-150) cannot be reached in the model. The adapter swallows every backend error, and local storage writes cannot fail here.
- The `catch` branch of `loadState` (state.js:202-207) cannot be reached in the model either, for the same reason: no getter and no migration step throws. Persistence.LoadState and Persistence.LoadStateAsWritten therefore always end online.
- The handlers' closing `saveState()` call is not part of the Actions methods. Each handler method states only its change to the shared state; Persistence.SaveState models what that call then writes. The source calls it only when something changed in `add-selected-student-to-class` (actions.js:37-39), `edit-student-name`/`edit-student-notes` (actions.js:60-69) and `save-timeslot` (actions.js:166-175); the model does not record which handlers save.
- An activity's `studentIds` is always present in the model. The source guards it with `?.` and falls back to `[]` in `add-student-to-class`, but `add-selected-student-to-class` would throw on `push` when it is absent (actions.js:37-38); that path is absent here.
- `JSON.parse` errors on a corrupt snapshot are not modelled. The snapshot is a parsed value or absent.
- Persistence.SaveStudent: the source replaces the new student, found by reference identity, with the backend's answer, which carries the id the database filled in. The model compares by value, and the adapter answers with the caller's own record, so the state is unchanged.
- Persistence.SaveTimeSlot: the same as SaveStudent for a time slot: the backend's answer, with its database id, does not replace the record in the model.
- Persistence.SaveActivity: the source replaces the new record by reference identity (`findIndex(a => a === activity)`). The model compares by value, and the state it returns is unchanged because the adapter answers with the caller's own record.
- Database.DatabaseService.Migrate: an exception thrown from inside a step would be rethrown. The model's steps never throw (the adapter catches), so that path is absent.
- Views.SortByDateDesc: JavaScript's `sort` is stable, but lines with missing or malformed dates compare as equal to every line, which is not a consistent order. The model inserts such lines in list order, and the latest-first property is proved only when every line is dated.
- Actions.EnrolByNameSpec: names are compared after folding the Basic Latin, Latin-1 and Latin Extended-A letters to lower case. `toLowerCase` also folds other scripts (Greek, with its context-dependent final sigma, Cyrillic and the rest) and turns `İ` into two characters; two names that differ only in those letters count as different here.
- Actions.EnrolStudentByName: inherits that name comparison; a student whose name differs only in the case of a letter outside those three blocks is not reused.
- Actions.AddStudentToClass: inherits that name comparison, so for such a name it adds a second student where the source reuses one.
- Actions.ImportStudents: inherits that name comparison for every imported line.
- Auth: the overlay and form (`createAuthInterface`, `handleAuthSubmit`'s DOM work) and `logout`'s page reload are not modelled. SHA-256 itself is a parameter, and the browser's cookie jar semantics (`expires`, `path`, `SameSite`) are not modelled.
- Auth.CookieExpiry: the UTC text of the expiry date (`toUTCString`) is a parameter of `AuthCookieAssignment`.
- Actions.SaveTimeslot: proved to relabel correctly only when no other label ends in `-oldLabel`. Actions.SuffixLabelMoved shows what happens otherwise.
- Actions.NextOrder: generated slots carry no `order`, so the next order is NaN (`None`). The model keeps the NaN order as written (Generator.AddAfterGenerate).

## Findings

| source | as written | input that shows it | evidently intended | confidence | as-written member | corrected member |
|---|---|---|---|---|---|---|
| actions.js:192-236 | the guard rejects only a NaN class length, so a length of 0 or less reaches the loop, which then never advances past the end time | start `08:00`, end `09:00`, class length `0`, no break | reject a class length that is not positive, so the layout loop always ends | high (not executed) | Generator.WrittenPlanDiverges | Generator.GenerateScheduleSlots |
| state.js:196-273 | with the backend unavailable, every getter answers empty, so `migrateFromLocalStorage` runs and its migration does nothing; the state is then reloaded from the empty backend, and the saved local snapshot is never loaded (the `catch` that would load it is not reached) | no backend client, local storage holding a snapshot with one activity | fall back to the local snapshot when the backend did not take it | high (not executed) | Persistence.OfflineLoadLosesSnapshot | Persistence.OfflineRoundTrip |
