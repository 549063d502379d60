# SakaiParser285 in Dafny

`SakaiParser285` drives an embedded web browser through a Sakai course portal: it logs in,
opens the membership page, reads the worksite list, opens the chosen worksite, reads its
assignment list, reads the submission list of every assignment, and finally opens the grading
page of each student who attached files and records the files. All of this happens inside one
event handler, `webBrowser_DocumentCompleted`. The handler is a state machine driven by the
`webBrowserTask` field, and it stores what it reads in two dictionaries.

This project models that state machine and the data it reads, and proves what it guarantees.

- `Parser.SakaiParser285` is the class itself. Its fields are those the handler updates in
  place, and its methods follow the source one for one: each `foreach` and `for` is a loop
  with invariants, and each exception is an `Outcome` value `Thrown(fault)`. The ensures of
  every method gives its whole new state and result. The handler and its cases are proved
  against the step functions of module `Workflow`; the loops are proved against the fold
  `AddAll` of module `Dictionaries`, the function `LoadedStudents`, or the walk `Walk` of
  module `AttachmentWalk`; the setters state their new state as an update of the old one.
  The class invariant `Valid` says that no dictionary holds two entries under one key. The
  constructor establishes it and every public method keeps it.
- `Workflow` gives each task its step function (`LogInStep`, `ParseWorksitesStep`, …,
  `AttachmentStep`). `WorkflowProperties` proves what these steps promise: admission of a
  completion signal, the order of the WebBrowserTask states, the rows read, the walk over the students, and
  keys kept distinct in every dictionary.
- `Dictionaries` models `Dictionary<string, V>` as the sequence of its entries in insertion
  order, because the handler addresses entries with `ElementAt`. A run of `Add` calls is a
  fold (`AddAll`) that stops at the first exception.
- `Dom` replaces the browser's HTML documents by plain data: the anchors of the top document,
  the cells of the worksite table, the tables of the content frame and its `<ul>` lists. A call
  to `Navigate` is recorded in the `navigations` field.
- `Extraction` reads one link, cell, row, table or list. `Text` holds `Trim`, `IndexOf`,
  `Contains` and the student-ID regular expression. `Lookups` holds the sort behind
  `GetStudentIDs`. `AttachmentWalk` holds the walk over (assignment, student) pairs.

Behaviour of this revision that the model keeps as written:

- The assignment dictionary is never cleared. Reading an assignment list that shows a title
  already stored throws a duplicate key.
- The students of an assignment are never cleared either. Reloading a submission list
  (`UpdateAssignmentSubmissions`, then the `ReloadStudents` task) throws a duplicate key as
  soon as the list shows a student already read.
- Duplicate worksite names throw; the first one is not kept silently.
- Files are recorded in link order. They are not sorted.
- A signal is admitted on the URL alone. No page title is checked.
- Exceptions are modelled as outcomes, not as preconditions. Such exceptions are an
  `ElementAt` out of range, a `[0]` on an empty match or link collection, an unknown key for
  the dictionary indexer, and a missing `" ("` in a student's text. The state is left as the
  handler leaves it at the throw.
- When the walk over the students reaches an assignment without students, `ElementAt(0)`
  throws at line 371. `WalkStuckOnlyAtEmptyAssignment` states exactly when this happens.
- The test `Count >= 1` at line 482 always holds once an assignment was found.
- The skipping calls of the handler to itself (lines 322 and 382) are a loop in
  `WalkAttachments`. Its specification is the recursive function `Walk`. In the source each
  skipped student without attachments nests one more call of the handler, so a long enough
  run of such students can overflow the stack; the loop never does, and the model does not
  capture that failure.
- The loops over tables and rows take the dictionary as a value and return the new one. The
  handler method then stores it in its field.

## Model

| member | source | states |
|---|---|---|
| Parser.SakaiParser285.constructor | SakaiParser.cs:121-134 | a new parser is idle, with empty dictionaries, empty names, no reload expected and no navigation, and satisfies `Valid` |
| Parser.SakaiParser285.SetWorksiteName | SakaiParser.cs:153-156 | only the worksite name changes; `Valid` is kept |
| Parser.SakaiParser285.Initialize | SakaiParser.cs:147-151 | webBrowserTask becomes LogIn and the initial URL is opened; nothing else changes |
| Parser.SakaiParser285.InitializeWorksite | SakaiParser.cs:140-145 | sets the worksite name, then does what Initialize does |
| Parser.SakaiParser285.DocumentCompleted | SakaiParser.cs:158-390 | the new state and the outcome are those of `Workflow.Step` on the old state, the two URLs and the page; `Valid` is kept |
| Parser.SakaiParser285.LogIn | SakaiParser.cs:509-516 | submits the login frame and moves to GetMembershipLink, as `LogInStep` |
| Parser.SakaiParser285.ParseWorksites | SakaiParser.cs:174-196 | the worksite dictionary is rebuilt from the cells, then the chosen worksite is opened, or the step throws, as `ParseWorksitesStep` |
| Parser.SakaiParser285.GetMembershipLink | SakaiParser.cs:197-208 | keeps the last membership link, then opens it or throws when it is empty, as `MembershipLinkStep` |
| Parser.SakaiParser285.GoToAssignments | SakaiParser.cs:209-223 | opens the last assignments link, or throws when there is none, as `AssignmentsLinkStep` |
| Parser.SakaiParser285.ParseAssignments | SakaiParser.cs:224-294 | adds the assignment rows, then moves to LoadStudents and opens the first assignment when there is one, as `ParseAssignmentsStep` |
| Parser.SakaiParser285.ParseAssignmentTables | SakaiParser.cs:227-281 | the dictionary and the exception after every row of every list table are those of the fold `AddAll` over `ListRows` |
| Parser.SakaiParser285.AddAssignmentRows | SakaiParser.cs:231-279 | continuing the fold over the rows of one table gives the fold over all rows read so far |
| Parser.SakaiParser285.ParseLoadingStudents | SakaiParser.cs:396-453 | only the assignment dictionary changes, to the one `LoadedStudents` computes, and the exception is the one it reports |
| Parser.SakaiParser285.ParseStudentTables | SakaiParser.cs:400-452 | the students of every list table are added as `LoadedStudents` over `ListRows` says |
| Parser.SakaiParser285.AddStudentRows | SakaiParser.cs:404-450 | continuing over the rows of one table gives `LoadedStudents` of all rows read so far |
| Parser.SakaiParser285.AddStudent | SakaiParser.cs:446-448 | a row that threw ends the run, a row without a student changes nothing, an out-of-range assignment or a known ID throws, and otherwise the student is appended, as `StudentRowAdded` |
| Parser.SakaiParser285.LoadStudents | SakaiParser.cs:301-327 | reads the students, then goes on, as `LoadStudentsStep` |
| Parser.SakaiParser285.NextAssignment | SakaiParser.cs:306-325 | expects a reload, advances the index, and opens the next assignment or starts on the attachments, as `NextAssignmentStep` |
| Parser.SakaiParser285.StartAttachments | SakaiParser.cs:313-322 | resets both indices, then opens the grading page of the first student, skips them by the self-call, or throws when there is no first student, as `StartAttachmentsStep` |
| Parser.SakaiParser285.LoadStudentAttachments | SakaiParser.cs:328-385 | records the files when the flag is set, then walks on, as `AttachmentStep` |
| Parser.SakaiParser285.RecordAttachments | SakaiParser.cs:331-357 | the current student gets every file of every attachment list appended, in link order; with files but no such student, it throws and nothing changes |
| Parser.SakaiParser285.AddListFiles | SakaiParser.cs:335-356 | the files of one list are appended after those already recorded, and only for an attachment list |
| Parser.SakaiParser285.WalkFrom | SakaiParser.cs:359-383 | the loop that replaces the self-call ends where `Walk` on the roster of the dictionary ends |
| Parser.SakaiParser285.WalkAttachments | SakaiParser.cs:359-385 | the state after the walk is `AfterWalk`: idle past the last assignment, the grading page opened at the next student with attachments, or the indices where it threw |
| Parser.SakaiParser285.FinishWalk | SakaiParser.cs:362-368 | past the last assignment webBrowserTask becomes Idle, the assignment index stays one past the last assignment and the student index is 0 |
| Parser.SakaiParser285.OpenGradingPage | SakaiParser.cs:371-377 | at a student with attachments the indices are stored, a reload is expected and their grading page is opened |
| Parser.SakaiParser285.FindAssignment | SakaiParser.cs:468-477 | the loop finds `TitleIndex`: the first index whose trimmed key is the title, or -1 |
| Parser.SakaiParser285.UpdateAssignmentSubmissions | SakaiParser.cs:465-488 | the new state is `UpdateSubmissionsStep` of the old one; `Valid` is kept |
| Parser.SakaiParser285.Reload | SakaiParser.cs:478-487 | with no match only the index -1 is stored; otherwise webBrowserTask becomes ReloadStudents, a reload is expected and the assignment is opened |
| Parser.SakaiParser285.GetWorksites | SakaiParser.cs:499-502 | the worksite names, one per entry, in insertion order |
| Parser.SakaiParser285.GetAssignmentItems | SakaiParser.cs:494-497 | the assignments, one per entry, in insertion order |
| Parser.SakaiParser285.GetStudentsInformation | SakaiParser.cs:455-458 | throws exactly when the title is unknown; otherwise the students of the assignment with that key |
| Parser.SakaiParser285.GetStudentIDs | SakaiParser.cs:460-463 | throws exactly when the title is unknown; otherwise the IDs of that assignment, sorted ascending, with the same multiset as its keys, and without repeats |
| Parser.SakaiParser285.GetUserSubmissions | SakaiParser.cs:504-507 | throws exactly when the title is unknown; otherwise the students of that assignment, in insertion order |
| Dictionaries.Lookup | SakaiParser.cs:194 | no value exactly when the key is absent, where the indexer throws; otherwise the value stored under the key |
| Dictionaries.AddAllKeepsEntries | SakaiParser.cs:187 | Add never overwrites: earlier entries stay in place, distinct keys stay distinct, and a dictionary that cannot be reached is unchanged |
| Dictionaries.DuplicateIsAlreadyStored | SakaiParser.cs:278 | a duplicate key is reported only for a key already stored |
| Dictionaries.AddAllSucceedsIff | SakaiParser.cs:278 | a run of Adds succeeds exactly when no item throws and the keys are new and distinct; it then appends the accepted entries in order |
| Dictionaries.AddAllStopsAtFault | SakaiParser.cs:405-449 | after the first exception, later items change nothing |
| Dictionaries.AddAllFaultIsDuplicate | SakaiParser.cs:278 | when no row throws, the only exception is a duplicate key |
| Dictionaries.AddAllUnreachable | SakaiParser.cs:447 | when the ElementAt that selects the dictionary throws, the run succeeds exactly when no row throws and no row yields an entry |
| Text.Trim | SakaiParser.cs:422 | the result neither starts nor ends with white space, and a string that already does not is unchanged |
| Text.TrimDropsOnlyWhiteSpace | SakaiParser.cs:422 | the result is a slice of the input with only white space dropped before and after it; with the ensures of Trim this determines the result |
| Text.IndexOf | SakaiParser.cs:425 | the first position where the pattern occurs, or -1 when it occurs nowhere |
| Text.Contains | SakaiParser.cs:415 | true exactly when the pattern occurs somewhere |
| Text.MatchFrom | SakaiParser.cs:423 | the group of the leftmost match of the ID pattern, or none when nothing matches |
| Text.LeTotal | SakaiParser.cs:462 | the ordinal order compares any two IDs |
| Text.LeAntisymmetric | SakaiParser.cs:462 | two IDs each at most the other are equal |
| Text.LeTransitive | SakaiParser.cs:462 | the ordinal order is transitive |
| Lookups.Sort | SakaiParser.cs:462 | the result is sorted and has the same multiset as the input |
| Lookups.SortedArrangementIsUnique | SakaiParser.cs:462 | two sorted sequences with the same multiset are equal |
| Lookups.SortDependsOnlyOnContents | SakaiParser.cs:462 | the IDs come out the same whatever order the dictionary holds them in |
| Lookups.SortKeepsDistinct | SakaiParser.cs:462 | sorting distinct keys gives no repeats |
| Extraction.LastHrefIsLastMatch | SakaiParser.cs:199-202 | the link kept is the href of the last anchor of the class, or the initial value when there is none |
| Extraction.FindLinkByClass | SakaiParser.cs:213-216 | the foreach over the anchors computes `LastHref` |
| Extraction.WorksiteKeysAreNames | SakaiParser.cs:180-189 | the keys added are the texts of exactly the cells headed "worksite", in row order |
| Extraction.WorksiteValuesAreLinks | SakaiParser.cs:184-187 | the values added are the hrefs of the first links of the worksite cells, in row order |
| Extraction.AssignmentOfRowYields | SakaiParser.cs:277-278 | a row throws exactly when a cell does; otherwise it yields an assignment exactly when all seven fields are non-empty, keyed by its title, with no students; each field is read from the last cell with its header: the title from the first link of "title", the link from the window.location of the first link of "num_submissions", the new count from its text, status, open date, due date and scale from their cells |
| Extraction.AssignmentFieldsFromLastCells | SakaiParser.cs:244-276 | each field of an assignment row comes from the last cell with its header, and is empty without one |
| Extraction.ExtractAssignment | SakaiParser.cs:234-278 | the foreach over the cells of a row computes `AssignmentOfRow` |
| Extraction.SplitStudentText | SakaiParser.cs:422-425 | succeeds exactly when the ID pattern matches and " (" occurs; the ID is the first group and the name is the text before the first " (" |
| Extraction.StudentTextRoundTrip | SakaiParser.cs:83-86 | splitting the text `StudentInfo.ToString` shows gives back the name and the ID, for a non-empty name without parentheses or leading white space and an ID of pattern characters |
| Extraction.StudentOfRowYields | SakaiParser.cs:446-448 | a row throws exactly when a cell does; otherwise it yields a student exactly when the last student-name cell splits into a non-empty name and ID; the student is keyed by ID, named and identified by that split, with the href of that cell's first link as grade link, submitted, status, grade and released from their last cells, flagged exactly when the row shows "attachments.gif", and with no files yet |
| Extraction.StudentFieldsFromLastCells | SakaiParser.cs:428-443 | submitted, status and grade come from the last cell with their header; released holds exactly when that cell shows "checkon.gif" |
| Extraction.StudentNameFromLastCell | SakaiParser.cs:420-427 | the name and the ID are the split of the trimmed text of the last student-name cell and the grade link is the href of its first link; all three are empty without one |
| Extraction.ExtractStudent | SakaiParser.cs:407-448 | the foreach over the cells of a row computes `StudentOfRow` |
| Extraction.ListRowsAppend | SakaiParser.cs:400-405 | the rows of two runs of tables are the rows of each, in order |
| Extraction.AttachedFilesAppend | SakaiParser.cs:335-340 | the files of two runs of lists are the files of each, in order |
| AttachmentWalk.WalkArrivesAtNextAttached | SakaiParser.cs:359-383 | the walk arrives strictly later, at a student with attachments, skipping only students without |
| AttachmentWalk.WalkFinishesPastLastAttached | SakaiParser.cs:359-368 | the walk finishes only when no later student has attachments |
| AttachmentWalk.WalkStuckOnlyAtEmptyAssignment | SakaiParser.cs:359-371 | the walk throws only outside the assignments or on reaching an assignment without students, with no student with attachments on the way |
| Workflow.LoadedStudentsStopsAtFault | SakaiParser.cs:404-450 | after the first exception, later rows change nothing |
| Workflow.AppendFilesTwice | SakaiParser.cs:345-353 | appending files in two batches appends them all, in order |
| Workflow.WalkOnItems | SakaiParser.cs:359-371 | one step of the walk read on the dictionary: the student index wraps to the next assignment, past the last one the walk finishes, and a missing student throws |
| Workflow.TitleIndexFromIsFirst | SakaiParser.cs:469-477 | the search finds the first trimmed match at or after the start, and -1 only when there is none |
| WorkflowProperties.SignalIgnoredIff | SakaiParser.cs:160-167 | a signal is ignored exactly when no reload is expected and its URL is not the browser's; an ignored signal changes nothing |
| WorkflowProperties.DispatchNeverIgnored | SakaiParser.cs:169-389 | once admitted, a signal is handled or throws |
| WorkflowProperties.ExpectedReloadAdmitsAnySignal | SakaiParser.cs:160-167 | with a reload expected, any signal is admitted, whatever its URL |
| WorkflowProperties.HandledStepNavigatesAtMostOnce | SakaiParser.cs:158-389 | a handled signal keeps the earlier navigations and adds at most one; a reload is left expected only with a new navigation of the content frame |
| WorkflowProperties.IdleStaysIdle | SakaiParser.cs:386-388 | in Idle a signal throws nothing and changes nothing but the reload flag |
| WorkflowProperties.StepFollowsTaskOrder | SakaiParser.cs:169-389 | a handled signal moves along LogIn, GetMembershipLink, ParseWorksites, GoToAssignments, ParseAssignments, LoadStudents, LoadStudentAttachments, Idle; ReloadStudents and Idle never leave |
| WorkflowProperties.LoadStudentsTask | SakaiParser.cs:301-327 | LoadStudents stays, moves to the attachments, or goes idle |
| WorkflowProperties.AttachmentStepTask | SakaiParser.cs:328-385 | the attachment step keeps its task or goes idle |
| WorkflowProperties.MembershipLinkIsLastMatch | SakaiParser.cs:197-208 | opens the last membership link; without one it reuses the stored link and throws when that is empty |
| WorkflowProperties.AssignmentsLinkIsLastMatch | SakaiParser.cs:209-223 | opens the last assignments link, and throws when the page has none |
| WorkflowProperties.WorksitesAreTheWorksiteCells | SakaiParser.cs:174-196 | the list is read exactly when every worksite cell has a link and no name repeats; the keys are then the worksite names in order, the values the hrefs of the cells' first links, and the chosen worksite is opened exactly when it is among them, at the href of the cell with its name |
| WorkflowProperties.WorksiteListRead | SakaiParser.cs:176-189 | the worksite dictionary, rebuilt from empty, succeeds exactly when no cell throws and the names are distinct, and then holds the names with the hrefs of their cells |
| WorkflowProperties.ParseAssignmentsAppends | SakaiParser.cs:224-294 | only appends; succeeds exactly when every row reads and the titles are new and distinct; then the accepted assignments are appended in row order, keyed by title, with no students |
| WorkflowProperties.ReparsedAssignmentListThrows | SakaiParser.cs:277-278 | a list showing a stored title throws a duplicate key |
| WorkflowProperties.LoadedStudentsAppends | SakaiParser.cs:396-453 | only the students of the current assignment change, earlier ones stay in place; succeeds exactly when every row reads and the IDs are new and distinct, and then appends them in row order |
| WorkflowProperties.LoadedStudentsWithoutAssignment | SakaiParser.cs:446-448 | with no current assignment nothing changes, and the read succeeds only when no student is accepted |
| WorkflowProperties.ReloadOfKnownStudentThrows | SakaiParser.cs:295-300 | reloading a list that shows a student already read throws a duplicate key |
| WorkflowProperties.LoadStudentsMovesOn | SakaiParser.cs:301-327 | while assignments remain, the next one is opened with a reload expected; after the last, the first student with attachments is opened, or the parser goes idle when no student has any |
| WorkflowProperties.StartAttachmentsGoesToFirstAttached | SakaiParser.cs:313-322 | starting on the attachments keeps the assignments and goes to the first student with attachments, or idles when there is none |
| WorkflowProperties.AppendFilesTouchesOneStudent | SakaiParser.cs:345-353 | appending files changes the file list of one student and nothing else |
| WorkflowProperties.AttachmentStepRecordsFiles | SakaiParser.cs:331-357 | with the flag set, the files of the page are appended in link order to the current student; with no such student it throws; otherwise the assignments are unchanged; the attachment flags never change |
| WorkflowProperties.AttachmentStepMovesToNextAttached | SakaiParser.cs:359-385 | the step moves strictly forward to the next student with attachments, skipping only students without, and goes idle only when no later student has any |
| WorkflowProperties.StepKeepsWellFormed | SakaiParser.cs:158-389 | no signal makes two entries of a dictionary share a key |
| WorkflowProperties.StoredStudentsDistinct | SakaiParser.cs:460-463 | in a well-formed state the IDs stored under any title are distinct |
| WorkflowProperties.UpdateSubmissionsFindsTitle | SakaiParser.cs:465-488 | the first assignment whose trimmed title matches is reloaded with a reload expected; with no match only the index -1 is stored |

## Left out

- The WinForms `WebBrowser`, `HtmlElement` and frame access are left out. Each page is given to
  the handler as plain data (`Dom.Page`); a null element (a missing table, form or frame) is
  not modelled.
- Filling in the user name and password in `LogIn` (lines 511-513) is browser I/O. The model
  records only the navigation of the login frame and the change of task. The `UserName` and
  `Password` properties are left out for this reason.
- The `InitialUrl` property setter is left out: the initial URL is fixed when the parser is
  made.
- The `window.location` regular expression over an anchor's outer HTML (lines 267-268) is not
  evaluated. Each anchor carries its result as an optional string.
- The event wiring at line 133 and the asynchronous arrival of completion signals are not
  modelled. Each signal is one call of `DocumentCompleted`.
- `Uri` equality of the signal's URL and the browser's URL (line 162) is modelled as string
  equality.
- `dctStudentInfos` is only ever cleared (lines 289 and 484) and never read, so it is left
  out.
- `InnerText` is never null in the model.
- `Text.IsWordChar`: the class `\w` of the student-ID pattern is restricted to ASCII letters,
  digits and the underscore. Unicode letters and digits are not matched.
- `Text.IndexOf`: the search for `" ("` at line 425 is ordinal in the model. `String.IndexOf(string)`
  compares with the current culture, which ignores characters such as the soft hyphen; a
  student text with such a character between the blank and the parenthesis is split by the
  source but throws in the model.
- `Parser.SakaiParser285.GetStudentIDs` sorts IDs in ordinal order. `OrderBy` compares strings
  with the current culture, which the model does not capture.
- Strings are sequences of Unicode scalar values, without normalisation, while a .NET string
  is a sequence of UTF-16 code units. A model string cannot hold a lone surrogate, and a
  character above U+FFFF is one element rather than two. The ordinal order `Text.Le` compares
  scalar values, so it puts characters from U+10000 up after U+E000-U+FFFF, where .NET's
  ordinal order puts their surrogates before. This cannot change `GetStudentIDs`: an ID is a
  run of `Text.IsIdChar` characters, which are ASCII word characters, '|', '.' and white space
  of the Basic Multilingual Plane.
- Aliasing is not modelled. `Assignment` and `StudentInfo` objects are C# references; the model
  treats them as values and replaces the dictionary entry that holds them.
- `int` overflow of the two indices is not modelled; they never exceed the dictionary sizes.
- The `webBrowser` reference and the sender and event arguments of the handler are left out.
