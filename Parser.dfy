/** SakaiParser285: the parser object, whose fields the handler of the browser's
    DocumentCompleted event updates in place. Each method is proved against the step of
    the Workflow module it implements. */
module Parser {
  import opened Wrappers
  import opened Text
  import opened Dictionaries
  import opened Entities
  import opened Dom
  import opened Extraction
  import opened AttachmentWalk
  import opened Workflow
  import opened Lookups
  import opened Seqs
  import WorkflowProperties

  class SakaiParser285 {
    /** The start page, fixed when the parser is made; its setter is not part of this model. */
    const initialUrl: string
    var webBrowserTask: WebBrowserTask
    var worksites: Dict<string>
    var assignmentItems: Dict<Assignment>
    var worksiteName: string
    var linkToMembership: string
    var indexOfProcessingAssignment: int
    var indexOfProcessingStudent: nat
    var confidentLoad: bool
    var attachmentPresent: bool
    /** The navigations issued so far, oldest first. */
    var navigations: seq<Navigation>

    function State(): ParserState
      reads this
    {
      ParserState(webBrowserTask, worksites, assignmentItems, worksiteName, linkToMembership,
                  indexOfProcessingAssignment, indexOfProcessingStudent, confidentLoad, attachmentPresent, navigations)
    }

    /** The class invariant: no dictionary holds two entries under one key, as a C#
        Dictionary never does. Every public method keeps it. */
    ghost predicate Valid()
      reads this
    {
      WorkflowProperties.WellFormed(State())
    }

    /** Lines 121-134: idle, with empty dictionaries and names, nothing expected. */
    constructor (initialUrl: string)
      ensures this.initialUrl == initialUrl
      ensures State() == ParserState(Idle, [], [], "", "", 0, 0, false, false, [])
      ensures Valid()
    {
      this.initialUrl := initialUrl;
      webBrowserTask := WebBrowserTask.Idle;
      worksites := [];
      assignmentItems := [];
      worksiteName := "";
      linkToMembership := "";
      indexOfProcessingAssignment := 0;
      indexOfProcessingStudent := 0;
      confidentLoad := false;
      attachmentPresent := false;
      navigations := [];
    }

    method SetWorksiteName(worksiteName: string)
      requires Valid()
      modifies this
      ensures Valid()
      ensures State() == old(State()).(worksiteName := worksiteName)
    {
      this.worksiteName := worksiteName;
    }

    /** Lines 147-151: start logging in at the initial URL. */
    method Initialize()
      requires Valid()
      modifies this
      ensures Valid()
      ensures State() == old(State()).(webBrowserTask := WebBrowserTask.LogIn, navigations := old(navigations) + [Navigation(Window, initialUrl)])
    {
      webBrowserTask := WebBrowserTask.LogIn;
      navigations := navigations + [Navigation(Window, initialUrl)];
    }

    /** Lines 140-145: Initialize(string). */
    method InitializeWorksite(worksiteName: string)
      requires Valid()
      modifies this
      ensures Valid()
      ensures State() == old(State()).(worksiteName := worksiteName, webBrowserTask := WebBrowserTask.LogIn,
                                       navigations := old(navigations) + [Navigation(Window, initialUrl)])
    {
      SetWorksiteName(worksiteName);
      Initialize();
    }

    /** webBrowser_DocumentCompleted (lines 158-388) for a signal about signalUrl while the
        browser shows browserUrl and the page holds page. */
    method DocumentCompleted(signalUrl: string, browserUrl: string, page: Page) returns (outcome: Outcome)
      requires Valid()
      modifies this
      ensures Transition(State(), outcome) == Step(old(State()), signalUrl, browserUrl, page)
      ensures Valid()
    {
      ghost var s0 := State();
      WorkflowProperties.StepKeepsWellFormed(s0, signalUrl, browserUrl, page);
      if !confidentLoad {
        if signalUrl != browserUrl {
          return Ignored;
        }
      } else {
        confidentLoad := false;
      }
      match webBrowserTask
      case LogIn =>
        outcome := LogIn();
      case ParseWorksites =>
        outcome := ParseWorksites(page.siteCells);
      case GetMembershipLink =>
        outcome := GetMembershipLink(page.anchors);
      case GoToAssignments =>
        outcome := GoToAssignments(page.anchors);
      case ParseAssignments =>
        outcome := ParseAssignments(page.tables);
      case ReloadStudents =>
        var fault := ParseLoadingStudents(page.tables);
        outcome := if fault.Some? then Thrown(fault.value) else Handled;
      case LoadStudents =>
        outcome := LoadStudents(page.tables, page.lists);
      case LoadStudentAttachments =>
        outcome := LoadStudentAttachments(page.lists);
      case Idle =>
        outcome := Handled;
    }

    /** LogIn (lines 509-516); filling in the form is not modelled. */
    method LogIn() returns (outcome: Outcome)
      modifies this
      ensures Transition(State(), outcome) == LogInStep(old(State()))
    {
      navigations := navigations + [Navigation(LoginFrame, SubmitLogin)];
      webBrowserTask := WebBrowserTask.GetMembershipLink;
      outcome := Handled;
    }

    method ParseWorksites(cells: seq<Cell>) returns (outcome: Outcome)
      modifies this
      ensures Transition(State(), outcome) == ParseWorksitesStep(old(State()), cells)
    {
      worksites := [];
      var i := 0;
      while i < |cells|
        invariant 0 <= i <= |cells|
        invariant AddAll([], true, cells[..i], WorksiteOf) == Built(worksites, None)
        invariant State() == old(State()).(worksites := worksites)
      {
        var td := cells[i];
        assert cells[..i + 1][..i] == cells[..i];
        assert cells[..i + 1] + cells[i + 1..] == cells;
        if td.headers == "worksite" {
          if |td.anchors| == 0 {
            AddAllStopsAtFault([], true, cells[..i + 1], cells[i + 1..], WorksiteOf);
            return Thrown(OutOfRange);
          }
          var link := td.anchors[0].href;
          if HasKey(worksites, td.text) {
            AddAllStopsAtFault([], true, cells[..i + 1], cells[i + 1..], WorksiteOf);
            return Thrown(DuplicateKey(td.text));
          }
          worksites := worksites + [Entry(td.text, link)];
        }
        i := i + 1;
      }
      assert cells[..i] == cells;
      webBrowserTask := WebBrowserTask.GoToAssignments;
      var link := Lookup(worksites, worksiteName);
      if link.None? {
        return Thrown(KeyNotFound(worksiteName));
      }
      navigations := navigations + [Navigation(Window, link.value)];
      outcome := Handled;
    }

    method GetMembershipLink(anchors: seq<Anchor>) returns (outcome: Outcome)
      modifies this
      ensures Transition(State(), outcome) == MembershipLinkStep(old(State()), anchors)
    {
      linkToMembership := FindLinkByClass(anchors, MembershipClass, linkToMembership);
      if linkToMembership == "" {
        return Thrown(MembershipLinkNotFound);
      }
      webBrowserTask := WebBrowserTask.ParseWorksites;
      navigations := navigations + [Navigation(Window, linkToMembership)];
      outcome := Handled;
    }

    method GoToAssignments(anchors: seq<Anchor>) returns (outcome: Outcome)
      modifies this
      ensures Transition(State(), outcome) == AssignmentsLinkStep(old(State()), anchors)
    {
      var linkToAssignments := FindLinkByClass(anchors, AssignmentsClass, "");
      if linkToAssignments == "" {
        return Thrown(AssignmentsLinkNotFound);
      }
      webBrowserTask := WebBrowserTask.ParseAssignments;
      navigations := navigations + [Navigation(Window, linkToAssignments)];
      outcome := Handled;
    }

    /** ParseAssignments (lines 224-294). */
    method ParseAssignments(tables: seq<Table>) returns (outcome: Outcome)
      modifies this
      ensures Transition(State(), outcome) == ParseAssignmentsStep(old(State()), ListRows(tables))
    {
      var items, fault := ParseAssignmentTables(assignmentItems, tables);
      assignmentItems := items;
      if fault.Some? {
        return Thrown(fault.value);
      }
      indexOfProcessingAssignment := 0;
      webBrowserTask := WebBrowserTask.LoadStudents;
      if |assignmentItems| >= 1 {
        confidentLoad := true;
        navigations := navigations + [Navigation(ContentFrame, assignmentItems[0].value.link)];
      }
      outcome := Handled;
    }

    /** The foreach over the tables of the content frame (lines 227-281), adding to items
        the assignments of each list table. The handler adds them to its dictionary in
        place; here the dictionary is passed in and the one built is handed back, with the
        exception that ended the loop, if any. */
    method ParseAssignmentTables(items: Dict<Assignment>, tables: seq<Table>) returns (items': Dict<Assignment>, fault: Option<Fault>)
      ensures AddAll(items, true, ListRows(tables), AssignmentOfRow) == Built(items', fault)
    {
      items' := items;
      var t := 0;
      assert ListRows(tables[..t]) == [];
      while t < |tables|
        invariant 0 <= t <= |tables|
        invariant AddAll(items, true, ListRows(tables[..t]), AssignmentOfRow) == Built(items', None)
      {
        if tables[t].className == ListTableClass {
          ListRowsSnoc(tables, t);
          items', fault := AddAssignmentRows(items', items, ListRows(tables[..t]), tables[t].rows);
          if fault.Some? {
            ListRowsSplitAfter(tables, t);
            AddAllStopsAtFault(items, true, ListRows(tables[..t + 1]), ListRows(tables[t + 1..]), AssignmentOfRow);
            return;
          }
        } else {
          ListRowsSkip(tables, t);
        }
        t := t + 1;
      }
      assert tables[..t] == tables;
      fault := None;
    }

    /** The rows of one assignment table (lines 231-279), read into items, the dictionary
        the rows before have built. */
    method AddAssignmentRows(items: Dict<Assignment>, ghost items0: Dict<Assignment>, ghost before: seq<Row>, rows: seq<Row>)
      returns (items': Dict<Assignment>, fault: Option<Fault>)
      requires AddAll(items0, true, before, AssignmentOfRow) == Built(items, None)
      ensures AddAll(items0, true, before + rows, AssignmentOfRow) == Built(items', fault)
    {
      items' := items;
      var k := 0;
      assert before + rows[..k] == before;
      while k < |rows|
        invariant 0 <= k <= |rows|
        invariant AddAll(items0, true, before + rows[..k], AssignmentOfRow) == Built(items', None)
      {
        ghost var done := before + rows[..k + 1];
        PrefixStep(before, rows, k);
        AddAllSnoc(items0, true, before + rows[..k], rows[k], AssignmentOfRow);
        var r := ExtractAssignment(rows[k]);
        if r.Failure? {
          AddAllStopsAtFault(items0, true, done, rows[k + 1..], AssignmentOfRow);
          return items', Some(r.error);
        }
        if r.value.Some? {
          var e := r.value.value;
          if HasKey(items', e.key) {
            AddAllStopsAtFault(items0, true, done, rows[k + 1..], AssignmentOfRow);
            return items', Some(DuplicateKey(e.key));
          }
          items' := items' + [e];
        }
        k := k + 1;
      }
      assert rows[..k] == rows;
      fault := None;
    }

    /** ParseLoadingStudents (lines 396-453); the exception it throws, if any. */
    method ParseLoadingStudents(tables: seq<Table>) returns (fault: Option<Fault>)
      modifies this
      ensures var b := LoadedStudents(old(assignmentItems), old(indexOfProcessingAssignment), ListRows(tables));
        assignmentItems == b.dict && fault == b.fault
      ensures State() == old(State()).(assignmentItems := assignmentItems)
    {
      var items;
      items, fault := ParseStudentTables(assignmentItems, indexOfProcessingAssignment, tables);
      assignmentItems := items;
    }

    /** The foreach over the tables of the content frame (lines 400-452), adding the
        students of each list table to assignment idx of items. As for the assignments,
        the dictionary is passed in and the one built is handed back. */
    method ParseStudentTables(items: Dict<Assignment>, idx: int, tables: seq<Table>) returns (items': Dict<Assignment>, fault: Option<Fault>)
      ensures LoadedStudents(items, idx, ListRows(tables)) == Built(items', fault)
    {
      items' := items;
      var t := 0;
      assert ListRows(tables[..t]) == [];
      LoadedStudentsOfNoRows(items, idx);
      while t < |tables|
        invariant 0 <= t <= |tables|
        invariant LoadedStudents(items, idx, ListRows(tables[..t])) == Built(items', None)
      {
        if tables[t].className == ListTableClass {
          ListRowsSnoc(tables, t);
          items', fault := AddStudentRows(items', items, idx, ListRows(tables[..t]), tables[t].rows);
          if fault.Some? {
            ListRowsSplitAfter(tables, t);
            LoadedStudentsStopsAtFault(items, idx, ListRows(tables[..t + 1]), ListRows(tables[t + 1..]));
            return;
          }
        } else {
          ListRowsSkip(tables, t);
        }
        t := t + 1;
      }
      assert tables[..t] == tables;
      fault := None;
    }

    /** The rows of one submission table (lines 404-450), read into the students of
        assignment idx of items, the dictionary the rows before have built. */
    method AddStudentRows(items: Dict<Assignment>, ghost items0: Dict<Assignment>, idx: int, ghost before: seq<Row>, rows: seq<Row>)
      returns (items': Dict<Assignment>, fault: Option<Fault>)
      requires LoadedStudents(items0, idx, before) == Built(items, None)
      ensures LoadedStudents(items0, idx, before + rows) == Built(items', fault)
    {
      items' := items;
      var k := 0;
      assert before + rows[..k] == before;
      while k < |rows|
        invariant 0 <= k <= |rows|
        invariant LoadedStudents(items0, idx, before + rows[..k]) == Built(items', None)
      {
        ghost var done := before + rows[..k + 1];
        PrefixStep(before, rows, k);
        LoadedStudentsSnoc(items0, idx, before + rows[..k], rows[k]);
        var r := ExtractStudent(rows[k]);
        items', fault := AddStudent(items', idx, r);
        if fault.Some? {
          LoadedStudentsStopsAtFault(items0, idx, done, rows[k + 1..]);
          return;
        }
        k := k + 1;
      }
      assert rows[..k] == rows;
      fault := None;
    }

    /** One row's student added to assignment idx (lines 420-448): the ElementAt that
        selects the assignment throws when idx is out of range, and Add throws on an ID
        already present. */
    method AddStudent(items: Dict<Assignment>, idx: int, r: Result<Option<Entry<StudentInfo>>, Fault>)
      returns (items': Dict<Assignment>, fault: Option<Fault>)
      ensures Built(items', fault) == StudentRowAdded(items, idx, r)
    {
      items', fault := items, None;
      if r.Failure? {
        return items, Some(r.error);
      }
      if r.value.Some? {
        var e := r.value.value;
        if !(0 <= idx < |items|) {
          return items, Some(OutOfRange);
        }
        var asg := items[idx];
        if HasKey(asg.value.students, e.key) {
          return items, Some(DuplicateKey(e.key));
        }
        items' := items[idx := Entry(asg.key, asg.value.(students := asg.value.students + [e]))];
      }
    }

    /** LoadStudents (lines 301-327). */
    method LoadStudents(tables: seq<Table>, lists: seq<ListElement>) returns (outcome: Outcome)
      modifies this
      ensures Transition(State(), outcome) == LoadStudentsStep(old(State()), ListRows(tables), lists)
    {
      var fault := ParseLoadingStudents(tables);
      if fault.Some? {
        return Thrown(fault.value);
      }
      outcome := NextAssignment(lists);
    }

    /** Lines 306-325: on to the next assignment, or to the attachments after the last. */
    method NextAssignment(lists: seq<ListElement>) returns (outcome: Outcome)
      modifies this
      ensures Transition(State(), outcome) == NextAssignmentStep(old(State()), lists)
    {
      confidentLoad := true;
      indexOfProcessingAssignment := indexOfProcessingAssignment + 1;
      if indexOfProcessingAssignment >= |assignmentItems| {
        outcome := StartAttachments(lists);
      } else if indexOfProcessingAssignment < 0 {
        return Thrown(OutOfRange);
      } else {
        navigations := navigations + [Navigation(ContentFrame, assignmentItems[indexOfProcessingAssignment].value.link)];
        outcome := Handled;
      }
    }

    /** Lines 313-322: the attachments start at the first student of the first assignment. */
    method StartAttachments(lists: seq<ListElement>) returns (outcome: Outcome)
      modifies this
      ensures Transition(State(), outcome) == StartAttachmentsStep(old(State()), lists)
    {
      webBrowserTask := WebBrowserTask.LoadStudentAttachments;
      indexOfProcessingAssignment := 0;
      indexOfProcessingStudent := 0;
      confidentLoad := true;
      if !ValidPair(assignmentItems, 0, 0) {
        return Thrown(OutOfRange);
      }
      attachmentPresent := StudentAt(assignmentItems, 0, 0).filesAttached;
      if attachmentPresent {
        navigations := navigations + [Navigation(ContentFrame, StudentAt(assignmentItems, 0, 0).gradeLink)];
        return Handled;
      }
      // The recursive call of line 322: with a reload expected, it clears the flag and
      // goes straight to the attachment step.
      confidentLoad := false;
      outcome := LoadStudentAttachments(lists);
    }

    /** LoadStudentAttachments (lines 328-385): when the current student has attachments,
        the files of the grading page are added to them; then the walk moves on. */
    method LoadStudentAttachments(lists: seq<ListElement>) returns (outcome: Outcome)
      requires !confidentLoad
      modifies this
      ensures Transition(State(), outcome) == AttachmentStep(old(State()), lists)
    {
      if attachmentPresent {
        var items, fault := RecordAttachments(assignmentItems, indexOfProcessingAssignment, indexOfProcessingStudent, lists);
        if fault.Some? {
          return Thrown(fault.value);
        }
        assignmentItems := items;
      }
      outcome := WalkAttachments();
    }

    /** Lines 331-357: the files of the grading page are added, link by link, to student st
        of assignment a of items; the first link throws when there is no such student, and
        the dictionary is then as it was. */
    method RecordAttachments(items: Dict<Assignment>, a: int, st: nat, lists: seq<ListElement>)
      returns (items': Dict<Assignment>, fault: Option<Fault>)
      ensures var files := AttachedFiles(lists);
        if files != [] && !ValidPair(items, a, st) then fault == Some(OutOfRange) && items' == items
        else fault == None && items' == WithFiles(items, a, st, files)
    {
      items' := items;
      var t := 0;
      while t < |lists|
        invariant 0 <= t <= |lists|
        invariant AttachedFiles(lists[..t]) != [] ==> ValidPair(items, a, st)
        invariant items' == WithFiles(items, a, st, AttachedFiles(lists[..t]))
      {
        AttachedFilesSnoc(lists, t);
        items', fault := AddListFiles(items', a, st, lists[t], items, AttachedFiles(lists[..t]));
        if fault.Some? {
          AttachedFilesSplitAfter(lists, t);
          return items, fault;
        }
        t := t + 1;
      }
      assert lists[..t] == lists;
      fault := None;
    }

    /** One list of the grading page (lines 335-356): when it is an attachment list, each
        of its links is added as a file of student st of assignment a of items0, after the
        files before; items holds those already. */
    method AddListFiles(items: Dict<Assignment>, a: int, st: nat, ul: ListElement,
                        ghost items0: Dict<Assignment>, ghost before: seq<SubmittedFile>)
      returns (items': Dict<Assignment>, fault: Option<Fault>)
      requires before != [] ==> ValidPair(items0, a, st)
      requires items == WithFiles(items0, a, st, before)
      ensures var files := before + FilesOf(ul);
        if files != [] && !ValidPair(items0, a, st) then fault.Some? && fault.value == OutOfRange
        else fault == None && items' == WithFiles(items0, a, st, files)
    {
      items', fault := items, None;
      if ul.className != AttachListClass {
        assert before + FilesOf(ul) == before;
        return;
      }
      var k := 0;
      assert before + FilesOf(ul)[..k] == before;
      while k < |ul.anchors|
        invariant 0 <= k <= |ul.anchors|
        invariant before + FilesOf(ul)[..k] != [] ==> ValidPair(items0, a, st)
        invariant items' == WithFiles(items0, a, st, before + FilesOf(ul)[..k])
      {
        var file := SubmittedFile(ul.anchors[k].text, ul.anchors[k].href);
        if !ValidPair(items', a, st) {
          assert before + FilesOf(ul) != [] by {
            assert |FilesOf(ul)| == |ul.anchors|;
          }
          return items', Some(OutOfRange);
        }
        assert ValidPair(items0, a, st);
        WithFilesSnoc(items0, a, st, before + FilesOf(ul)[..k], file);
        PrefixStep(before, FilesOf(ul), k);
        items' := AppendFiles(items', a, st, [file]);
        k := k + 1;
      }
      assert FilesOf(ul)[..k] == FilesOf(ul);
    }

    /** Lines 359-382 with the recursive call of line 382 unrolled into a loop, run on
        local copies of the two indices and the attachment flag: advance to the next
        student, skipping those without attachments, until a student with some is found,
        the assignments run out, or an ElementAt is out of range. */
    method WalkFrom(a0: int, s0: nat, p0: bool) returns (w: WalkEnd)
      ensures w == Walk(Roster(assignmentItems), a0, s0, p0)
    {
      var a: int, st: nat, present := a0, s0, p0;
      ghost var r := Roster(assignmentItems);
      while true
        invariant Walk(r, a, st, present) == Walk(r, a0, s0, p0)
        decreases |assignmentItems| - a, if 0 <= a < |assignmentItems| then |assignmentItems[a].value.students| - st else 0
      {
        WalkOnItems(assignmentItems, a, st, present);
        if !(0 <= a < |assignmentItems|) {
          return Stuck(a, st + 1, present);
        }
        var na, ns := a, st + 1;
        if ns >= |assignmentItems[a].value.students| {
          na, ns := a + 1, 0;
          if na >= |assignmentItems| {
            assert (na, ns) == NextPair(assignmentItems, a, st);
            return Finished(present);
          }
        }
        assert (na, ns) == NextPair(assignmentItems, a, st);
        if !ValidPair(assignmentItems, na, ns) {
          return Stuck(na, ns, present);
        }
        if StudentAt(assignmentItems, na, ns).filesAttached {
          return Arrived(na, ns);
        }
        // Line 381 expects a reload and the recursive call of line 382 clears the
        // expectation on entry (line 166); the flag being false, it records no files.
        a, st, present := na, ns, false;
      }
    }

    /** The walk from the current student, with the indices and the flag stored back where
        the handler returns or throws. */
    method WalkAttachments() returns (outcome: Outcome)
      requires !confidentLoad
      modifies this
      ensures Transition(State(), outcome)
              == AfterWalk(old(State()), old(indexOfProcessingAssignment), old(indexOfProcessingStudent), old(attachmentPresent))
    {
      ghost var s0 := State();
      var w := WalkFrom(indexOfProcessingAssignment, indexOfProcessingStudent, attachmentPresent);
      ghost var a0, st0, p0 := indexOfProcessingAssignment, indexOfProcessingStudent, attachmentPresent;
      match w
      case Finished(p) =>
        assert AfterWalk(s0, a0, st0, p0)
               == Transition(s0.(webBrowserTask := Idle, indexOfProcessingAssignment := |assignmentItems|,
                                 indexOfProcessingStudent := 0, attachmentPresent := p), Handled);
        FinishWalk(p);
        outcome := Handled;
      case Arrived(a, st) =>
        WalkArrivesAtNextAttached(Roster(assignmentItems), a0, st0, p0);
        var student := StudentAt(assignmentItems, a, st);
        assert AfterWalk(s0, a0, st0, p0)
               == Transition(s0.(indexOfProcessingAssignment := a, indexOfProcessingStudent := st,
                                 attachmentPresent := true, confidentLoad := true,
                                 navigations := s0.navigations + [Navigation(ContentFrame, student.gradeLink)]),
                             Handled);
        OpenGradingPage(a, st, student.gradeLink);
        outcome := Handled;
      case Stuck(a, st, p) =>
        assert AfterWalk(s0, a0, st0, p0)
               == Transition(s0.(indexOfProcessingAssignment := a, indexOfProcessingStudent := st,
                                 attachmentPresent := p), Thrown(OutOfRange));
        SetPosition(a, st, p);
        outcome := Thrown(OutOfRange);
    }

    /** Lines 362-368: past the last assignment, the handler goes idle. */
    method FinishWalk(p: bool)
      modifies this
      ensures State() == old(State()).(webBrowserTask := Idle, indexOfProcessingAssignment := |assignmentItems|,
                                       indexOfProcessingStudent := 0, attachmentPresent := p)
    {
      webBrowserTask := WebBrowserTask.Idle;
      indexOfProcessingAssignment, indexOfProcessingStudent, attachmentPresent := |assignmentItems|, 0, p;
    }

    /** Lines 371-377: at a student with attachments, expect the load of their grading page. */
    method OpenGradingPage(a: int, st: nat, gradeLink: string)
      modifies this
      ensures State() == old(State()).(indexOfProcessingAssignment := a, indexOfProcessingStudent := st,
                                       attachmentPresent := true, confidentLoad := true,
                                       navigations := old(navigations) + [Navigation(ContentFrame, gradeLink)])
    {
      indexOfProcessingAssignment, indexOfProcessingStudent, attachmentPresent := a, st, true;
      confidentLoad := true;
      navigations := navigations + [Navigation(ContentFrame, gradeLink)];
    }

    /** The indices and the flag as the walk left them. */
    method SetPosition(a: int, st: nat, p: bool)
      modifies this
      ensures State() == old(State()).(indexOfProcessingAssignment := a, indexOfProcessingStudent := st,
                                       attachmentPresent := p)
    {
      indexOfProcessingAssignment, indexOfProcessingStudent, attachmentPresent := a, st, p;
    }

    /** The loop of lines 468-477: the index of the first assignment whose trimmed key is
        the title, or -1. */
    method FindAssignment(assignmentTitle: string) returns (found: int)
      ensures found == TitleIndex(assignmentItems, assignmentTitle)
    {
      found := -1;
      var i := 0;
      while i < |assignmentItems|
        invariant 0 <= i <= |assignmentItems|
        invariant TitleIndexFrom(assignmentItems, assignmentTitle, i) == TitleIndex(assignmentItems, assignmentTitle)
      {
        var keyTrimmed := Trim(assignmentItems[i].key);
        if keyTrimmed == assignmentTitle {
          return i;
        }
        i := i + 1;
      }
    }

    /** UpdateAssignmentSubmissions (lines 465-487). */
    method UpdateAssignmentSubmissions(assignmentTitle: string)
      requires Valid()
      modifies this
      ensures Valid()
      ensures State() == UpdateSubmissionsStep(old(State()), assignmentTitle)
    {
      var found := FindAssignment(assignmentTitle);
      Reload(found);
    }

    /** Lines 478-486, once the search has found index `found`. */
    method Reload(found: int)
      requires found == -1 || 0 <= found < |assignmentItems|
      modifies this
      ensures State() == ReloadAt(old(State()), found)
    {
      indexOfProcessingAssignment := found;
      if found == -1 {
        return;
      }
      webBrowserTask := WebBrowserTask.ReloadStudents;
      // An assignment was found, so the test Count >= 1 of line 482 holds.
      confidentLoad := true;
      navigations := navigations + [Navigation(ContentFrame, assignmentItems[found].value.link)];
    }

    // ----- Getters ---------------------------------------------------------------------

    /** GetWorksites (lines 499-502): the worksite names, in the order they were read. */
    function GetWorksites(): (names: seq<string>)
      reads this
      ensures |names| == |worksites| && forall i :: 0 <= i < |worksites| ==> names[i] == worksites[i].key
    {
      Keys(worksites)
    }

    /** GetAssignmentItems (lines 494-497): the assignments, in the order they were read. */
    function GetAssignmentItems(): (items: seq<Assignment>)
      reads this
      ensures |items| == |assignmentItems| && forall i :: 0 <= i < |items| ==> items[i] == assignmentItems[i].value
    {
      Values(assignmentItems)
    }

    /** GetStudentsInformation (lines 455-458): the students of an assignment; an unknown
        title throws. */
    function GetStudentsInformation(assignmentTitle: string): (r: Result<Dict<StudentInfo>, Fault>)
      reads this
      ensures r.Failure? <==> !HasKey(assignmentItems, assignmentTitle)
      ensures r.Failure? ==> r.error == KeyNotFound(assignmentTitle)
      ensures r.Success? ==> exists i :: 0 <= i < |assignmentItems| && assignmentItems[i].key == assignmentTitle
                                          && assignmentItems[i].value.students == r.value
    {
      match Lookup(assignmentItems, assignmentTitle)
      case None => Failure(KeyNotFound(assignmentTitle))
      case Some(a) => Success(a.students)
    }

    /** GetStudentIDs (lines 460-463): the IDs of the students of an assignment, sorted and,
        the keys being distinct, without repeats; an unknown title throws. */
    function GetStudentIDs(assignmentTitle: string): (r: Result<seq<string>, Fault>)
      requires Valid()
      reads this
      ensures r.Failure? <==> !HasKey(assignmentItems, assignmentTitle)
      ensures r.Failure? ==> r.error == KeyNotFound(assignmentTitle)
      ensures r.Success? ==> Sorted(r.value)
      ensures r.Success? ==> exists i :: 0 <= i < |assignmentItems| && assignmentItems[i].key == assignmentTitle
                                          && multiset(r.value) == multiset(Keys(assignmentItems[i].value.students))
      ensures r.Success? ==> Distinct(r.value)
    {
      match Lookup(assignmentItems, assignmentTitle)
      case None => Failure(KeyNotFound(assignmentTitle))
      case Some(a) =>
        WorkflowProperties.StoredStudentsDistinct(State(), assignmentTitle);
        SortKeepsDistinct(Keys(a.students));
        Success(Sort(Keys(a.students)))
    }

    /** GetUserSubmissions (lines 504-507): the students of an assignment, in the order they
        were read; an unknown title throws. */
    function GetUserSubmissions(assignmentName: string): (r: Result<seq<StudentInfo>, Fault>)
      reads this
      ensures r.Failure? <==> !HasKey(assignmentItems, assignmentName)
      ensures r.Failure? ==> r.error == KeyNotFound(assignmentName)
      ensures r.Success? ==> exists i :: 0 <= i < |assignmentItems| && assignmentItems[i].key == assignmentName
                                          && |r.value| == |assignmentItems[i].value.students|
                                          && forall j :: 0 <= j < |r.value| ==> r.value[j] == assignmentItems[i].value.students[j].value
    {
      match Lookup(assignmentItems, assignmentName)
      case None => Failure(KeyNotFound(assignmentName))
      case Some(a) => Success(Values(a.students))
    }
  }
}
