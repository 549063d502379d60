/** What the page-load state machine guarantees, proved about Step and its per-task steps. */
module WorkflowProperties {
  import opened Wrappers
  import opened Text
  import opened Dictionaries
  import opened Entities
  import opened Dom
  import opened Extraction
  import opened AttachmentWalk
  import opened Workflow

  // ----- Admission of a completion signal --------------------------------------------

  /** A signal is ignored exactly when no reload is expected and it is for another document
      than the one the browser shows; an ignored signal changes nothing. */
  lemma SignalIgnoredIff(s: ParserState, signalUrl: string, browserUrl: string, page: Page)
    ensures Step(s, signalUrl, browserUrl, page).outcome == Ignored <==> !s.confidentLoad && signalUrl != browserUrl
    ensures Step(s, signalUrl, browserUrl, page).outcome == Ignored ==> Step(s, signalUrl, browserUrl, page).state == s
  {
    if s.confidentLoad || signalUrl == browserUrl {
      DispatchNeverIgnored(s.(confidentLoad := false), page);
    }
  }

  lemma DispatchNeverIgnored(s: ParserState, page: Page)
    ensures Dispatch(s, page).outcome != Ignored
  {
    match s.webBrowserTask
    case LoadStudents =>
      var b := LoadedStudents(s.assignmentItems, s.indexOfProcessingAssignment, ListRows(page.tables));
      if b.fault.None? {
        var s1 := s.(assignmentItems := b.dict);
        var idx := s.indexOfProcessingAssignment + 1;
        if idx >= |b.dict| {
          StartAttachmentsNeverIgnored(s1.(confidentLoad := true, indexOfProcessingAssignment := idx), page.lists);
        }
      }
    case _ =>
  }

  lemma StartAttachmentsNeverIgnored(s: ParserState, lists: seq<ListElement>)
    ensures StartAttachmentsStep(s, lists).outcome != Ignored
  {
    var s3 := s.(webBrowserTask := LoadStudentAttachments, indexOfProcessingAssignment := 0,
                 indexOfProcessingStudent := 0, confidentLoad := false, attachmentPresent := false);
    assert AttachmentStep(s3, lists).outcome != Ignored;
  }

  /** Once a reload is expected, the next signal is taken whatever its URL. */
  lemma ExpectedReloadAdmitsAnySignal(s: ParserState, u1: string, b1: string, u2: string, b2: string, page: Page)
    requires s.confidentLoad
    ensures Step(s, u1, b1, page) == Step(s, u2, b2, page)
    ensures Step(s, u1, b1, page).outcome != Ignored
  {
    var s0 := s.(confidentLoad := false);
    assert Step(s, u1, b1, page) == Dispatch(s0, page);
    assert Step(s, u2, b2, page) == Dispatch(s0, page);
    DispatchNeverIgnored(s0, page);
  }

  /** From s to t at most one navigation was issued and the earlier ones were kept; when t
      expects a reload, exactly one was issued, of the content frame. */
  predicate NavigatesAtMostOnce(s: ParserState, t: ParserState) {
    && |s.navigations| <= |t.navigations| <= |s.navigations| + 1
    && t.navigations[..|s.navigations|] == s.navigations
    && (t.confidentLoad ==> |t.navigations| == |s.navigations| + 1 && t.navigations[|s.navigations|].frame == ContentFrame)
  }

  /** A handled signal issues at most one navigation and keeps the earlier ones; when it
      leaves a reload expected, it issued exactly one, of the content frame. */
  lemma HandledStepNavigatesAtMostOnce(s: ParserState, signalUrl: string, browserUrl: string, page: Page)
    requires Step(s, signalUrl, browserUrl, page).outcome == Handled
    ensures NavigatesAtMostOnce(s, Step(s, signalUrl, browserUrl, page).state)
  {
    var s0 := s.(confidentLoad := false);
    assert Step(s, signalUrl, browserUrl, page) == Dispatch(s0, page);
    DispatchNavigatesAtMostOnce(s0, page);
  }

  lemma DispatchNavigatesAtMostOnce(s: ParserState, page: Page)
    requires !s.confidentLoad && Dispatch(s, page).outcome == Handled
    ensures NavigatesAtMostOnce(s, Dispatch(s, page).state)
  {
    match s.webBrowserTask
    case LoadStudents => LoadStudentsNavigatesAtMostOnce(s, ListRows(page.tables), page.lists);
    case LoadStudentAttachments => AttachmentStepNavigatesAtMostOnce(s, page.lists);
    case _ =>
  }

  lemma LoadStudentsNavigatesAtMostOnce(s: ParserState, rows: seq<Row>, lists: seq<ListElement>)
    requires LoadStudentsStep(s, rows, lists).outcome == Handled
    ensures NavigatesAtMostOnce(s, LoadStudentsStep(s, rows, lists).state)
  {
    var b := LoadedStudents(s.assignmentItems, s.indexOfProcessingAssignment, rows);
    var s1 := s.(assignmentItems := b.dict);
    var idx := s.indexOfProcessingAssignment + 1;
    if idx >= |b.dict| {
      var s2 := s1.(confidentLoad := true, indexOfProcessingAssignment := idx);
      assert LoadStudentsStep(s, rows, lists) == StartAttachmentsStep(s2, lists);
      StartAttachmentsNavigatesAtMostOnce(s2, lists);
    }
  }

  lemma StartAttachmentsNavigatesAtMostOnce(s: ParserState, lists: seq<ListElement>)
    requires StartAttachmentsStep(s, lists).outcome == Handled
    ensures NavigatesAtMostOnce(s, StartAttachmentsStep(s, lists).state)
  {
    var items := s.assignmentItems;
    if ValidPair(items, 0, 0) && !StudentAt(items, 0, 0).filesAttached {
      var s3 := s.(webBrowserTask := LoadStudentAttachments, indexOfProcessingAssignment := 0,
                   indexOfProcessingStudent := 0, confidentLoad := false, attachmentPresent := false);
      assert StartAttachmentsStep(s, lists) == AttachmentStep(s3, lists);
      AttachmentStepNavigatesAtMostOnce(s3, lists);
    }
  }

  lemma AttachmentStepNavigatesAtMostOnce(s: ParserState, lists: seq<ListElement>)
    requires !s.confidentLoad
    requires AttachmentStep(s, lists).outcome == Handled
    ensures NavigatesAtMostOnce(s, AttachmentStep(s, lists).state)
  {
  }

  // ----- The WebBrowserTask order ------------------------------------------------------

  /** The task that may follow t after a handled signal. */
  predicate NextTask(t: WebBrowserTask, t2: WebBrowserTask) {
    match t
    case LogIn => t2 == GetMembershipLink
    case GetMembershipLink => t2 == ParseWorksites
    case ParseWorksites => t2 == GoToAssignments
    case GoToAssignments => t2 == ParseAssignments
    case ParseAssignments => t2 == LoadStudents
    case LoadStudents => t2 == LoadStudents || t2 == LoadStudentAttachments || t2 == Idle
    case ReloadStudents => t2 == ReloadStudents
    case LoadStudentAttachments => t2 == LoadStudentAttachments || t2 == Idle
    case Idle => t2 == Idle
  }

  /** Once idle, an admitted signal does nothing but consume the expectation of a reload. */
  lemma IdleStaysIdle(s: ParserState, signalUrl: string, browserUrl: string, page: Page)
    requires s.webBrowserTask == Idle
    ensures var t := Step(s, signalUrl, browserUrl, page);
      !t.outcome.Thrown? && t.state.(confidentLoad := s.confidentLoad) == s
  {
  }

  /** A handled signal moves webBrowserTask along the login - worksites - assignments - students
      - attachments chain; a thrown one leaves it where it was, or at its successor. */
  lemma StepFollowsTaskOrder(s: ParserState, signalUrl: string, browserUrl: string, page: Page)
    ensures var t := Step(s, signalUrl, browserUrl, page);
      t.outcome == Handled ==> NextTask(s.webBrowserTask, t.state.webBrowserTask)
    ensures var t := Step(s, signalUrl, browserUrl, page);
      t.outcome.Thrown? ==> t.state.webBrowserTask == s.webBrowserTask || NextTask(s.webBrowserTask, t.state.webBrowserTask)
  {
    if s.confidentLoad || signalUrl == browserUrl {
      var s0 := s.(confidentLoad := false);
      match s.webBrowserTask
      case LoadStudents => LoadStudentsTask(s0, ListRows(page.tables), page.lists);
      case LoadStudentAttachments => AttachmentStepTask(s0, page.lists);
      case _ =>
    }
  }

  /** The students step stays on the students, or moves on to the attachments, or past them. */
  lemma LoadStudentsTask(s: ParserState, rows: seq<Row>, lists: seq<ListElement>)
    requires s.webBrowserTask == LoadStudents
    ensures var t := LoadStudentsStep(s, rows, lists).state.webBrowserTask;
      t == LoadStudents || t == LoadStudentAttachments || t == Idle
  {
    var b := LoadedStudents(s.assignmentItems, s.indexOfProcessingAssignment, rows);
    if b.fault.None? {
      var s1 := s.(assignmentItems := b.dict);
      var idx := s.indexOfProcessingAssignment + 1;
      if idx >= |b.dict| {
        StartAttachmentsTask(s1.(confidentLoad := true, indexOfProcessingAssignment := idx), lists);
      }
    }
  }

  lemma StartAttachmentsTask(s: ParserState, lists: seq<ListElement>)
    ensures var t := StartAttachmentsStep(s, lists).state.webBrowserTask;
      t == LoadStudentAttachments || t == Idle
  {
    var s3 := s.(webBrowserTask := LoadStudentAttachments, indexOfProcessingAssignment := 0,
                 indexOfProcessingStudent := 0, confidentLoad := true);
    AttachmentStepTask(s3.(attachmentPresent := false, confidentLoad := false), lists);
  }

  /** The attachment step stays on the attachments or, past the last student, goes idle. */
  lemma AttachmentStepTask(s: ParserState, lists: seq<ListElement>)
    ensures var t := AttachmentStep(s, lists).state.webBrowserTask;
      t == s.webBrowserTask || t == Idle
  {
  }

  // ----- Links -----------------------------------------------------------------------

  /** The membership step opens the last membership link of the page; with none it reuses the
      link found before, and throws when there is no such link either. */
  lemma MembershipLinkIsLastMatch(s: ParserState, anchors: seq<Anchor>)
    ensures (forall i :: 0 <= i < |anchors| ==> anchors[i].className != MembershipClass) ==>
      MembershipLinkStep(s, anchors) ==
        if s.linkToMembership == "" then Transition(s, Thrown(MembershipLinkNotFound))
        else Transition(s.(webBrowserTask := ParseWorksites,
                           navigations := s.navigations + [Navigation(Window, s.linkToMembership)]), Handled)
    ensures forall i :: 0 <= i < |anchors| && anchors[i].className == MembershipClass && NoneAfter(anchors, MembershipClass, i) ==>
              (&& MembershipLinkStep(s, anchors).state.linkToMembership == anchors[i].href
               && (MembershipLinkStep(s, anchors).outcome == Handled <==> anchors[i].href != "")
               && (anchors[i].href != "" ==>
                     MembershipLinkStep(s, anchors).state.navigations == s.navigations + [Navigation(Window, anchors[i].href)]))
  {
    LastHrefIsLastMatch(anchors, MembershipClass, s.linkToMembership);
  }

  /** The assignments step opens the last assignments link of the page, and throws when the
      page has none. */
  lemma AssignmentsLinkIsLastMatch(s: ParserState, anchors: seq<Anchor>)
    ensures (forall i :: 0 <= i < |anchors| ==> anchors[i].className != AssignmentsClass) ==>
      AssignmentsLinkStep(s, anchors) == Transition(s, Thrown(AssignmentsLinkNotFound))
    ensures forall i :: 0 <= i < |anchors| && anchors[i].className == AssignmentsClass && NoneAfter(anchors, AssignmentsClass, i) ==>
              (&& (AssignmentsLinkStep(s, anchors).outcome == Handled <==> anchors[i].href != "")
               && (anchors[i].href != "" ==>
                     AssignmentsLinkStep(s, anchors).state.navigations == s.navigations + [Navigation(Window, anchors[i].href)]))
  {
    LastHrefIsLastMatch(anchors, AssignmentsClass, "");
  }

  // ----- Worksites -------------------------------------------------------------------

  lemma DistinctKeysIff<V>(d: Dict<V>)
    ensures DistinctKeys(d) <==> Distinct(Keys(d))
  {
  }

  /** The worksite list is read in full exactly when every worksite cell has a link and no
      name repeats; the worksites are then the names of the cells, in order, each with the
      href of its cell's first link, and the chosen worksite is opened, at that href, exactly
      when it is among them. */
  lemma WorksitesAreTheWorksiteCells(s: ParserState, cells: seq<Cell>)
    requires s.webBrowserTask == ParseWorksites
    ensures var t := ParseWorksitesStep(s, cells);
      t.state.webBrowserTask == GoToAssignments <==> NoneThrows(cells, WorksiteOf) && Distinct(WorksiteNames(cells))
    ensures var t := ParseWorksitesStep(s, cells);
      t.state.webBrowserTask == GoToAssignments ==>
        && Keys(t.state.worksites) == WorksiteNames(cells)
        && Values(t.state.worksites) == WorksiteLinks(cells)
        && (t.outcome == Handled <==> s.worksiteName in WorksiteNames(cells))
        && (t.outcome == Handled ==>
              exists i :: 0 <= i < |WorksiteNames(cells)| && WorksiteNames(cells)[i] == s.worksiteName
                          && t.state.navigations == s.navigations + [Navigation(Window, WorksiteLinks(cells)[i])])
  {
    WorksiteListRead(cells);
    var b := AddAll([], true, cells, WorksiteOf);
    if b.fault.None? {
      assert s.worksiteName in Keys(b.dict) <==> HasKey(b.dict, s.worksiteName);
      var t := ParseWorksitesStep(s, cells);
      if t.outcome == Handled {
        var i :| 0 <= i < |b.dict| && b.dict[i] == Entry(s.worksiteName, Lookup(b.dict, s.worksiteName).value);
        assert Keys(b.dict)[i] == s.worksiteName && Values(b.dict)[i] == b.dict[i].value;
      }
    }
  }

  /** The worksite cells are read in full exactly when every worksite cell has a link and
      no name repeats; the keys are then the names of the cells and the values the hrefs of
      their first links. */
  lemma WorksiteListRead(cells: seq<Cell>)
    ensures var b := AddAll([], true, cells, WorksiteOf);
      && (b.fault.None? <==> NoneThrows(cells, WorksiteOf) && Distinct(WorksiteNames(cells)))
      && (b.fault.None? ==> Keys(b.dict) == WorksiteNames(cells) && Values(b.dict) == WorksiteLinks(cells))
  {
    var acc := Accepted(cells, WorksiteOf);
    assert [] + acc == acc;
    AddAllSucceedsIff([], cells, WorksiteOf);
    DistinctKeysIff(acc);
    if NoneThrows(cells, WorksiteOf) {
      WorksiteKeysAreNames(cells);
      WorksiteValuesAreLinks(cells);
    }
  }

  // ----- Assignments -----------------------------------------------------------------

  /** Reading the assignment list only appends: the assignments stored before stay, in place.
      It succeeds exactly when every row can be read and the titles read are new and
      distinct; the assignments read are then appended in row order, with no students. */
  lemma ParseAssignmentsAppends(s: ParserState, rows: seq<Row>)
    requires DistinctKeys(s.assignmentItems)
    ensures var items := ParseAssignmentsStep(s, rows).state.assignmentItems;
      |s.assignmentItems| <= |items| && items[..|s.assignmentItems|] == s.assignmentItems
    ensures ParseAssignmentsStep(s, rows).outcome == Handled <==>
      NoneThrows(rows, AssignmentOfRow) && DistinctKeys(s.assignmentItems + Accepted(rows, AssignmentOfRow))
    ensures ParseAssignmentsStep(s, rows).outcome == Handled ==>
      ParseAssignmentsStep(s, rows).state.assignmentItems == s.assignmentItems + Accepted(rows, AssignmentOfRow)
    ensures var items := ParseAssignmentsStep(s, rows).state.assignmentItems;
      forall i :: |s.assignmentItems| <= i < |items| ==> items[i].value.students == [] && items[i].key == items[i].value.title
  {
    AddAllKeepsEntries(s.assignmentItems, true, rows, AssignmentOfRow);
    AddAllSucceedsIff(s.assignmentItems, rows, AssignmentOfRow);
    AddAllAddsYielded(s.assignmentItems, true, rows, AssignmentOfRow,
                      (e: Entry<Assignment>) => e.value.students == [] && e.key == e.value.title);
  }

  /** Since the assignment dictionary is never cleared, reading a list again that shows an
      assignment already stored throws a duplicate key. */
  lemma ReparsedAssignmentListThrows(s: ParserState, rows: seq<Row>, k: string)
    requires DistinctKeys(s.assignmentItems)
    requires NoneThrows(rows, AssignmentOfRow)
    requires HasKey(s.assignmentItems, k) && HasKey(Accepted(rows, AssignmentOfRow), k)
    ensures ParseAssignmentsStep(s, rows).outcome.Thrown?
    ensures ParseAssignmentsStep(s, rows).outcome.fault.DuplicateKey?
  {
    var acc := s.assignmentItems + Accepted(rows, AssignmentOfRow);
    var i :| 0 <= i < |s.assignmentItems| && s.assignmentItems[i].key == k;
    var j :| 0 <= j < |Accepted(rows, AssignmentOfRow)| && Accepted(rows, AssignmentOfRow)[j].key == k;
    assert acc[i].key == acc[|s.assignmentItems| + j].key;
    AddAllSucceedsIff(s.assignmentItems, rows, AssignmentOfRow);
    AddAllFaultIsDuplicate(s.assignmentItems, rows, AssignmentOfRow);
  }

  // ----- Students --------------------------------------------------------------------

  /** Reading a submission list changes only the students of the current assignment, which
      keep their order; it succeeds exactly when every row can be read and the IDs read are
      new and distinct, and then appends the students read, in row order. */
  lemma LoadedStudentsAppends(items: Dict<Assignment>, idx: int, rows: seq<Row>)
    requires 0 <= idx < |items| && DistinctKeys(items[idx].value.students)
    ensures var b := LoadedStudents(items, idx, rows);
      && |b.dict| == |items|
      && (forall j :: 0 <= j < |items| && j != idx ==> b.dict[j] == items[j])
      && b.dict[idx].key == items[idx].key
      && b.dict[idx].value == items[idx].value.(students := b.dict[idx].value.students)
      && |items[idx].value.students| <= |b.dict[idx].value.students|
      && b.dict[idx].value.students[..|items[idx].value.students|] == items[idx].value.students
      && DistinctKeys(b.dict[idx].value.students)
    ensures var b := LoadedStudents(items, idx, rows);
      b.fault.None? <==> NoneThrows(rows, StudentOfRow)
                         && DistinctKeys(items[idx].value.students + Accepted(rows, StudentOfRow))
    ensures var b := LoadedStudents(items, idx, rows);
      b.fault.None? ==> b.dict[idx].value.students == items[idx].value.students + Accepted(rows, StudentOfRow)
  {
    AddAllKeepsEntries(items[idx].value.students, true, rows, StudentOfRow);
    AddAllSucceedsIff(items[idx].value.students, rows, StudentOfRow);
  }

  /** With no current assignment, reading a submission list changes nothing and succeeds
      only on a list from which no student is accepted. */
  lemma LoadedStudentsWithoutAssignment(items: Dict<Assignment>, idx: int, rows: seq<Row>)
    requires !(0 <= idx < |items|)
    ensures LoadedStudents(items, idx, rows).dict == items
    ensures LoadedStudents(items, idx, rows).fault.None? <==> NoneThrows(rows, StudentOfRow) && Accepted(rows, StudentOfRow) == []
  {
    AddAllUnreachable([], rows, StudentOfRow);
  }

  /** The students of an assignment are never cleared: reloading a list that shows a student
      already read throws a duplicate key. */
  lemma ReloadOfKnownStudentThrows(s: ParserState, rows: seq<Row>, k: string)
    requires 0 <= s.indexOfProcessingAssignment < |s.assignmentItems|
    requires DistinctKeys(s.assignmentItems[s.indexOfProcessingAssignment].value.students)
    requires NoneThrows(rows, StudentOfRow)
    requires HasKey(s.assignmentItems[s.indexOfProcessingAssignment].value.students, k)
    requires HasKey(Accepted(rows, StudentOfRow), k)
    ensures ReloadStudentsStep(s, rows).outcome.Thrown?
    ensures ReloadStudentsStep(s, rows).outcome.fault.DuplicateKey?
  {
    var old_ := s.assignmentItems[s.indexOfProcessingAssignment].value.students;
    var acc := old_ + Accepted(rows, StudentOfRow);
    var i :| 0 <= i < |old_| && old_[i].key == k;
    var j :| 0 <= j < |Accepted(rows, StudentOfRow)| && Accepted(rows, StudentOfRow)[j].key == k;
    assert acc[i].key == acc[|old_| + j].key;
    AddAllSucceedsIff(old_, rows, StudentOfRow);
    AddAllFaultIsDuplicate(old_, rows, StudentOfRow);
  }

  /** The first student, in assignment then dictionary order, with attachments. */
  ghost predicate FirstAttached(r: seq<seq<bool>>, a: int, st: int) {
    Attached(r, a, st) && forall a3, s3 :: Before(a3, s3, a, st) ==> !Attached(r, a3, s3)
  }

  /** While assignments remain, LoadStudents opens the next one and expects its reload; after
      the last, it goes to the first student with attachments, or goes idle when no student
      has any. */
  lemma LoadStudentsMovesOn(s: ParserState, rows: seq<Row>, lists: seq<ListElement>)
    requires s.webBrowserTask == LoadStudents
    ensures var t := LoadStudentsStep(s, rows, lists);
      t.outcome == Handled && t.state.webBrowserTask == LoadStudents ==>
        && t.state.indexOfProcessingAssignment == s.indexOfProcessingAssignment + 1
        && 0 <= t.state.indexOfProcessingAssignment < |t.state.assignmentItems|
        && t.state.confidentLoad
        && t.state.navigations ==
             s.navigations + [Navigation(ContentFrame, t.state.assignmentItems[t.state.indexOfProcessingAssignment].value.link)]
    ensures var t := LoadStudentsStep(s, rows, lists);
      t.outcome == Handled && t.state.webBrowserTask == LoadStudentAttachments ==>
        && FirstAttached(Roster(t.state.assignmentItems), t.state.indexOfProcessingAssignment, t.state.indexOfProcessingStudent)
        && t.state.attachmentPresent && t.state.confidentLoad
        && t.state.navigations == s.navigations + [Navigation(ContentFrame,
             StudentAt(t.state.assignmentItems, t.state.indexOfProcessingAssignment, t.state.indexOfProcessingStudent).gradeLink)]
    ensures var t := LoadStudentsStep(s, rows, lists);
      t.outcome == Handled && t.state.webBrowserTask == Idle ==>
        forall a3, s3 :: !Attached(Roster(t.state.assignmentItems), a3, s3)
  {
    var b := LoadedStudents(s.assignmentItems, s.indexOfProcessingAssignment, rows);
    if b.fault.None? {
      var s1 := s.(assignmentItems := b.dict);
      var idx := s.indexOfProcessingAssignment + 1;
      assert LoadStudentsStep(s, rows, lists) == NextAssignmentStep(s1, lists);
      if idx >= |b.dict| {
        var s2 := s1.(confidentLoad := true, indexOfProcessingAssignment := idx);
        assert LoadStudentsStep(s, rows, lists) == StartAttachmentsStep(s2, lists);
        StartAttachmentsTask(s2, lists);
        StartAttachmentsGoesToFirstAttached(s2, lists);
      }
    }
  }

  /** Starting on the attachments keeps the assignments, and goes to the first student with
      attachments, or goes idle when no student has any. */
  lemma StartAttachmentsGoesToFirstAttached(s: ParserState, lists: seq<ListElement>)
    ensures var t := StartAttachmentsStep(s, lists);
      t.state.assignmentItems == s.assignmentItems
    ensures var t := StartAttachmentsStep(s, lists);
      t.outcome == Handled && t.state.webBrowserTask == LoadStudentAttachments ==>
        && FirstAttached(Roster(s.assignmentItems), t.state.indexOfProcessingAssignment, t.state.indexOfProcessingStudent)
        && t.state.attachmentPresent && t.state.confidentLoad
        && t.state.navigations == s.navigations + [Navigation(ContentFrame,
             StudentAt(s.assignmentItems, t.state.indexOfProcessingAssignment, t.state.indexOfProcessingStudent).gradeLink)]
    ensures var t := StartAttachmentsStep(s, lists);
      t.outcome == Handled && t.state.webBrowserTask == Idle ==>
        forall a3, s3 :: !Attached(Roster(s.assignmentItems), a3, s3)
  {
    var items := s.assignmentItems;
    var r := Roster(items);
    if ValidPair(items, 0, 0) {
      if StudentAt(items, 0, 0).filesAttached {
        assert FirstAttached(r, 0, 0);
      } else {
        var s3 := s.(webBrowserTask := LoadStudentAttachments, indexOfProcessingAssignment := 0,
                     indexOfProcessingStudent := 0, confidentLoad := false, attachmentPresent := false);
        assert StartAttachmentsStep(s, lists) == AfterWalk(s3, 0, 0, false);
        FirstWalk(s3);
      }
    }
  }

  /** The walk from the first student, who has no attachments, stops at the first student
      with attachments, or finishes when no student has any. */
  lemma FirstWalk(s: ParserState)
    requires s.webBrowserTask == LoadStudentAttachments
    requires ValidPair(s.assignmentItems, 0, 0) && !StudentAt(s.assignmentItems, 0, 0).filesAttached
    ensures var t := AfterWalk(s, 0, 0, false); var r := Roster(s.assignmentItems);
      && t.state.assignmentItems == s.assignmentItems
      && (t.outcome == Handled && t.state.webBrowserTask == s.webBrowserTask ==>
            && FirstAttached(r, t.state.indexOfProcessingAssignment, t.state.indexOfProcessingStudent)
            && t.state.attachmentPresent && t.state.confidentLoad
            && t.state.navigations == s.navigations + [Navigation(ContentFrame,
                 StudentAt(s.assignmentItems, t.state.indexOfProcessingAssignment, t.state.indexOfProcessingStudent).gradeLink)])
      && (t.outcome == Handled && t.state.webBrowserTask == Idle ==> forall a3, s3 :: !Attached(r, a3, s3))
  {
    var r := Roster(s.assignmentItems);
    AfterWalkKeepsData(s, 0, 0, false);
    assert !Attached(r, 0, 0);
    assert forall a3, s3 :: Attached(r, a3, s3) ==> Before(0, 0, a3, s3);
    match Walk(r, 0, 0, false)
    case Finished(_) =>
      WalkFinishesPastLastAttached(r, 0, 0, false);
    case Arrived(a2, s2) =>
      WalkArrivesAtNextAttached(r, 0, 0, false);
      assert FirstAttached(r, a2, s2);
    case Stuck(_, _, _) =>
  }

  // ----- Attachments -----------------------------------------------------------------

  /** Appending files changes the file list of one student and nothing else. */
  lemma AppendFilesTouchesOneStudent(items: Dict<Assignment>, a: int, st: int, files: seq<SubmittedFile>)
    requires ValidPair(items, a, st)
    ensures var items' := AppendFiles(items, a, st, files);
      && |items'| == |items|
      && Roster(items') == Roster(items)
      && (forall j :: 0 <= j < |items| ==>
            && items'[j].key == items[j].key
            && items'[j].value == items[j].value.(students := items'[j].value.students)
            && Keys(items'[j].value.students) == Keys(items[j].value.students))
      && (forall a2, s2 :: ValidPair(items, a2, s2) && (a2, s2) != (a, st) ==> StudentAt(items', a2, s2) == StudentAt(items, a2, s2))
      && StudentAt(items', a, st)
           == StudentAt(items, a, st).(submittedFiles := Some(StudentAt(items, a, st).submittedFiles.GetOr([]) + files))
  {
    var items' := AppendFiles(items, a, st, files);
    assert Keys(items'[a].value.students) == Keys(items[a].value.students);
    forall a2 | 0 <= a2 < |items| ensures Roster(items')[a2] == Roster(items)[a2] {
      assert |Roster(items')[a2]| == |Roster(items)[a2]|;
    }
  }

  /** The attachment step records the files of the grading page, in link order, for the
      current student when they have attachments, and leaves the assignments as they were
      otherwise. */
  lemma AttachmentStepRecordsFiles(s: ParserState, lists: seq<ListElement>)
    ensures var t := AttachmentStep(s, lists); var a, st := s.indexOfProcessingAssignment, s.indexOfProcessingStudent;
      s.attachmentPresent && AttachedFiles(lists) != [] && ValidPair(s.assignmentItems, a, st) ==>
        StudentAt(t.state.assignmentItems, a, st).submittedFiles
          == Some(StudentAt(s.assignmentItems, a, st).submittedFiles.GetOr([]) + AttachedFiles(lists))
    ensures var t := AttachmentStep(s, lists); var a, st := s.indexOfProcessingAssignment, s.indexOfProcessingStudent;
      s.attachmentPresent && AttachedFiles(lists) != [] && !ValidPair(s.assignmentItems, a, st) ==>
        t == Transition(s, Thrown(OutOfRange))
    ensures var t := AttachmentStep(s, lists);
      !s.attachmentPresent || AttachedFiles(lists) == [] ==> t.state.assignmentItems == s.assignmentItems
    ensures Roster(AttachmentStep(s, lists).state.assignmentItems) == Roster(s.assignmentItems)
  {
    var a, st := s.indexOfProcessingAssignment, s.indexOfProcessingStudent;
    var files := if s.attachmentPresent then AttachedFiles(lists) else [];
    if !(files != [] && !ValidPair(s.assignmentItems, a, st)) {
      var items' := WithFiles(s.assignmentItems, a, st, files);
      AfterWalkKeepsData(s.(assignmentItems := items'), a, st, s.attachmentPresent);
      if files != [] {
        AppendFilesTouchesOneStudent(s.assignmentItems, a, st, files);
      }
    }
  }

  /** The attachment step moves forward to the next student with attachments, skipping every
      student without, and goes idle only when no later student has attachments. */
  lemma AttachmentStepMovesToNextAttached(s: ParserState, lists: seq<ListElement>)
    requires s.webBrowserTask == LoadStudentAttachments
    ensures var t := AttachmentStep(s, lists); var r := Roster(s.assignmentItems);
      var a, st := s.indexOfProcessingAssignment, s.indexOfProcessingStudent;
      var a2, s2 := t.state.indexOfProcessingAssignment, t.state.indexOfProcessingStudent;
      t.outcome == Handled && t.state.webBrowserTask == LoadStudentAttachments ==>
        && Before(a, st, a2, s2) && Attached(r, a2, s2)
        && (forall a3, s3 :: Before(a, st, a3, s3) && Before(a3, s3, a2, s2) ==> !Attached(r, a3, s3))
        && t.state.attachmentPresent && t.state.confidentLoad
        && t.state.navigations == s.navigations + [Navigation(ContentFrame, StudentAt(t.state.assignmentItems, a2, s2).gradeLink)]
    ensures var t := AttachmentStep(s, lists); var r := Roster(s.assignmentItems);
      var a, st := s.indexOfProcessingAssignment, s.indexOfProcessingStudent;
      t.outcome == Handled && t.state.webBrowserTask == Idle ==>
        forall a3, s3 :: Before(a, st, a3, s3) ==> !Attached(r, a3, s3)
  {
    AttachmentStepRecordsFiles(s, lists);
    var a, st := s.indexOfProcessingAssignment, s.indexOfProcessingStudent;
    var r := Roster(s.assignmentItems);
    var w := Walk(r, a, st, s.attachmentPresent);
    if w.Arrived? {
      WalkArrivesAtNextAttached(r, a, st, s.attachmentPresent);
    } else if w.Finished? {
      WalkFinishesPastLastAttached(r, a, st, s.attachmentPresent);
    }
  }

  // ----- Well-formed state -----------------------------------------------------------

  /** Keys are distinct in every dictionary of the parser. */
  predicate WellFormed(s: ParserState) {
    && DistinctKeys(s.worksites)
    && DistinctKeys(s.assignmentItems)
    && forall a :: 0 <= a < |s.assignmentItems| ==> DistinctKeys(s.assignmentItems[a].value.students)
  }

  /** The students stored under a title have distinct IDs in a well-formed state. */
  lemma StoredStudentsDistinct(s: ParserState, title: string)
    requires WellFormed(s) && Lookup(s.assignmentItems, title).Some?
    ensures Distinct(Keys(Lookup(s.assignmentItems, title).value.students))
  {
    var a := Lookup(s.assignmentItems, title).value;
    var i :| 0 <= i < |s.assignmentItems| && s.assignmentItems[i] == Entry(title, a);
    DistinctKeysIff(a.students);
  }

  lemma LoadedStudentsKeepsWellFormed(s: ParserState, rows: seq<Row>)
    requires WellFormed(s)
    ensures WellFormed(s.(assignmentItems := LoadedStudents(s.assignmentItems, s.indexOfProcessingAssignment, rows).dict))
  {
    var idx := s.indexOfProcessingAssignment;
    if 0 <= idx < |s.assignmentItems| {
      LoadedStudentsAppends(s.assignmentItems, idx, rows);
    }
  }

  /** Starting on the attachments changes neither dictionary. */
  lemma StartAttachmentsKeepsData(s: ParserState, lists: seq<ListElement>)
    ensures StartAttachmentsStep(s, lists).state.assignmentItems == s.assignmentItems
    ensures StartAttachmentsStep(s, lists).state.worksites == s.worksites
  {
    var items := s.assignmentItems;
    if ValidPair(items, 0, 0) && !StudentAt(items, 0, 0).filesAttached {
      var s3 := s.(webBrowserTask := LoadStudentAttachments, indexOfProcessingAssignment := 0,
                   indexOfProcessingStudent := 0, confidentLoad := false, attachmentPresent := false);
      assert StartAttachmentsStep(s, lists) == AfterWalk(s3, 0, 0, false);
      AfterWalkKeepsData(s3, 0, 0, false);
    }
  }

  lemma AfterWalkKeepsData(s: ParserState, a: int, st: nat, present: bool)
    ensures AfterWalk(s, a, st, present).state.assignmentItems == s.assignmentItems
    ensures AfterWalk(s, a, st, present).state.worksites == s.worksites
  {
  }

  lemma AttachmentStepKeepsWellFormed(s: ParserState, lists: seq<ListElement>)
    requires WellFormed(s)
    ensures WellFormed(AttachmentStep(s, lists).state)
  {
    var a, st := s.indexOfProcessingAssignment, s.indexOfProcessingStudent;
    var files := if s.attachmentPresent then AttachedFiles(lists) else [];
    if !(files != [] && !ValidPair(s.assignmentItems, a, st)) {
      var items' := WithFiles(s.assignmentItems, a, st, files);
      AfterWalkKeepsData(s.(assignmentItems := items'), a, st, s.attachmentPresent);
      if files != [] {
        AppendFilesKeepsWellFormed(s, a, st, files);
      }
    }
  }

  lemma AppendFilesKeepsWellFormed(s: ParserState, a: int, st: int, files: seq<SubmittedFile>)
    requires WellFormed(s) && ValidPair(s.assignmentItems, a, st)
    ensures WellFormed(s.(assignmentItems := AppendFiles(s.assignmentItems, a, st, files)))
  {
    var items' := AppendFiles(s.assignmentItems, a, st, files);
    AppendFilesTouchesOneStudent(s.assignmentItems, a, st, files);
    forall j | 0 <= j < |items'| ensures DistinctKeys(items'[j].value.students) {
      DistinctKeysIff(items'[j].value.students);
      DistinctKeysIff(s.assignmentItems[j].value.students);
    }
  }

  lemma ParseWorksitesKeepsWellFormed(s: ParserState, cells: seq<Cell>)
    requires WellFormed(s)
    ensures WellFormed(ParseWorksitesStep(s, cells).state)
  {
    AddAllKeepsEntries([], true, cells, WorksiteOf);
    assert ParseWorksitesStep(s, cells).state.worksites == AddAll([], true, cells, WorksiteOf).dict;
    assert ParseWorksitesStep(s, cells).state.assignmentItems == s.assignmentItems;
  }

  lemma ParseAssignmentsKeepsWellFormed(s: ParserState, rows: seq<Row>)
    requires WellFormed(s)
    ensures WellFormed(ParseAssignmentsStep(s, rows).state)
  {
    var b := AddAll(s.assignmentItems, true, rows, AssignmentOfRow);
    AddAllKeepsEntries(s.assignmentItems, true, rows, AssignmentOfRow);
    AddAllAddsYielded(s.assignmentItems, true, rows, AssignmentOfRow, (e: Entry<Assignment>) => e.value.students == []);
    forall a | 0 <= a < |b.dict| ensures DistinctKeys(b.dict[a].value.students) {
      if a < |s.assignmentItems| { assert b.dict[a] == b.dict[..|s.assignmentItems|][a]; }
    }
    assert ParseAssignmentsStep(s, rows).state.assignmentItems == b.dict;
  }

  lemma LoadStudentsKeepsWellFormed(s: ParserState, rows: seq<Row>, lists: seq<ListElement>)
    requires WellFormed(s)
    ensures WellFormed(LoadStudentsStep(s, rows, lists).state)
  {
    LoadedStudentsKeepsWellFormed(s, rows);
    var b := LoadedStudents(s.assignmentItems, s.indexOfProcessingAssignment, rows);
    var s1 := s.(assignmentItems := b.dict);
    var idx := s.indexOfProcessingAssignment + 1;
    if b.fault.None? && idx >= |b.dict| {
      var s2 := s1.(confidentLoad := true, indexOfProcessingAssignment := idx);
      assert LoadStudentsStep(s, rows, lists) == StartAttachmentsStep(s2, lists);
      StartAttachmentsKeepsData(s2, lists);
    }
  }

  /** No signal makes two entries of a dictionary share a key. */
  lemma StepKeepsWellFormed(s: ParserState, signalUrl: string, browserUrl: string, page: Page)
    requires WellFormed(s)
    ensures WellFormed(Step(s, signalUrl, browserUrl, page).state)
  {
    var s0 := s.(confidentLoad := false);
    if s.confidentLoad || signalUrl == browserUrl {
      assert Step(s, signalUrl, browserUrl, page) == Dispatch(s0, page);
      DispatchKeepsWellFormed(s0, page);
    }
  }

  lemma DispatchKeepsWellFormed(s: ParserState, page: Page)
    requires WellFormed(s)
    ensures WellFormed(Dispatch(s, page).state)
  {
    var rows := ListRows(page.tables);
    match s.webBrowserTask
    case ParseWorksites =>
      assert Dispatch(s, page) == ParseWorksitesStep(s, page.siteCells);
      ParseWorksitesKeepsWellFormed(s, page.siteCells);
    case ParseAssignments =>
      assert Dispatch(s, page) == ParseAssignmentsStep(s, rows);
      ParseAssignmentsKeepsWellFormed(s, rows);
    case ReloadStudents =>
      assert Dispatch(s, page) == ReloadStudentsStep(s, rows);
      LoadedStudentsKeepsWellFormed(s, rows);
    case LoadStudents =>
      assert Dispatch(s, page) == LoadStudentsStep(s, rows, page.lists);
      LoadStudentsKeepsWellFormed(s, rows, page.lists);
    case LoadStudentAttachments =>
      assert Dispatch(s, page) == AttachmentStep(s, page.lists);
      AttachmentStepKeepsWellFormed(s, page.lists);
    case LogIn =>
      assert Dispatch(s, page) == LogInStep(s);
    case GetMembershipLink =>
      assert Dispatch(s, page) == MembershipLinkStep(s, page.anchors);
    case GoToAssignments =>
      assert Dispatch(s, page) == AssignmentsLinkStep(s, page.anchors);
    case Idle =>
  }

  // ----- Reloading one assignment ----------------------------------------------------

  /** UpdateAssignmentSubmissions reloads the first assignment whose trimmed title is the one
      asked for, and otherwise only records the index -1. */
  lemma UpdateSubmissionsFindsTitle(s: ParserState, title: string)
    ensures var t := UpdateSubmissionsStep(s, title);
      (exists i :: 0 <= i < |s.assignmentItems| && Trim(s.assignmentItems[i].key) == title) <==> t.indexOfProcessingAssignment != -1
    ensures var t := UpdateSubmissionsStep(s, title); var i := t.indexOfProcessingAssignment;
      i != -1 ==>
        && 0 <= i < |s.assignmentItems| && Trim(s.assignmentItems[i].key) == title
        && (forall j :: 0 <= j < i ==> Trim(s.assignmentItems[j].key) != title)
        && t == s.(indexOfProcessingAssignment := i, webBrowserTask := ReloadStudents, confidentLoad := true,
                   navigations := s.navigations + [Navigation(ContentFrame, s.assignmentItems[i].value.link)])
    ensures var t := UpdateSubmissionsStep(s, title);
      t.indexOfProcessingAssignment == -1 ==> t == s.(indexOfProcessingAssignment := -1)
  {
    TitleIndexFromIsFirst(s.assignmentItems, title, 0);
  }
}
