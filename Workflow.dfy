/** The page-load state machine of SakaiParser285 as a function of its state: what one
    DocumentCompleted signal does (lines 158-388), and what UpdateAssignmentSubmissions
    does (lines 465-487). */
module Workflow {
  import opened Wrappers
  import opened Text
  import opened Dictionaries
  import opened Entities
  import opened Dom
  import opened Extraction
  import opened AttachmentWalk

  /** The fields of SakaiParser285 that the workflow reads and writes, and the navigations
      it has issued so far. */
  datatype ParserState = ParserState(
    webBrowserTask: WebBrowserTask,
    worksites: Dict<string>,
    assignmentItems: Dict<Assignment>,
    worksiteName: string,
    linkToMembership: string,
    indexOfProcessingAssignment: int,
    indexOfProcessingStudent: nat,
    confidentLoad: bool,
    attachmentPresent: bool,
    navigations: seq<Navigation>)

  /** Ignored: the signal was for a document other than the one navigated to.
      Handled: the handler returned normally.
      Thrown: the handler threw, leaving the state as it was at the throw. */
  datatype Outcome = Ignored | Handled | Thrown(fault: Fault)

  datatype Transition = Transition(state: ParserState, outcome: Outcome)

  /** The javascript URL the login step navigates the login frame to. */
  const SubmitLogin := "javascript:document.forms[0].submit()"

  /** The FilesAttached flags of every student of every assignment, in dictionary order. */
  function Roster(items: Dict<Assignment>): (r: seq<seq<bool>>)
    ensures |r| == |items|
    ensures forall a :: 0 <= a < |items| ==> |r[a]| == |items[a].value.students|
    ensures forall a, st :: 0 <= a < |items| && 0 <= st < |items[a].value.students| ==>
              r[a][st] == items[a].value.students[st].value.filesAttached
  {
    seq(|items|, a requires 0 <= a < |items| =>
      seq(|items[a].value.students|, st requires 0 <= st < |items[a].value.students| =>
        items[a].value.students[st].value.filesAttached))
  }

  /** Assignment a and its student st exist. */
  predicate ValidPair(items: Dict<Assignment>, a: int, st: int) {
    0 <= a < |items| && 0 <= st < |items[a].value.students|
  }

  function StudentAt(items: Dict<Assignment>, a: int, st: int): StudentInfo
    requires ValidPair(items, a, st)
  {
    items[a].value.students[st].value
  }

  /** The state after the signal for the document the browser shows, or any signal once a
      reload is expected (lines 160-167), has been dispatched on webBrowserTask. */
  function Step(s: ParserState, signalUrl: string, browserUrl: string, page: Page): Transition {
    if !s.confidentLoad && signalUrl != browserUrl then Transition(s, Ignored)
    else Dispatch(s.(confidentLoad := false), page)
  }

  /** The switch on webBrowserTask (lines 169-389). */
  function Dispatch(s: ParserState, page: Page): Transition {
    match s.webBrowserTask
    case LogIn => LogInStep(s)
    case ParseWorksites => ParseWorksitesStep(s, page.siteCells)
    case GetMembershipLink => MembershipLinkStep(s, page.anchors)
    case GoToAssignments => AssignmentsLinkStep(s, page.anchors)
    case ParseAssignments => ParseAssignmentsStep(s, ListRows(page.tables))
    case ReloadStudents => ReloadStudentsStep(s, ListRows(page.tables))
    case LoadStudents => LoadStudentsStep(s, ListRows(page.tables), page.lists)
    case LoadStudentAttachments => AttachmentStep(s, page.lists)
    case Idle => Transition(s, Handled)
  }

  /** LogIn (lines 509-516): submit the login form, then wait for the membership page. */
  function LogInStep(s: ParserState): Transition {
    Transition(s.(webBrowserTask := GetMembershipLink,
                  navigations := s.navigations + [Navigation(LoginFrame, SubmitLogin)]), Handled)
  }

  /** ParseWorksites (lines 174-196): rebuild the worksite dictionary from the cells of the
      worksite table, then open the chosen worksite. */
  function ParseWorksitesStep(s: ParserState, cells: seq<Cell>): Transition {
    var b := AddAll([], true, cells, WorksiteOf);
    var s1 := s.(worksites := b.dict);
    if b.fault.Some? then Transition(s1, Thrown(b.fault.value))
    else
      var s2 := s1.(webBrowserTask := GoToAssignments);
      match Lookup(b.dict, s.worksiteName)
      case None => Transition(s2, Thrown(KeyNotFound(s.worksiteName)))
      case Some(link) => Transition(s2.(navigations := s.navigations + [Navigation(Window, link)]), Handled)
  }

  /** GetMembershipLink (lines 197-208): the last membership link of the page, or the link
      already stored, must be non-empty. */
  function MembershipLinkStep(s: ParserState, anchors: seq<Anchor>): Transition {
    var link := LastHref(anchors, MembershipClass, s.linkToMembership);
    var s1 := s.(linkToMembership := link);
    if link == "" then Transition(s1, Thrown(MembershipLinkNotFound))
    else Transition(s1.(webBrowserTask := ParseWorksites,
                        navigations := s.navigations + [Navigation(Window, link)]), Handled)
  }

  /** GoToAssignments (lines 209-223): the last assignments link of the page must exist. */
  function AssignmentsLinkStep(s: ParserState, anchors: seq<Anchor>): Transition {
    var link := LastHref(anchors, AssignmentsClass, "");
    if link == "" then Transition(s, Thrown(AssignmentsLinkNotFound))
    else Transition(s.(webBrowserTask := ParseAssignments,
                       navigations := s.navigations + [Navigation(Window, link)]), Handled)
  }

  /** ParseAssignments (lines 224-294): add the assignments of the list to the dictionary,
      which is not cleared first, then load the students of the first one. */
  function ParseAssignmentsStep(s: ParserState, rows: seq<Row>): Transition {
    var b := AddAll(s.assignmentItems, true, rows, AssignmentOfRow);
    var s1 := s.(assignmentItems := b.dict);
    if b.fault.Some? then Transition(s1, Thrown(b.fault.value))
    else
      var s2 := s1.(indexOfProcessingAssignment := 0, webBrowserTask := LoadStudents);
      if |b.dict| >= 1 then
        Transition(s2.(confidentLoad := true,
                       navigations := s.navigations + [Navigation(ContentFrame, b.dict[0].value.link)]), Handled)
      else Transition(s2, Handled)
  }

  /** ParseLoadingStudents (lines 396-453): the students of the submission list are added to
      the students of assignment idx. When idx is not an index of the dictionary, the first
      student accepted throws instead. */
  function LoadedStudents(items: Dict<Assignment>, idx: int, rows: seq<Row>): (b: Built<Assignment>)
    ensures |b.dict| == |items|
  {
    if 0 <= idx < |items| then
      var b := AddAll(items[idx].value.students, true, rows, StudentOfRow);
      Built(items[idx := Entry(items[idx].key, items[idx].value.(students := b.dict))], b.fault)
    else Built(items, AddAll([], false, rows, StudentOfRow).fault)
  }

  /** What one read row does to the dictionary (lines 420-448): a row that throws ends the
      run, a row without student changes nothing, and a student is added to assignment idx,
      which must exist, under an ID it does not already hold. */
  function StudentRowAdded(items: Dict<Assignment>, idx: int, r: Result<Option<Entry<StudentInfo>>, Fault>): Built<Assignment> {
    match r
    case Failure(e) => Built(items, Some(e))
    case Success(None) => Built(items, None)
    case Success(Some(e)) =>
      if !(0 <= idx < |items|) then Built(items, Some(OutOfRange))
      else if HasKey(items[idx].value.students, e.key) then Built(items, Some(DuplicateKey(e.key)))
      else Built(items[idx := Entry(items[idx].key, items[idx].value.(students := items[idx].value.students + [e]))], None)
  }

  /** Reading one more row of a submission list. */
  lemma LoadedStudentsSnoc(items: Dict<Assignment>, idx: int, rows: seq<Row>, row: Row)
    requires LoadedStudents(items, idx, rows).fault.None?
    ensures LoadedStudents(items, idx, rows + [row]) == StudentRowAdded(LoadedStudents(items, idx, rows).dict, idx, StudentOfRow(row))
  {
    assert (rows + [row])[..|rows|] == rows;
  }

  /** Reading no rows changes nothing. */
  lemma LoadedStudentsOfNoRows(items: Dict<Assignment>, idx: int)
    ensures LoadedStudents(items, idx, []) == Built(items, None)
  {
    if 0 <= idx < |items| {
      var e := items[idx];
      assert e.value.(students := e.value.students) == e.value;
      assert items[idx := Entry(e.key, e.value)] == items;
    }
  }

  /** After the first exception, further rows change nothing. */
  lemma LoadedStudentsStopsAtFault(items: Dict<Assignment>, idx: int, xs: seq<Row>, ys: seq<Row>)
    requires LoadedStudents(items, idx, xs).fault.Some?
    ensures LoadedStudents(items, idx, xs + ys) == LoadedStudents(items, idx, xs)
  {
    if 0 <= idx < |items| {
      AddAllStopsAtFault(items[idx].value.students, true, xs, ys, StudentOfRow);
    } else {
      AddAllStopsAtFault([], false, xs, ys, StudentOfRow);
    }
  }

  /** ReloadStudents (lines 295-300). */
  function ReloadStudentsStep(s: ParserState, rows: seq<Row>): Transition {
    var b := LoadedStudents(s.assignmentItems, s.indexOfProcessingAssignment, rows);
    var s1 := s.(assignmentItems := b.dict);
    if b.fault.Some? then Transition(s1, Thrown(b.fault.value)) else Transition(s1, Handled)
  }

  /** LoadStudents (lines 301-327): read the students of the current assignment, then open
      the next assignment, or start on the attachments once every assignment is read. */
  function LoadStudentsStep(s: ParserState, rows: seq<Row>, lists: seq<ListElement>): Transition {
    var b := LoadedStudents(s.assignmentItems, s.indexOfProcessingAssignment, rows);
    var s1 := s.(assignmentItems := b.dict);
    if b.fault.Some? then Transition(s1, Thrown(b.fault.value))
    else NextAssignmentStep(s1, lists)
  }

  /** Lines 306-325, once the students are read: open the next assignment, or start on
      the attachments after the last one. */
  function NextAssignmentStep(s: ParserState, lists: seq<ListElement>): Transition {
    var idx := s.indexOfProcessingAssignment + 1;
    var s2 := s.(confidentLoad := true, indexOfProcessingAssignment := idx);
    if idx >= |s.assignmentItems| then StartAttachmentsStep(s2, lists)
    else if idx < 0 then Transition(s2, Thrown(OutOfRange))
    else Transition(s2.(navigations := s.navigations + [Navigation(ContentFrame, s.assignmentItems[idx].value.link)]), Handled)
  }

  /** Lines 313-322: back to the first student of the first assignment, whose grading page
      is opened when they have attachments; otherwise the handler calls itself (line 322),
      which enters the attachment step with the flag false. */
  function StartAttachmentsStep(s: ParserState, lists: seq<ListElement>): Transition {
    var items := s.assignmentItems;
    var s3 := s.(webBrowserTask := LoadStudentAttachments, indexOfProcessingAssignment := 0,
                 indexOfProcessingStudent := 0, confidentLoad := true);
    if !ValidPair(items, 0, 0) then Transition(s3, Thrown(OutOfRange))
    else if StudentAt(items, 0, 0).filesAttached then
      Transition(s3.(attachmentPresent := true,
                     navigations := s.navigations + [Navigation(ContentFrame, StudentAt(items, 0, 0).gradeLink)]), Handled)
    else AttachmentStep(s3.(attachmentPresent := false, confidentLoad := false), lists)
  }

  /** The files of the grading page appended to the files of student st of assignment a. */
  function AppendFiles(items: Dict<Assignment>, a: int, st: int, files: seq<SubmittedFile>): (r: Dict<Assignment>)
    requires ValidPair(items, a, st)
    ensures |r| == |items| && forall b :: 0 <= b < |items| ==> |r[b].value.students| == |items[b].value.students|
  {
    var asg := items[a].value;
    var e := asg.students[st];
    var si := e.value.(submittedFiles := Some(e.value.submittedFiles.GetOr([]) + files));
    items[a := Entry(items[a].key, asg.(students := asg.students[st := Entry(e.key, si)]))]
  }

  /** Appending files one batch after another appends them all. */
  lemma AppendFilesTwice(items: Dict<Assignment>, a: int, st: int, f1: seq<SubmittedFile>, f2: seq<SubmittedFile>)
    requires ValidPair(items, a, st)
    ensures ValidPair(AppendFiles(items, a, st, f1), a, st)
    ensures AppendFiles(AppendFiles(items, a, st, f1), a, st, f2) == AppendFiles(items, a, st, f1 + f2)
  {
    var asg := items[a].value;
    var e := asg.students[st];
    var items1 := AppendFiles(items, a, st, f1);
    var e1 := items1[a].value.students[st];
    assert e1.value == e.value.(submittedFiles := Some(e.value.submittedFiles.GetOr([]) + f1));
    assert e1.value.submittedFiles.GetOr([]) + f2 == e.value.submittedFiles.GetOr([]) + (f1 + f2);
    var si := e.value.(submittedFiles := Some(e.value.submittedFiles.GetOr([]) + (f1 + f2)));
    assert items1[a].value.students[st := Entry(e1.key, si)] == asg.students[st := Entry(e.key, si)];
  }

  /** items with files appended to student st of assignment a, or items itself when
      there are no files. */
  function WithFiles(items: Dict<Assignment>, a: int, st: int, files: seq<SubmittedFile>): Dict<Assignment>
    requires files == [] || ValidPair(items, a, st)
  {
    if files == [] then items else AppendFiles(items, a, st, files)
  }

  /** Appending one more file. */
  lemma WithFilesSnoc(items: Dict<Assignment>, a: int, st: int, files: seq<SubmittedFile>, file: SubmittedFile)
    requires ValidPair(items, a, st)
    ensures ValidPair(WithFiles(items, a, st, files), a, st)
    ensures WithFiles(items, a, st, files + [file]) == AppendFiles(WithFiles(items, a, st, files), a, st, [file])
  {
    if files != [] {
      AppendFilesTwice(items, a, st, files, [file]);
    } else {
      assert files + [file] == [file];
    }
  }

  /** LoadStudentAttachments (lines 328-385): when the current student has attachments,
      record the files of their grading page; then walk on to the next student with
      attachments. */
  function AttachmentStep(s: ParserState, lists: seq<ListElement>): Transition {
    var items := s.assignmentItems;
    var a, st := s.indexOfProcessingAssignment, s.indexOfProcessingStudent;
    var files := if s.attachmentPresent then AttachedFiles(lists) else [];
    if files != [] && !ValidPair(items, a, st) then Transition(s, Thrown(OutOfRange))
    else
      AfterWalk(s.(assignmentItems := WithFiles(items, a, st, files)), a, st, s.attachmentPresent)
  }

  /** The state the walk from student st of assignment a leaves behind (lines 359-382). */
  function AfterWalk(s: ParserState, a: int, st: nat, present: bool): Transition {
    var r := Roster(s.assignmentItems);
    match Walk(r, a, st, present)
    case Finished(p) =>
      Transition(s.(webBrowserTask := Idle, indexOfProcessingAssignment := |r|, indexOfProcessingStudent := 0,
                    attachmentPresent := p), Handled)
    case Arrived(a2, s2) =>
      WalkArrivesAtNextAttached(r, a, st, present);
      Transition(s.(indexOfProcessingAssignment := a2, indexOfProcessingStudent := s2, attachmentPresent := true,
                    confidentLoad := true,
                    navigations := s.navigations + [Navigation(ContentFrame, StudentAt(s.assignmentItems, a2, s2).gradeLink)]),
                 Handled)
    case Stuck(a2, s2, p) =>
      Transition(s.(indexOfProcessingAssignment := a2, indexOfProcessingStudent := s2, attachmentPresent := p),
                 Thrown(OutOfRange))
  }

  /** The student after student st of assignment a: the next one of the same assignment,
      or the first of the next assignment. */
  function NextPair(items: Dict<Assignment>, a: int, st: nat): (int, nat)
    requires 0 <= a < |items|
  {
    if st + 1 >= |items[a].value.students| then (a + 1, 0) else (a, st + 1)
  }

  /** One step of the walk, read on the dictionary rather than on its roster. */
  lemma WalkOnItems(items: Dict<Assignment>, a: int, st: nat, present: bool)
    ensures !(0 <= a < |items|) ==> Walk(Roster(items), a, st, present) == Stuck(a, st + 1, present)
    ensures 0 <= a < |items| ==>
      var n := NextPair(items, a, st);
      && (n.0 >= |items| ==> Walk(Roster(items), a, st, present) == Finished(present))
      && (n.0 < |items| && !ValidPair(items, n.0, n.1) ==> Walk(Roster(items), a, st, present) == Stuck(n.0, n.1, present))
      && (ValidPair(items, n.0, n.1) && StudentAt(items, n.0, n.1).filesAttached ==>
            Walk(Roster(items), a, st, present) == Arrived(n.0, n.1))
      && (ValidPair(items, n.0, n.1) && !StudentAt(items, n.0, n.1).filesAttached ==>
            Walk(Roster(items), a, st, present) == Walk(Roster(items), n.0, n.1, false))
  {
  }

  /** The index of the first assignment at or after j whose trimmed key is title, or -1. */
  function TitleIndexFrom(items: Dict<Assignment>, title: string, j: nat): (i: int)
    decreases |items| - j
    ensures i == -1 || j <= i < |items|
  {
    if j >= |items| then -1
    else if Trim(items[j].key) == title then j
    else TitleIndexFrom(items, title, j + 1)
  }

  /** The search finds the first match at or after j, and fails only when there is none. */
  lemma {:induction false} TitleIndexFromIsFirst(items: Dict<Assignment>, title: string, j: nat)
    decreases |items| - j
    ensures var i := TitleIndexFrom(items, title, j);
      && (i != -1 ==> Trim(items[i].key) == title)
      && forall k :: j <= k < |items| && (i == -1 || k < i) ==> Trim(items[k].key) != title
  {
    if j < |items| && Trim(items[j].key) != title {
      TitleIndexFromIsFirst(items, title, j + 1);
    }
  }

  /** The index of the first assignment whose trimmed key is title, or -1. */
  function TitleIndex(items: Dict<Assignment>, title: string): int {
    TitleIndexFrom(items, title, 0)
  }

  /** UpdateAssignmentSubmissions (lines 465-487): reload the submission list of the
      assignment with the given title, whose index is kept even when it is -1. */
  function UpdateSubmissionsStep(s: ParserState, title: string): ParserState {
    ReloadAt(s, TitleIndex(s.assignmentItems, title))
  }

  /** The state after the search of UpdateAssignmentSubmissions has found index i. */
  function ReloadAt(s: ParserState, i: int): ParserState
    requires i == -1 || 0 <= i < |s.assignmentItems|
  {
    if i == -1 then s.(indexOfProcessingAssignment := -1)
    else s.(indexOfProcessingAssignment := i, webBrowserTask := ReloadStudents, confidentLoad := true,
            navigations := s.navigations + [Navigation(ContentFrame, s.assignmentItems[i].value.link)])
  }
}
