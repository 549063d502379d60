/** The page adapters of the parser: how links, worksite cells, assignment rows, student
    rows and attachment lists are read from a page. */
module Extraction {
  import opened Wrappers
  import opened Text
  import opened Dictionaries
  import opened Entities
  import opened Dom
  import opened Seqs

  const MembershipClass := "icon-sakai-membership"
  const AssignmentsClass := "icon-sakai-assignment-grades"
  const ListTableClass := "listHier lines nolines"
  const AttachListClass := "attachList indnt1"

  // ----- Links of the top document ---------------------------------------------------

  /** The href of the last anchor of class cls, or init when there is none. */
  function LastHref(anchors: seq<Anchor>, cls: string, init: string): (href: string)
    decreases |anchors|
    ensures href == init || exists i :: 0 <= i < |anchors| && anchors[i].className == cls && href == anchors[i].href
  {
    if anchors == [] then init
    else if anchors[|anchors| - 1].className == cls then anchors[|anchors| - 1].href
    else LastHref(anchors[..|anchors| - 1], cls, init)
  }

  /** LastHref is the href of the last anchor of class cls, and init when there is none. */
  lemma LastHrefIsLastMatch(anchors: seq<Anchor>, cls: string, init: string)
    ensures (forall i :: 0 <= i < |anchors| ==> anchors[i].className != cls) ==> LastHref(anchors, cls, init) == init
    ensures forall i :: 0 <= i < |anchors| && anchors[i].className == cls && NoneAfter(anchors, cls, i)
                        ==> LastHref(anchors, cls, init) == anchors[i].href
  {
    if forall i :: 0 <= i < |anchors| ==> anchors[i].className != cls {
      LastHrefOfNoMatch(anchors, cls, init);
    }
    forall i | 0 <= i < |anchors| && anchors[i].className == cls && NoneAfter(anchors, cls, i)
      ensures LastHref(anchors, cls, init) == anchors[i].href
    {
      LastHrefOfLastMatch(anchors, cls, init, i);
    }
  }

  lemma {:induction false} LastHrefOfNoMatch(anchors: seq<Anchor>, cls: string, init: string)
    requires forall i :: 0 <= i < |anchors| ==> anchors[i].className != cls
    ensures LastHref(anchors, cls, init) == init
  {
    if anchors != [] {
      LastHrefOfNoMatch(anchors[..|anchors| - 1], cls, init);
    }
  }

  lemma {:induction false} LastHrefOfLastMatch(anchors: seq<Anchor>, cls: string, init: string, i: int)
    requires 0 <= i < |anchors| && anchors[i].className == cls && NoneAfter(anchors, cls, i)
    ensures LastHref(anchors, cls, init) == anchors[i].href
  {
    var n := |anchors| - 1;
    if i < n {
      assert anchors[n].className != cls;
      assert NoneAfter(anchors[..n], cls, i);
      LastHrefOfLastMatch(anchors[..n], cls, init, i);
    }
  }

  predicate NoneAfter(anchors: seq<Anchor>, cls: string, i: int) {
    forall j :: 0 <= j < |anchors| && i < j ==> anchors[j].className != cls
  }

  /** The foreach over the links of the document, keeping the href of each link of class
      cls (lines 199-202 and 213-216). */
  method FindLinkByClass(anchors: seq<Anchor>, cls: string, init: string) returns (href: string)
    ensures href == LastHref(anchors, cls, init)
  {
    href := init;
    var i := 0;
    while i < |anchors|
      invariant 0 <= i <= |anchors|
      invariant href == LastHref(anchors[..i], cls, init)
    {
      assert anchors[..i + 1][..i] == anchors[..i];
      if anchors[i].className == cls {
        href := anchors[i].href;
      }
      i := i + 1;
    }
    assert anchors[..i] == anchors;
  }

  // ----- Worksite list ---------------------------------------------------------------

  /** A cell of the worksite table: skipped unless its headers attribute is "worksite", then
      keyed by its text with the href of its first link. */
  function WorksiteOf(c: Cell): Result<Option<Entry<string>>, Fault> {
    if c.headers != "worksite" then Success(None)
    else if |c.anchors| == 0 then Failure(OutOfRange)
    else Success(Some(Entry(c.text, c.anchors[0].href)))
  }

  /** The texts of the worksite cells, in row order. */
  function WorksiteNames(cells: seq<Cell>): seq<string>
    decreases |cells|
  {
    if cells == [] then []
    else
      WorksiteNames(cells[..|cells| - 1])
      + if cells[|cells| - 1].headers == "worksite" then [cells[|cells| - 1].text] else []
  }

  /** The href of the first link of each worksite cell, in row order; empty for a cell
      without a link, where reading the list throws. */
  function WorksiteLinks(cells: seq<Cell>): (links: seq<string>)
    ensures |links| == |WorksiteNames(cells)|
    decreases |cells|
  {
    if cells == [] then []
    else
      var c := cells[|cells| - 1];
      WorksiteLinks(cells[..|cells| - 1])
      + if c.headers == "worksite" then [if |c.anchors| > 0 then c.anchors[0].href else ""] else []
  }

  /** The values stored for the worksite cells are the hrefs of their first links. */
  lemma {:induction false} WorksiteValuesAreLinks(cells: seq<Cell>)
    requires NoneThrows(cells, WorksiteOf)
    ensures Values(Accepted(cells, WorksiteOf)) == WorksiteLinks(cells)
  {
    if cells != [] {
      var n := |cells| - 1;
      assert WorksiteOf(cells[n]).Success?;
      WorksiteValuesAreLinks(cells[..n]);
      var a, y := Accepted(cells[..n], WorksiteOf), Yield(WorksiteOf, cells[n]);
      assert Values(a + y) == Values(a) + Values(y);
    }
  }

  lemma {:induction false} WorksiteKeysAreNames(cells: seq<Cell>)
    requires NoneThrows(cells, WorksiteOf)
    ensures Keys(Accepted(cells, WorksiteOf)) == WorksiteNames(cells)
  {
    if cells != [] {
      var n := |cells| - 1;
      assert WorksiteOf(cells[n]).Success?;
      WorksiteKeysAreNames(cells[..n]);
      var a, y := Accepted(cells[..n], WorksiteOf), Yield(WorksiteOf, cells[n]);
      assert Keys(a + y) == Keys(a) + Keys(y);
    }
  }

  // ----- Reading the cells of a row --------------------------------------------------

  /** The foreach over the cells of a row: each cell updates the fields read so far or throws. */
  function FoldCells<F>(init: F, cells: seq<Cell>, step: (F, Cell) -> Result<F, Fault>): Result<F, Fault>
    decreases |cells|
  {
    if cells == [] then Success(init)
    else match FoldCells(init, cells[..|cells| - 1], step)
      case Failure(e) => Failure(e)
      case Success(f) => step(f, cells[|cells| - 1])
  }

  lemma {:induction false} FoldStopsAtFault<F>(init: F, xs: seq<Cell>, ys: seq<Cell>, step: (F, Cell) -> Result<F, Fault>)
    requires FoldCells(init, xs, step).Failure?
    ensures FoldCells(init, xs + ys, step) == FoldCells(init, xs, step)
  {
    if ys == [] {
      assert xs + ys == xs;
    } else {
      FoldStopsAtFault(init, xs, ys[..|ys| - 1], step);
      assert (xs + ys)[..|xs + ys| - 1] == xs + ys[..|ys| - 1];
    }
  }

  /** The last cell whose headers attribute is h. */
  function LastWith(cells: seq<Cell>, h: string): Option<Cell>
    decreases |cells|
  {
    if cells == [] then None
    else if cells[|cells| - 1].headers == h then Some(cells[|cells| - 1])
    else LastWith(cells[..|cells| - 1], h)
  }

  function TextOf(c: Option<Cell>): string {
    if c.Some? then c.value.text else ""
  }

  function FirstLinkTextOf(c: Option<Cell>): string {
    if c.Some? && |c.value.anchors| > 0 then c.value.anchors[0].text else ""
  }

  function LocationOf(c: Option<Cell>): string {
    if c.Some? && |c.value.anchors| > 0 && c.value.anchors[0].windowLocation.Some?
    then c.value.anchors[0].windowLocation.value else ""
  }

  // ----- Assignment list -------------------------------------------------------------

  datatype AssignmentFields = AssignmentFields(
    title: string, status: string, open: string, url: string, due: string, inNew: string, scale: string)

  const NoAssignmentFields := AssignmentFields("", "", "", "", "", "", "")

  /** One cell of an assignment row (lines 246-275). */
  function AssignmentCell(f: AssignmentFields, c: Cell): Result<AssignmentFields, Fault> {
    if c.headers == "title" then
      if |c.anchors| == 0 then Failure(OutOfRange) else Success(f.(title := c.anchors[0].text))
    else if c.headers == "status" then Success(f.(status := c.text))
    else if c.headers == "openDate" then Success(f.(open := c.text))
    else if c.headers == "dueDate" then Success(f.(due := c.text))
    else if c.headers == "num_submissions" then
      if |c.anchors| == 0 || c.anchors[0].windowLocation.None? then Failure(OutOfRange)
      else Success(f.(url := c.anchors[0].windowLocation.value, inNew := c.text))
    else if c.headers == "maxgrade" then Success(f.(scale := c.text))
    else Success(f)
  }

  predicate Complete(f: AssignmentFields) {
    f.title != "" && f.status != "" && f.open != "" && f.url != "" && f.due != "" && f.inNew != "" && f.scale != ""
  }

  /** An assignment row (lines 234-278): the assignment, keyed by the title it shows, when
      all seven fields are non-empty; nothing when one is missing. */
  function AssignmentOfRow(row: Row): Result<Option<Entry<Assignment>>, Fault>
  {
    match FoldCells(NoAssignmentFields, row.cells, AssignmentCell)
    case Failure(e) => Failure(e)
    case Success(f) =>
      if Complete(f) then
        Success(Some(Entry(f.title, Assignment(f.title, f.url, f.status, f.open, f.due, f.inNew, f.scale, []))))
      else Success(None)
  }

  /** A row throws exactly when one of its cells does; otherwise it yields an assignment
      exactly when all seven fields are non-empty. Each field is read from the last cell
      with its header: the title is the text of the first link of the "title" cell, the
      link is the window.location target of the first link of the "num_submissions" cell,
      whose text is the count of new submissions. The assignment is keyed by its title and
      has no students yet. */
  lemma AssignmentOfRowYields(row: Row)
    ensures var r := AssignmentOfRow(row);
      var fold := FoldCells(NoAssignmentFields, row.cells, AssignmentCell);
      && (r.Success? <==> fold.Success?)
      && (r.Success? ==> (r.value.Some? <==> Complete(fold.value)))
      && (r.Success? && r.value.Some? ==>
            var e := r.value.value;
            && e.key == e.value.ToString()
            && e.value.title != "" && e.value.status != "" && e.value.open != "" && e.value.link != ""
            && e.value.due != "" && e.value.inNew != "" && e.value.scale != ""
            && e.value.students == [])
    ensures var r := AssignmentOfRow(row);
      r.Success? && r.value.Some? ==>
        var a := r.value.value.value;
        && a.title == FirstLinkTextOf(LastWith(row.cells, "title"))
        && a.link == LocationOf(LastWith(row.cells, "num_submissions"))
        && a.status == TextOf(LastWith(row.cells, "status"))
        && a.open == TextOf(LastWith(row.cells, "openDate"))
        && a.due == TextOf(LastWith(row.cells, "dueDate"))
        && a.inNew == TextOf(LastWith(row.cells, "num_submissions"))
        && a.scale == TextOf(LastWith(row.cells, "maxgrade"))
  {
    if FoldCells(NoAssignmentFields, row.cells, AssignmentCell).Success? {
      AssignmentFieldsFromLastCells(row.cells);
    }
  }

  /** Each field of an assignment row is taken from the last cell that carries its header,
      and is empty when no cell does. */
  lemma {:induction false} AssignmentFieldsFromLastCells(cells: seq<Cell>)
    requires FoldCells(NoAssignmentFields, cells, AssignmentCell).Success?
    ensures var f := FoldCells(NoAssignmentFields, cells, AssignmentCell).value;
      && f.title == FirstLinkTextOf(LastWith(cells, "title"))
      && f.status == TextOf(LastWith(cells, "status"))
      && f.open == TextOf(LastWith(cells, "openDate"))
      && f.due == TextOf(LastWith(cells, "dueDate"))
      && f.url == LocationOf(LastWith(cells, "num_submissions"))
      && f.inNew == TextOf(LastWith(cells, "num_submissions"))
      && f.scale == TextOf(LastWith(cells, "maxgrade"))
  {
    if cells != [] {
      var n := |cells| - 1;
      AssignmentFieldsFromLastCells(cells[..n]);
      var f := FoldCells(NoAssignmentFields, cells[..n], AssignmentCell).value;
      assert FoldCells(NoAssignmentFields, cells, AssignmentCell) == AssignmentCell(f, cells[n]);
      AssignmentCellFields(f, cells[n]);
    }
  }

  /** What one cell does to the fields of an assignment row. */
  lemma AssignmentCellFields(f: AssignmentFields, c: Cell)
    requires AssignmentCell(f, c).Success?
    ensures var g := AssignmentCell(f, c).value;
      && g.title == (if c.headers == "title" then c.anchors[0].text else f.title)
      && g.status == (if c.headers == "status" then c.text else f.status)
      && g.open == (if c.headers == "openDate" then c.text else f.open)
      && g.due == (if c.headers == "dueDate" then c.text else f.due)
      && g.url == (if c.headers == "num_submissions" then c.anchors[0].windowLocation.value else f.url)
      && g.inNew == (if c.headers == "num_submissions" then c.text else f.inNew)
      && g.scale == (if c.headers == "maxgrade" then c.text else f.scale)
  {
  }

  /** The foreach over the cells of an assignment row (lines 234-278). */
  method ExtractAssignment(row: Row) returns (r: Result<Option<Entry<Assignment>>, Fault>)
    ensures r == AssignmentOfRow(row)
  {
    var title, status, open, url, due, inNew, scale := "", "", "", "", "", "", "";
    var i := 0;
    while i < |row.cells|
      invariant 0 <= i <= |row.cells|
      invariant FoldCells(NoAssignmentFields, row.cells[..i], AssignmentCell)
                == Success(AssignmentFields(title, status, open, url, due, inNew, scale))
    {
      var td := row.cells[i];
      assert row.cells[..i + 1][..i] == row.cells[..i];
      assert row.cells[..i + 1] + row.cells[i + 1..] == row.cells;
      if td.headers == "title" {
        if |td.anchors| == 0 {
          FoldStopsAtFault(NoAssignmentFields, row.cells[..i + 1], row.cells[i + 1..], AssignmentCell);
          return Failure(OutOfRange);
        }
        title := td.anchors[0].text;
      }
      if td.headers == "status" {
        status := td.text;
      }
      if td.headers == "openDate" {
        open := td.text;
      }
      if td.headers == "dueDate" {
        due := td.text;
      }
      if td.headers == "num_submissions" {
        if |td.anchors| == 0 || td.anchors[0].windowLocation.None? {
          FoldStopsAtFault(NoAssignmentFields, row.cells[..i + 1], row.cells[i + 1..], AssignmentCell);
          return Failure(OutOfRange);
        }
        url := td.anchors[0].windowLocation.value;
        inNew := td.text;
      }
      if td.headers == "maxgrade" {
        scale := td.text;
      }
      i := i + 1;
    }
    assert row.cells[..i] == row.cells;
    if title != "" && status != "" && open != "" && url != "" && due != "" && inNew != "" && scale != "" {
      r := Success(Some(Entry(title, Assignment(title, url, status, open, due, inNew, scale, []))));
    } else {
      r := Success(None);
    }
  }

  // ----- Submission list -------------------------------------------------------------

  /** The text of a student cell, "Name (ID)", split into its name and its ID (lines 423-425):
      the ID is the group of the first match of the ID pattern, the name is the text before
      the first " (". A text without a match, or without " (", throws. */
  function SplitStudentText(text: string): (r: Result<(string, string), Fault>)
    ensures r.Success? <==> FirstIdGroup(text).Some? && Contains(text, " (")
    ensures r.Success? ==> r.value.1 == FirstIdGroup(text).value
    ensures r.Success? ==>
      var name := r.value.0;
      && |name| <= |text| && name == text[..|name|]
      && OccursAt(text, " (", |name|)
      && forall k :: 0 <= k < |name| ==> !OccursAt(text, " (", k)
  {
    match FirstIdGroup(text)
    case None => Failure(OutOfRange)
    case Some(id) =>
      var k := IndexOf(text, " (");
      if k < 0 then Failure(OutOfRange) else Success((text[..k], id))
  }

  /** Splitting the text StudentInfo.ToString shows gives back the name and the ID, for a
      name that starts with no white space and holds no parenthesis and an ID made of the
      characters the pattern accepts. */
  lemma StudentTextRoundTrip(si: StudentInfo)
    requires si.name != [] && !IsWhiteSpace(si.name[0])
    requires forall k :: 0 <= k < |si.name| ==> si.name[k] != '('
    requires forall k :: 0 <= k < |si.id| ==> IsIdChar(si.id[k])
    ensures SplitStudentText(Trim(si.ToString())) == Success((si.name, si.id))
  {
    var t := si.ToString();
    assert t == si.name + " (" + si.id + ")";
    assert Trim(t) == t;
    NameEndsAtFirstParen(si.name, si.id);
    IdIsFirstGroup(si.name, si.id);
    assert t[..|si.name|] == si.name;
  }

  lemma NameEndsAtFirstParen(name: string, id: string)
    requires forall k :: 0 <= k < |name| ==> name[k] != '('
    ensures IndexOf(name + " (" + id + ")", " (") == |name|
  {
    var t := name + " (" + id + ")";
    var n := |name|;
    assert t[n..n + 2] == " (";
    assert OccursAt(t, " (", n);
    forall k | 0 <= k < n ensures !OccursAt(t, " (", k) {
      assert t[k..k + 2][1] == t[k + 1];
      if k + 1 < n { assert t[k + 1] == name[k + 1]; } else { assert t[k + 1] == ' '; }
    }
    var r := IndexOf(t, " (");
    assert r != -1;
  }

  lemma IdIsFirstGroup(name: string, id: string)
    requires forall k :: 0 <= k < |name| ==> name[k] != '('
    requires forall k :: 0 <= k < |id| ==> IsIdChar(id[k])
    ensures FirstIdGroup(name + " (" + id + ")") == Some(id)
  {
    var t := name + " (" + id + ")";
    var n := |name|;
    var p := n + 1;
    var e := p + 1 + |id|;
    assert RunEnd(t, p + 1) == e by {
      forall k | p + 1 <= k < e ensures IsIdChar(t[k]) { assert t[k] == id[k - p - 1]; }
      assert t[e] == ')';
    }
    assert MatchesAt(t, p);
    forall k | 0 <= k < p ensures !MatchesAt(t, k) {
      if k < n { assert t[k] == name[k]; } else { assert t[k] == ' '; }
    }
    var g := MatchFrom(t, 0);
    assert g.Some?;
    var k :| 0 <= k && MatchesAt(t, k) && g.value == t[k + 1..RunEnd(t, k + 1)]
             && forall k' :: 0 <= k' < k ==> !MatchesAt(t, k');
    assert k == p;
    assert t[p + 1..e] == id;
  }

  datatype StudentFields = StudentFields(
    name: string, id: string, submitted: string, status: string, grade: string, released: bool, gradeLink: string)

  const NoStudentFields := StudentFields("", "", "", "", "", false, "")

  /** One cell of a student row (lines 420-443). */
  function StudentCell(f: StudentFields, c: Cell): Result<StudentFields, Fault> {
    if c.headers == "studentname" then
      match SplitStudentText(Trim(c.text))
      case Failure(e) => Failure(e)
      case Success(nameAndId) =>
        if |c.anchors| == 0 then Failure(OutOfRange)
        else Success(f.(name := nameAndId.0, id := nameAndId.1, gradeLink := c.anchors[0].href))
    else if c.headers == "submitted" then Success(f.(submitted := c.text))
    else if c.headers == "status" then Success(f.(status := c.text))
    else if c.headers == "grade" then Success(f.(grade := c.text))
    else if c.headers == "gradereleased" then Success(f.(released := Contains(c.html, "checkon.gif")))
    else Success(f)
  }

  /** A student row (lines 407-448): the student, keyed by ID, when both the ID and the name
      are non-empty; attachments are flagged when the row shows "attachments.gif". */
  function StudentOfRow(row: Row): Result<Option<Entry<StudentInfo>>, Fault>
  {
    match FoldCells(NoStudentFields, row.cells, StudentCell)
    case Failure(e) => Failure(e)
    case Success(f) =>
      if f.id != "" && f.name != "" then
        Success(Some(Entry(f.id, StudentInfo(f.name, f.id, f.submitted, f.status, f.grade, f.released,
                                             f.gradeLink, Contains(row.html, "attachments.gif"), None))))
      else Success(None)
  }

  /** A row throws exactly when one of its cells does. Otherwise it yields a student exactly
      when its last student-name cell splits into a non-empty name and a non-empty ID. The
      student is keyed by the ID; the grade link is the href of the first link of that cell;
      submitted, status, grade and released come from the last cells with their headers;
      attachments are flagged by "attachments.gif" anywhere in the row; no files yet. */
  lemma StudentOfRowYields(row: Row)
    ensures var r := StudentOfRow(row);
      var fold := FoldCells(NoStudentFields, row.cells, StudentCell);
      var nameCell := LastWith(row.cells, "studentname");
      && (r.Success? <==> fold.Success?)
      && (r.Success? ==>
            (r.value.Some? <==>
               nameCell.Some? && var split := SplitStudentText(Trim(nameCell.value.text));
               split.Success? && split.value.0 != "" && split.value.1 != ""))
      && (r.Success? && r.value.Some? ==>
            var e := r.value.value;
            && e.key == e.value.id && e.value.id != "" && e.value.name != ""
            && nameCell.Some? && |nameCell.value.anchors| > 0
            && SplitStudentText(Trim(nameCell.value.text)) == Success((e.value.name, e.value.id))
            && e.value.gradeLink == nameCell.value.anchors[0].href
            && e.value.submitted == TextOf(LastWith(row.cells, "submitted"))
            && e.value.status == TextOf(LastWith(row.cells, "status"))
            && e.value.grade == TextOf(LastWith(row.cells, "grade"))
            && e.value.released == ReleasedOf(LastWith(row.cells, "gradereleased"))
            && (e.value.filesAttached <==> Contains(row.html, "attachments.gif"))
            && e.value.submittedFiles.None?)
  {
    if FoldCells(NoStudentFields, row.cells, StudentCell).Success? {
      StudentNameFromLastCell(row.cells);
      StudentFieldsFromLastCells(row.cells);
    }
  }

  function ReleasedOf(c: Option<Cell>): bool {
    c.Some? && Contains(c.value.html, "checkon.gif")
  }

  /** The submitted, status, grade and released fields of a student row are taken from
      the last cell that carries their header; released holds exactly when that cell shows
      "checkon.gif". */
  lemma {:induction false} StudentFieldsFromLastCells(cells: seq<Cell>)
    requires FoldCells(NoStudentFields, cells, StudentCell).Success?
    ensures var f := FoldCells(NoStudentFields, cells, StudentCell).value;
      && f.submitted == TextOf(LastWith(cells, "submitted"))
      && f.status == TextOf(LastWith(cells, "status"))
      && f.grade == TextOf(LastWith(cells, "grade"))
      && f.released == ReleasedOf(LastWith(cells, "gradereleased"))
  {
    if cells != [] {
      var n := |cells| - 1;
      StudentFieldsFromLastCells(cells[..n]);
      var f := FoldCells(NoStudentFields, cells[..n], StudentCell).value;
      assert FoldCells(NoStudentFields, cells, StudentCell) == StudentCell(f, cells[n]);
      StudentCellPlainFields(f, cells[n]);
    }
  }

  /** What one cell does to the plain fields of a student row. */
  lemma StudentCellPlainFields(f: StudentFields, c: Cell)
    requires StudentCell(f, c).Success?
    ensures var g := StudentCell(f, c).value;
      && g.submitted == (if c.headers == "submitted" then c.text else f.submitted)
      && g.status == (if c.headers == "status" then c.text else f.status)
      && g.grade == (if c.headers == "grade" then c.text else f.grade)
      && g.released == (if c.headers == "gradereleased" then Contains(c.html, "checkon.gif") else f.released)
  {
  }

  /** What one cell does to the name, ID and grade link of a student row. */
  lemma StudentCellName(f: StudentFields, c: Cell)
    requires StudentCell(f, c).Success?
    ensures var g := StudentCell(f, c).value;
      if c.headers == "studentname"
      then SplitStudentText(Trim(c.text)) == Success((g.name, g.id)) && |c.anchors| > 0 && g.gradeLink == c.anchors[0].href
      else g.name == f.name && g.id == f.id && g.gradeLink == f.gradeLink
  {
  }

  /** The name and ID of a student row are the split of its last student-name cell, and its
      grade link is the href of that cell's first link; all three are empty when there is no
      such cell. */
  lemma {:induction false} StudentNameFromLastCell(cells: seq<Cell>)
    requires FoldCells(NoStudentFields, cells, StudentCell).Success?
    ensures var f := FoldCells(NoStudentFields, cells, StudentCell).value;
      && (LastWith(cells, "studentname").None? ==> f.name == "" && f.id == "" && f.gradeLink == "")
      && (LastWith(cells, "studentname").Some? ==>
            && SplitStudentText(Trim(LastWith(cells, "studentname").value.text)) == Success((f.name, f.id))
            && |LastWith(cells, "studentname").value.anchors| > 0
            && f.gradeLink == LastWith(cells, "studentname").value.anchors[0].href)
  {
    if cells != [] {
      var n := |cells| - 1;
      StudentNameFromLastCell(cells[..n]);
      var f := FoldCells(NoStudentFields, cells[..n], StudentCell).value;
      assert FoldCells(NoStudentFields, cells, StudentCell) == StudentCell(f, cells[n]);
      StudentCellName(f, cells[n]);
      if cells[n].headers != "studentname" {
        assert LastWith(cells, "studentname") == LastWith(cells[..n], "studentname");
      }
    }
  }

  /** The foreach over the cells of a student row (lines 407-448). */
  method ExtractStudent(row: Row) returns (r: Result<Option<Entry<StudentInfo>>, Fault>)
    ensures r == StudentOfRow(row)
  {
    var studentName, studentId, submitted, status, grade := "", "", "", "", "";
    var released := false;
    var attached := Contains(row.html, "attachments.gif");
    var gradeLink := "";
    var i := 0;
    while i < |row.cells|
      invariant 0 <= i <= |row.cells|
      invariant FoldCells(NoStudentFields, row.cells[..i], StudentCell)
                == Success(StudentFields(studentName, studentId, submitted, status, grade, released, gradeLink))
    {
      var td := row.cells[i];
      assert row.cells[..i + 1][..i] == row.cells[..i];
      assert row.cells[..i + 1] + row.cells[i + 1..] == row.cells;
      if td.headers == "studentname" {
        var split := SplitStudentText(Trim(td.text));
        if split.Failure? || |td.anchors| == 0 {
          FoldStopsAtFault(NoStudentFields, row.cells[..i + 1], row.cells[i + 1..], StudentCell);
          return Failure(OutOfRange);
        }
        studentName, studentId := split.value.0, split.value.1;
        gradeLink := td.anchors[0].href;
      }
      if td.headers == "submitted" {
        submitted := td.text;
      }
      if td.headers == "status" {
        status := td.text;
      }
      if td.headers == "grade" {
        grade := td.text;
      }
      if td.headers == "gradereleased" {
        released := Contains(td.html, "checkon.gif");
      }
      i := i + 1;
    }
    assert row.cells[..i] == row.cells;
    if studentId != "" && studentName != "" {
      r := Success(Some(Entry(studentId, StudentInfo(studentName, studentId, submitted, status, grade,
                                                     released, gradeLink, attached, None))));
    } else {
      r := Success(None);
    }
  }

  // ----- Tables and attachment lists -------------------------------------------------

  function RowsOf(t: Table): seq<Row> {
    if t.className == ListTableClass then t.rows else []
  }

  /** The rows of every table of class "listHier lines nolines", in document order. */
  function ListRows(tables: seq<Table>): seq<Row>
    decreases |tables|
  {
    if tables == [] then [] else ListRows(tables[..|tables| - 1]) + RowsOf(tables[|tables| - 1])
  }

  lemma {:induction false} ListRowsAppend(ts: seq<Table>, us: seq<Table>)
    ensures ListRows(ts + us) == ListRows(ts) + ListRows(us)
  {
    if us == [] {
      assert ts + us == ts;
    } else {
      ListRowsAppend(ts, us[..|us| - 1]);
      ListRowsDropLast(ts, us);
      Associative(ListRows(ts), ListRows(us[..|us| - 1]), RowsOf(us[|us| - 1]));
    }
  }

  /** The last table of ts + us is the last one of us. */
  lemma ListRowsDropLast(ts: seq<Table>, us: seq<Table>)
    requires us != []
    ensures ListRows(ts + us) == ListRows(ts + us[..|us| - 1]) + RowsOf(us[|us| - 1])
  {
    assert (ts + us)[..|ts + us| - 1] == ts + us[..|us| - 1];
  }

  /** The rows of the first t + 1 tables. */
  lemma ListRowsSnoc(tables: seq<Table>, t: int)
    requires 0 <= t < |tables|
    ensures ListRows(tables[..t + 1]) == ListRows(tables[..t]) + RowsOf(tables[t])
  {
    assert tables[..t + 1][..t] == tables[..t];
  }

  /** A table of another class adds no rows. */
  lemma ListRowsSkip(tables: seq<Table>, t: int)
    requires 0 <= t < |tables| && tables[t].className != ListTableClass
    ensures ListRows(tables[..t + 1]) == ListRows(tables[..t])
  {
    ListRowsSnoc(tables, t);
    assert ListRows(tables[..t]) + [] == ListRows(tables[..t]);
  }

  /** The rows of the first t + 1 tables, then those of the rest, are all the rows. */
  lemma ListRowsSplitAfter(tables: seq<Table>, t: int)
    requires 0 <= t < |tables|
    ensures ListRows(tables) == ListRows(tables[..t + 1]) + ListRows(tables[t + 1..])
  {
    ListRowsAppend(tables[..t + 1], tables[t + 1..]);
    assert tables[..t + 1] + tables[t + 1..] == tables;
  }

  function FilesOf(l: ListElement): (files: seq<SubmittedFile>)
  {
    if l.className == AttachListClass
    then seq(|l.anchors|, i requires 0 <= i < |l.anchors| => SubmittedFile(l.anchors[i].text, l.anchors[i].href))
    else []
  }

  /** The files linked from every list of class "attachList indnt1", in link order. */
  function AttachedFiles(lists: seq<ListElement>): seq<SubmittedFile>
    decreases |lists|
  {
    if lists == [] then [] else AttachedFiles(lists[..|lists| - 1]) + FilesOf(lists[|lists| - 1])
  }

  lemma {:induction false} AttachedFilesAppend(ls: seq<ListElement>, ms: seq<ListElement>)
    ensures AttachedFiles(ls + ms) == AttachedFiles(ls) + AttachedFiles(ms)
  {
    if ms == [] {
      assert ls + ms == ls;
    } else {
      AttachedFilesAppend(ls, ms[..|ms| - 1]);
      AttachedFilesDropLast(ls, ms);
      Associative(AttachedFiles(ls), AttachedFiles(ms[..|ms| - 1]), FilesOf(ms[|ms| - 1]));
    }
  }

  /** The last list of ls + ms is the last one of ms. */
  lemma AttachedFilesDropLast(ls: seq<ListElement>, ms: seq<ListElement>)
    requires ms != []
    ensures AttachedFiles(ls + ms) == AttachedFiles(ls + ms[..|ms| - 1]) + FilesOf(ms[|ms| - 1])
  {
    assert (ls + ms)[..|ls + ms| - 1] == ls + ms[..|ms| - 1];
  }

  /** The files of the first t + 1 lists. */
  lemma AttachedFilesSnoc(lists: seq<ListElement>, t: int)
    requires 0 <= t < |lists|
    ensures AttachedFiles(lists[..t + 1]) == AttachedFiles(lists[..t]) + FilesOf(lists[t])
  {
    assert lists[..t + 1][..t] == lists[..t];
  }

  /** The files of the first t + 1 lists, then those of the rest, are all the files. */
  lemma AttachedFilesSplitAfter(lists: seq<ListElement>, t: int)
    requires 0 <= t < |lists|
    ensures AttachedFiles(lists) == AttachedFiles(lists[..t + 1]) + AttachedFiles(lists[t + 1..])
  {
    AttachedFilesAppend(lists[..t + 1], lists[t + 1..]);
    assert lists[..t + 1] + lists[t + 1..] == lists;
  }
}
