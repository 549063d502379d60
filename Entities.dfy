/** The parser's data: the WebBrowserTask enum and the Assignment, StudentInfo and SubmittedFile records. */
module Entities {
  import opened Wrappers
  import opened Dictionaries

  /** The tasks of the page-load state machine, in the order of the C# enum. */
  datatype WebBrowserTask =
    | Idle
    | LogIn
    | GetMembershipLink
    | ParseWorksites
    | GoToAssignments
    | ParseAssignments
    | LoadStudents
    | ReloadStudents
    | LoadStudentAttachments

  datatype SubmittedFile = SubmittedFile(name: string, link: string)

  /** One row of an assignment's submission list. `submittedFiles` is None until a first
      attachment is recorded: the C# list starts out null. */
  datatype StudentInfo = StudentInfo(
    name: string,
    id: string,
    submitted: string,
    status: string,
    grade: string,
    released: bool,
    gradeLink: string,
    filesAttached: bool,
    submittedFiles: Option<seq<SubmittedFile>>)
  {
    /** "Name (ID)" */
    function ToString(): string {
      name + " (" + id + ")"
    }
  }

  /** One row of the assignment list, with the students read from its submission list. */
  datatype Assignment = Assignment(
    title: string,
    link: string,
    status: string,
    open: string,
    due: string,
    inNew: string,
    scale: string,
    students: Dict<StudentInfo>)
  {
    function ToString(): string {
      title
    }
  }
}
