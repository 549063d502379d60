/** Option and Result, and the exceptions the parser can raise. */
module Wrappers {

  datatype Option<+T> = None | Some(value: T) {
    function GetOr(default: T): T {
      if Some? then value else default
    }
  }

  datatype Result<+T, +E> = Success(value: T) | Failure(error: E)

  /** An exception thrown out of the document-completed handler, by its cause. */
  datatype Fault =
    | MembershipLinkNotFound    // "Unable to find Membership link"
    | AssignmentsLinkNotFound   // "Unable to find Assignments link"
    | DuplicateKey(key: string) // Dictionary.Add with a key that is already present
    | KeyNotFound(key: string)  // the dictionary indexer with an absent key
    | OutOfRange                // ElementAt, [0] of an empty collection, matches[0], Substring(0, -1)
}
