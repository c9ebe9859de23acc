/** Result and error shapes shared by the whole model. */
module Wrappers {

  datatype Option<T> = None | Some(value: T)

  /** The errors the core reports. The source carries them as Go error values. */
  datatype Error =
    | NoCapacity      // "no available nodes with sufficient resources"
    | NodeNotFound    // "node not found" / HTTP 404 on delete
    | BackendError    // a container backend call failed; its message is passed through
    | RestartFailed   // "node restart failed and was removed"

  datatype Result<T> = Ok(value: T) | Err(error: Error)

  /** For operations whose only result is an error or nil. */
  datatype Outcome = Pass | Fail(error: Error)

  predicate Distinct<T(==)>(s: seq<T>)
  {
    forall i, j :: 0 <= i < j < |s| ==> s[i] != s[j]
  }
}
