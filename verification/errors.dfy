/** The errors the updater passes around, and Go's habit of returning a zero
    version next to them. */
module Errors {
  import opened Wrappers
  import opened SemVer

  datatype Error =
    | BadVersion(cause: ParseError)
    | InvalidImageName(image: string)
    | Cluster(message: string)

  /** A semver parse seen from Go: the version, or `Zero` with the error. */
  function Returned(r: Result<Version, ParseError>): (f: Fallible<Version, Error>)
    ensures f.Failed() <==> r.Err?
    ensures f.Failed() ==> f.value == Zero && f.err.value == BadVersion(r.error)
    ensures !f.Failed() ==> f.value == r.value
  {
    match r
    case Ok(v) => Fallible(v, None)
    case Err(e) => Fallible(Zero, Some(BadVersion(e)))
  }
}
