/**
  The custom error type of the service, `HTTPError`: a status code and a
  message.  Messages are not modelled as text: each format used to build one
  is a constructor carrying the arguments the model keeps (the package, the
  version, the constraint, the diagnostic list of versions).
*/
module Errors {

  const StatusOK := 200
  const StatusNotFound := 404
  const StatusRequestTimeout := 408
  const StatusInternalServerError := 500
  const StatusBadGateway := 502

  /** A status code in the 2xx range. */
  predicate Success(status: int)
  {
    200 <= status < 300
  }

  /** What a registry request was about: a package's metadata, or one version of it. */
  datatype Target = Package(name: string) | PackageAt(name: string, version: string)

  datatype Message =
    | TimedOut(target: Target)                          // "request timed out for package ..."
    | BadGateway(target: Target)                        // "bad gateway while fetching package ..."
    | FetchFailed(target: Target)                       // "failed to fetch package ..."
    | NotFound(target: Target)                          // "unable to find package ..."
    | UnexpectedStatus(status: int, target: Target)     // "received unexpected status ..."
    | UnreadableBody(target: Target)                    // "unable to read response body ..."
    | UnparsableBody(target: Target)                    // "unable to pars package metadata ..."
    | InvalidConstraint(constraint: string)             // "unable to determine version constraint ..."
    | NoCompatibleVersions(listing: string, constraint: string) // "no compatabile versions ..."
    | InternalServerError                               // "internal server error"

  datatype HttpError = HttpError(statusCode: int, message: Message)

  /** A Go `error` value: either an `*HTTPError` or some other error. */
  datatype GoError = Typed(error: HttpError) | Untyped(text: string)
}
