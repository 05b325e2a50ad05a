/**
  The registry side: the payloads the service decodes from the npm registry
  and the two fetch functions.  The HTTP exchange itself is abstract: a
  `Registry` says, for each request, whether the transport failed or which
  status and body came back.  Only the branching of the fetch functions on
  that outcome is modelled.
*/
module Npm {
  import opened Wrappers
  import opened Errors

  /** One published version's manifest (`npmPackageResponse`). */
  datatype Manifest = Manifest(name: string, version: string, dependencies: map<string, string>)

  /** A package's metadata, keyed by published version string (`npmPackageMetaResponse`). */
  datatype PackageMeta = PackageMeta(versions: map<string, Manifest>)

  /** How `http.Get` failed: a `*url.Error`, which reports whether it was a timeout, or any other error. */
  datatype TransportError = UrlError(timedOut: bool) | OtherError

  /** What reading and decoding a response body gave. */
  datatype Body<T> = Unreadable | Malformed | Decoded(value: T)

  /** The outcome of one registry request. */
  datatype Exchange<T> = TransportFailed(cause: TransportError) | Answered(status: int, body: Body<T>)

  /**
    The registry as this service sees it: the outcome of fetching a
    package's metadata (`GET /<name>`) and one version's manifest
    (`GET /<name>/<version>`).
  */
  datatype Registry = Registry(meta: string -> Exchange<PackageMeta>, manifest: (string, string) -> Exchange<Manifest>)

  /** The status a transport failure is reported with. */
  function TransportStatus(cause: TransportError): int
  {
    match cause
    case UrlError(timedOut) => if timedOut then StatusRequestTimeout else StatusBadGateway
    case OtherError => StatusInternalServerError
  }

  /** The error handling shared by both fetch functions. */
  function Classify<T>(x: Exchange<T>, target: Target): (r: Result<T, HttpError>)
    // only a 2xx answer whose body decodes is a success, and it yields that body
    ensures r.Ok? <==> x.Answered? && Success(x.status) && x.body.Decoded?
    ensures r.Ok? ==> r.value == x.body.value
    // a failure is never reported with a 2xx status
    ensures r.Err? ==> !Success(r.error.statusCode)
    // transport failures: a timeout is 408, another url.Error 502, anything else 500
    ensures x == TransportFailed(UrlError(true)) ==> r.error.statusCode == 408
    ensures x == TransportFailed(UrlError(false)) ==> r.error.statusCode == 502
    ensures x == TransportFailed(OtherError) ==> r.error.statusCode == 500
    // a 404 answer is reported as not found; any other non-2xx status passes through unchanged
    ensures x.Answered? && x.status == 404 ==> r == Err(HttpError(404, NotFound(target)))
    ensures x.Answered? && !Success(x.status) ==> r.Err? && r.error.statusCode == x.status
    // a 2xx answer that cannot be read or decoded is an internal error
    ensures x.Answered? && Success(x.status) && !x.body.Decoded? ==> r.Err? && r.error.statusCode == 500
  {
    match x
    case TransportFailed(cause) =>
      var message := match cause
        case UrlError(timedOut) => if timedOut then TimedOut(target) else BadGateway(target)
        case OtherError => FetchFailed(target);
      Err(HttpError(TransportStatus(cause), message))
    case Answered(status, body) =>
      if status == StatusNotFound then Err(HttpError(status, NotFound(target)))
      else if status < 200 || status >= 300 then Err(HttpError(status, UnexpectedStatus(status, target)))
      else
        match body
        case Unreadable => Err(HttpError(StatusInternalServerError, UnreadableBody(target)))
        case Malformed => Err(HttpError(StatusInternalServerError, UnparsableBody(target)))
        case Decoded(value) => Ok(value)
  }

  /** `fetchPackage`: one version's manifest. */
  function FetchPackage(reg: Registry, name: string, version: string): (r: Result<Manifest, HttpError>)
    ensures r.Ok? <==> reg.manifest(name, version).Answered? && Success(reg.manifest(name, version).status)
                       && reg.manifest(name, version).body.Decoded?
    ensures r.Ok? ==> r.value == reg.manifest(name, version).body.value
    ensures r.Err? ==> !Success(r.error.statusCode)
  {
    Classify(reg.manifest(name, version), PackageAt(name, version))
  }

  /** `fetchPackageMeta`: a package's metadata. */
  function FetchPackageMeta(reg: Registry, name: string): (r: Result<PackageMeta, HttpError>)
    ensures r.Ok? <==> reg.meta(name).Answered? && Success(reg.meta(name).status) && reg.meta(name).body.Decoded?
    ensures r.Ok? ==> r.value == reg.meta(name).body.value
    ensures r.Err? ==> !Success(r.error.statusCode)
  {
    Classify(reg.meta(name), Package(name))
  }
}
