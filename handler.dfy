/**
  The HTTP handler for `/package/{package}/{version}` (`packageHandler`):
  resolve a fresh root node and answer with its tree, or with the error the
  resolution reported.
*/
module Handler {
  import opened Wrappers
  import opened Errors
  import opened Semver
  import opened Npm
  import opened Engine

  /** What the handler writes back, before JSON encoding: the resolved tree or an error. */
  datatype Reply = TreeReply(tree: Tree) | ErrorReply(error: HttpError)

  /** The error sent for an error returned by resolution: an `*HTTPError` as it is, anything else as 500. */
  function ErrorResponse(err: GoError): (r: HttpError)
    ensures err.Typed? ==> r == err.error
    ensures err.Untyped? ==> r == HttpError(StatusInternalServerError, InternalServerError)
  {
    match err
    case Typed(e) => e
    case Untyped(_) => HttpError(StatusInternalServerError, InternalServerError)
  }

  /**
    `packageHandler`: 200 with the resolved tree exactly when resolution
    succeeds; otherwise the status and body of one error resolution may
    report.
  */
  method PackageHandler(reg: Registry, lib: Library, ghost rank: Rank, pkgName: string, pkgVersion: string)
    returns (status: int, reply: Reply)
    requires Bounded(StepsOf(reg, lib), rank, pkgName, pkgVersion)
    ensures var outcome := ServiceResolution(reg, lib, rank, pkgName, pkgVersion);
            && (status == StatusOK <==> outcome.errors == {})
            && (status == StatusOK ==> reply == TreeReply(outcome.tree))
            && (status != StatusOK ==> reply.ErrorReply? && reply.error in outcome.errors
                                       && status == reply.error.statusCode)
    // a package the registry does not know is answered with 404
    ensures reg.meta(pkgName).Answered? && reg.meta(pkgName).status == StatusNotFound ==>
              status == StatusNotFound && reply == ErrorReply(HttpError(StatusNotFound, NotFound(Package(pkgName))))
    // so is a version constraint that does not parse, once the metadata is in
    ensures FetchPackageMeta(reg, pkgName).Ok? && lib.newConstraint(pkgVersion).None? ==>
              status == StatusNotFound && reply == ErrorReply(HttpError(StatusNotFound, InvalidConstraint(pkgVersion)))
  {
    ghost var steps := StepsOf(reg, lib);
    StepsOfImplements(reg, lib);
    ghost var outcomes := (name, constraint) =>
      if Bounded(steps, rank, name, constraint) then Resolution(steps, rank, name, constraint)
      else Outcome(Tree(name, "", map[]), {});
    var rootPkg := new Node(pkgName);
    var err := ResolveDependencies(reg, lib, steps, rank, outcomes, rootPkg, pkgVersion);
    ErrorsNotSuccess(reg, lib, steps, rank, pkgName, pkgVersion);
    if err.Some? {
      var httpErr := ErrorResponse(Typed(err.value));
      return httpErr.statusCode, ErrorReply(httpErr);
    }
    return StatusOK, TreeReply(rootPkg.Value());
  }
}
