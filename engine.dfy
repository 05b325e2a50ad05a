/**
  The resolution engine (`resolveDependencies`): fetch a package's metadata,
  pick a version, fetch that version's manifest, and resolve every declared
  dependency into a fresh child node inserted into the parent's map.

  `Resolution` says what resolving a package name under a constraint leaves
  in the node and which errors it may report; `ResolveDependencies` is the
  imperative engine proved against it.  Recursion is bounded by a rank on
  nodes (a package name with a constraint) that decreases along every chain
  of manifests from the root (`Bounded`); the source itself has no such
  bound and does not stop when such a chain returns to a node it passed.
*/
module Engine {
  import opened Wrappers
  import opened Errors
  import opened Semver
  import opened Npm
  import opened Selection

  /** A resolved package as the handler serialises it: name, version and resolved dependencies. */
  datatype Tree = Tree(name: string, version: string, dependencies: map<string, Tree>)

  /**
    The outcome of one node's own steps before it fans out to its
    dependencies: a failure (with the version already selected, when the
    failure came after selection) or the selected version and the
    dependencies its manifest declares.
  */
  datatype Step =
    | Stopped(error: HttpError, selected: Option<string>)
    | Fetched(version: string, dependencies: map<string, string>)

  /** Metadata fetch, version selection and manifest fetch, each failure passed on unchanged. */
  ghost function LocalStep(reg: Registry, lib: Library, name: string, constraint: string): (r: Step)
    ensures r.Stopped? ==> !Success(r.error.statusCode)
  {
    match FetchPackageMeta(reg, name)
    case Err(e) => Stopped(e, None)
    case Ok(meta) =>
      match SelectVersion(lib, constraint, meta.versions.Keys)
      case Err(e) => Stopped(e, None)
      case Ok(version) =>
        match FetchPackage(reg, name, version)
        case Err(e) => Stopped(e, Some(version))
        case Ok(manifest) => Fetched(version, manifest.dependencies)
  }

  /**
    A node's own steps as a function of its package name and constraint.
    Resolution is defined over such a function; for the service it is
    `StepsOf(reg, lib)`.
  */
  type Steps = (string, string) -> Step

  /** A measure on nodes, each given as a package name and a constraint. */
  type Rank = (string, string) -> nat

  ghost function StepsOf(reg: Registry, lib: Library): Steps
  {
    (name, constraint) => LocalStep(reg, lib, name, constraint)
  }

  /**
    `steps` gives the service's own steps on this registry and library.  The
    engine's methods take such a function, so that only the method doing
    the fetches unfolds `LocalStep`.
  */
  ghost predicate Implements(steps: Steps, reg: Registry, lib: Library)
  {
    forall name, constraint {:trigger LocalStep(reg, lib, name, constraint)} ::
      steps(name, constraint) == LocalStep(reg, lib, name, constraint)
  }

  /**
    `rank` decreases along every chain of manifests from `name` under
    `constraint`: each dependency a fetched manifest declares, under the
    constraint it gives, ranks below the node declaring it and is bounded
    in turn.  Nodes no chain from here reaches are unconstrained.
  */
  ghost predicate Bounded(steps: Steps, rank: Rank, name: string, constraint: string)
    decreases rank(name, constraint)
  {
    var s := steps(name, constraint);
    s.Fetched? ==>
      forall d | d in s.dependencies ::
        && rank(d, s.dependencies[d]) < rank(name, constraint)
        && Bounded(steps, rank, d, s.dependencies[d])
  }

  /**
    What resolving a node leaves behind: the tree the node then holds, and
    the errors the resolution may report.  It succeeds exactly when there
    are none.
  */
  datatype Outcome = Outcome(tree: Tree, errors: set<HttpError>)

  /**
    Resolution of a fresh node for `name` under `constraint`.  A failing
    step stops the node, keeping the version when one was selected.
    Otherwise every dependency is resolved: those that succeed are in the
    node's map, and the node may report any error any dependency may report
    (which failing dependency wins is a race).
  */
  ghost function Resolution(steps: Steps, rank: Rank, name: string, constraint: string): (r: Outcome)
    requires Bounded(steps, rank, name, constraint)
    decreases rank(name, constraint)
    ensures r.tree.name == name
  {
    match steps(name, constraint)
    case Stopped(e, selected) =>
      Outcome(Tree(name, if selected.Some? then selected.value else "", map[]), {e})
    case Fetched(version, deps) =>
      Outcome(Tree(name, version, map d | d in deps && Resolution(steps, rank, d, deps[d]).errors == {}
                                        :: Resolution(steps, rank, d, deps[d]).tree),
              set d, e | d in deps && e in Resolution(steps, rank, d, deps[d]).errors :: e)
  }

  /**
    `outcomes` gives `Resolution` for every name and constraint.  The engine's
    methods are stated against such a table, so that their proofs about the
    node graph do not unfold the definition.
  */
  ghost predicate Tabulates(outcomes: (string, string) -> Outcome, steps: Steps, rank: Rank)
  {
    forall name, constraint {:trigger Resolution(steps, rank, name, constraint)} ::
      Bounded(steps, rank, name, constraint) ==>
        outcomes(name, constraint) == Resolution(steps, rank, name, constraint)
  }

  /** The resolved children of a node whose manifest declared `deps`, among the names in `keys`. */
  ghost function Resolved(outcomes: (string, string) -> Outcome, deps: map<string, string>, keys: set<string>)
    : map<string, Tree>
  {
    map k | k in keys && k in deps && outcomes(k, deps[k]).errors == {} :: outcomes(k, deps[k]).tree
  }

  /** Visiting one more dependency adds it to the resolved children exactly when it succeeds. */
  lemma ResolvedInsert(outcomes: (string, string) -> Outcome, deps: map<string, string>, keys: set<string>, k: string)
    requires k in deps && k !in keys
    ensures Resolved(outcomes, deps, keys + {k}) ==
            if outcomes(k, deps[k]).errors == {} then Resolved(outcomes, deps, keys)[k := outcomes(k, deps[k]).tree]
            else Resolved(outcomes, deps, keys)
  {
  }

  /** Once a node's manifest is in, its outcome is made of its dependencies' outcomes. */
  lemma FetchedOutcome(steps: Steps, rank: Rank, outcomes: (string, string) -> Outcome,
                       name: string, constraint: string)
    requires Tabulates(outcomes, steps, rank) && Bounded(steps, rank, name, constraint)
    requires steps(name, constraint).Fetched?
    ensures var s := steps(name, constraint);
            var r := Resolution(steps, rank, name, constraint);
            && r.tree == Tree(name, s.version, Resolved(outcomes, s.dependencies, s.dependencies.Keys))
            && (r.errors == {} <==> forall k | k in s.dependencies :: outcomes(k, s.dependencies[k]).errors == {})
            && forall k | k in s.dependencies :: outcomes(k, s.dependencies[k]).errors <= r.errors
  {
    var s := steps(name, constraint);
    var r := Resolution(steps, rank, name, constraint);
    forall k | k in s.dependencies
      ensures outcomes(k, s.dependencies[k]) == Resolution(steps, rank, k, s.dependencies[k])
    {
    }
    assert r.tree.dependencies == Resolved(outcomes, s.dependencies, s.dependencies.Keys);
    if r.errors == {} {
      forall k | k in s.dependencies
        ensures outcomes(k, s.dependencies[k]).errors == {}
      {
      }
    }
  }

  /** The service's steps do give the service's steps. */
  lemma StepsOfImplements(reg: Registry, lib: Library)
    ensures Implements(StepsOf(reg, lib), reg, lib)
  {
  }

  /** Resolution with the service's own steps. */
  ghost function ServiceResolution(reg: Registry, lib: Library, rank: Rank, name: string, constraint: string)
    : Outcome
    requires Bounded(StepsOf(reg, lib), rank, name, constraint)
  {
    Resolution(StepsOf(reg, lib), rank, name, constraint)
  }

  /**
    Along a chain from a bounded node the rank falls at every link: no chain
    returns to its start, and none has more links than the start's rank.
  */
  lemma {:induction false} ChainDescends(steps: Steps, rank: Rank, path: seq<(string, string)>)
    requires |path| > 1 && Chain(steps, path) && Bounded(steps, rank, path[0].0, path[0].1)
    ensures rank(path[|path| - 1].0, path[|path| - 1].1) + (|path| - 1) <= rank(path[0].0, path[0].1)
    ensures path[|path| - 1] != path[0]
    decreases |path|
  {
    if |path| > 2 {
      ChainDescends(steps, rank, path[1..]);
    }
  }

  /** No error a resolution may report carries a 2xx status. */
  lemma {:induction false} ErrorsNotSuccess(reg: Registry, lib: Library, steps: Steps, rank: Rank,
                                            name: string, constraint: string)
    requires Implements(steps, reg, lib) && Bounded(steps, rank, name, constraint)
    ensures forall e | e in Resolution(steps, rank, name, constraint).errors :: !Success(e.statusCode)
    decreases rank(name, constraint)
  {
    var s := LocalStep(reg, lib, name, constraint);
    if s.Fetched? {
      forall d | d in s.dependencies
        ensures forall e | e in Resolution(steps, rank, d, s.dependencies[d]).errors :: !Success(e.statusCode)
      {
        ErrorsNotSuccess(reg, lib, steps, rank, d, s.dependencies[d]);
      }
    }
  }

  /** `next` is a dependency the manifest of `node` declares, under the constraint it gives. */
  ghost predicate Link(steps: Steps, node: (string, string), next: (string, string))
  {
    var s := steps(node.0, node.1);
    s.Fetched? && next.0 in s.dependencies && s.dependencies[next.0] == next.1
  }

  /** A chain of nodes, each given as a package name and a constraint, each linked to the next. */
  ghost predicate Chain(steps: Steps, path: seq<(string, string)>)
  {
    |path| <= 1 || (Link(steps, path[0], path[1]) && Chain(steps, path[1..]))
  }

  /** A chain from `root` whose last node stops with `e`. */
  ghost predicate FailsWith(steps: Steps, path: seq<(string, string)>, root: (string, string), e: HttpError)
  {
    && |path| > 0 && path[0] == root
    && Chain(steps, path)
    && steps(path[|path| - 1].0, path[|path| - 1].1).Stopped?
    && steps(path[|path| - 1].0, path[|path| - 1].1).error == e
  }

  /** An error a resolution may report was met by some node its manifests lead to. */
  lemma {:induction false} FailureTraced(steps: Steps, rank: Rank, name: string, constraint: string, e: HttpError)
    requires Bounded(steps, rank, name, constraint)
    requires e in Resolution(steps, rank, name, constraint).errors
    ensures exists path :: FailsWith(steps, path, (name, constraint), e)
    decreases rank(name, constraint)
  {
    match steps(name, constraint)
    case Stopped(_, _) =>
      assert FailsWith(steps, [(name, constraint)], (name, constraint), e);
    case Fetched(_, deps) =>
      var d :| d in deps && e in Resolution(steps, rank, d, deps[d]).errors;
      FailureTraced(steps, rank, d, deps[d], e);
      var path :| FailsWith(steps, path, (d, deps[d]), e);
      var full := [(name, constraint)] + path;
      assert full[1..] == path;
      assert FailsWith(steps, full, (name, constraint), e);
  }

  /** Conversely, every node its manifests lead to that stops contributes its error. */
  lemma {:induction false} TracedFailure(steps: Steps, rank: Rank, path: seq<(string, string)>,
                                         name: string, constraint: string, e: HttpError)
    requires Bounded(steps, rank, name, constraint)
    requires FailsWith(steps, path, (name, constraint), e)
    ensures e in Resolution(steps, rank, name, constraint).errors
    decreases |path|
  {
    if |path| > 1 {
      TracedFailure(steps, rank, path[1..], path[1].0, path[1].1, e);
    }
  }

  /**
    A tree of pinned versions: its version is the highest version the
    metadata offers under the constraint, that version's manifest was
    fetched, and its children are exactly the declared dependencies, each
    pinned under the constraint the manifest gives it.
  */
  ghost predicate Pinned(reg: Registry, lib: Library, t: Tree, constraint: string)
    decreases t
  {
    var meta := FetchPackageMeta(reg, t.name);
    var c := lib.newConstraint(constraint);
    var manifest := FetchPackage(reg, t.name, t.version);
    && meta.Ok? && c.Some? && manifest.Ok?
    && IsHighestCompatible(lib, c.value, meta.value.versions.Keys, t.version)
    && t.dependencies.Keys == manifest.value.dependencies.Keys
    && forall d | d in t.dependencies ::
         t.dependencies[d].name == d && Pinned(reg, lib, t.dependencies[d], manifest.value.dependencies[d])
  }

  /** What a node's own steps give when they succeed. */
  lemma FetchedStep(reg: Registry, lib: Library, steps: Steps, name: string, constraint: string)
    requires Implements(steps, reg, lib) && steps(name, constraint).Fetched?
    ensures var s := steps(name, constraint);
            && FetchPackageMeta(reg, name).Ok? && lib.newConstraint(constraint).Some?
            && IsHighestCompatible(lib, lib.newConstraint(constraint).value, FetchPackageMeta(reg, name).value.versions.Keys, s.version)
            && FetchPackage(reg, name, s.version).Ok?
            && FetchPackage(reg, name, s.version).value.dependencies == s.dependencies
  {
    assert steps(name, constraint) == LocalStep(reg, lib, name, constraint);
  }

  /** The steps of a pinned tree's root succeed with its version and its manifest. */
  lemma PinnedStep(reg: Registry, lib: Library, steps: Steps, t: Tree, constraint: string)
    requires Implements(steps, reg, lib) && Pinned(reg, lib, t, constraint)
    ensures steps(t.name, constraint) == Fetched(t.version, FetchPackage(reg, t.name, t.version).value.dependencies)
  {
    SelectionComplete(lib, constraint, FetchPackageMeta(reg, t.name).value.versions.Keys, t.version);
    assert steps(t.name, constraint) == LocalStep(reg, lib, t.name, constraint);
  }

  /** A successful resolution builds a pinned tree. */
  lemma {:induction false} ResolvedPinned(reg: Registry, lib: Library, steps: Steps, rank: Rank,
                                          name: string, constraint: string)
    requires Implements(steps, reg, lib) && Bounded(steps, rank, name, constraint)
    requires Resolution(steps, rank, name, constraint).errors == {}
    ensures Pinned(reg, lib, Resolution(steps, rank, name, constraint).tree, constraint)
    decreases rank(name, constraint)
  {
    var s := steps(name, constraint);
    FetchedStep(reg, lib, steps, name, constraint);
    var t := Resolution(steps, rank, name, constraint).tree;
    forall d | d in s.dependencies
      ensures Resolution(steps, rank, d, s.dependencies[d]).errors == {}
      ensures d in t.dependencies && t.dependencies[d] == Resolution(steps, rank, d, s.dependencies[d]).tree
      ensures Pinned(reg, lib, t.dependencies[d], s.dependencies[d])
    {
      assert Resolution(steps, rank, d, s.dependencies[d]).errors <= Resolution(steps, rank, name, constraint).errors;
      ResolvedPinned(reg, lib, steps, rank, d, s.dependencies[d]);
    }
  }

  /** A pinned tree is what resolution builds: resolution succeeds with it and with no other tree. */
  lemma {:induction false} PinnedResolved(reg: Registry, lib: Library, steps: Steps, rank: Rank,
                                          t: Tree, constraint: string)
    requires Implements(steps, reg, lib) && Bounded(steps, rank, t.name, constraint)
    requires Pinned(reg, lib, t, constraint)
    ensures Resolution(steps, rank, t.name, constraint) == Outcome(t, {})
    decreases t
  {
    PinnedStep(reg, lib, steps, t, constraint);
    var deps := FetchPackage(reg, t.name, t.version).value.dependencies;
    forall d | d in deps
      ensures Resolution(steps, rank, d, deps[d]) == Outcome(t.dependencies[d], {})
    {
      PinnedResolved(reg, lib, steps, rank, t.dependencies[d], deps[d]);
    }
    ChildrenResolved(steps, rank, t.name, constraint, t.dependencies);
  }

  /** A node whose manifest is in and whose every dependency succeeds succeeds with those subtrees. */
  lemma ChildrenResolved(steps: Steps, rank: Rank, name: string, constraint: string,
                         children: map<string, Tree>)
    requires Bounded(steps, rank, name, constraint) && steps(name, constraint).Fetched?
    requires var deps := steps(name, constraint).dependencies;
             && children.Keys == deps.Keys
             && forall d | d in deps :: Resolution(steps, rank, d, deps[d]) == Outcome(children[d], {})
    ensures Resolution(steps, rank, name, constraint) == Outcome(Tree(name, steps(name, constraint).version, children), {})
  {
    var r := Resolution(steps, rank, name, constraint);
    assert r.tree.dependencies == children;
  }

  /** A package node (`NpmPackageVersion`), filled in place by resolution. */
  class Node {
    var name: string
    var version: string
    var dependencies: map<string, Node>
    ghost var Repr: set<object>

    /** The node owns its dependencies, and they own theirs; no node is its own descendant. */
    ghost predicate Valid()
      reads this, Repr
      decreases Repr
    {
      && this in Repr
      && forall k | k in dependencies ::
           && dependencies[k] in Repr
           && dependencies[k].Repr <= Repr
           && this !in dependencies[k].Repr
           && dependencies[k].Valid()
    }

    /** A fresh node: name set, no version yet, no dependencies. */
    constructor (name: string)
      ensures this.name == name && version == "" && dependencies == map[]
      ensures Valid() && Repr == {this}
    {
      this.name := name;
      version := "";
      dependencies := map[];
      Repr := {this};
    }

    /** The node as a value: what `json.MarshalIndent` serialises. */
    function Value(): (t: Tree)
      reads this, Repr
      requires Valid()
      ensures t.name == name && t.version == version
      decreases Repr
    {
      Tree(name, version, map k | k in dependencies :: dependencies[k].Value())
    }

    /** A node without dependencies is a leaf. */
    lemma EmptyValue()
      requires Valid() && dependencies == map[]
      ensures Value() == Tree(name, version, map[])
    {
    }

    /** Inserting a resolved dependency under its name (`pkg.Dependencies[depName] = dep`). */
    method AddDependency(depName: string, dep: Node)
      requires Valid() && dep.Valid() && this !in dep.Repr
      requires depName !in dependencies
      modifies this
      ensures Valid() && Repr == old(Repr) + dep.Repr
      ensures name == old(name) && version == old(version)
      ensures dependencies == old(dependencies)[depName := dep]
      ensures Value() == Tree(name, version, old(Value()).dependencies[depName := dep.Value()])
    {
      ghost var before := Value();
      Repr := Repr + dep.Repr;
      dependencies := dependencies[depName := dep];
      assert Value().dependencies == before.dependencies[depName := dep.Value()];
    }
  }


  /**
    `resolveDependencies` on a fresh node.  The node ends up holding the
    tree `Resolution` describes; no error is returned exactly when
    resolution succeeds, and an error returned is one it may report.
  */
  method ResolveDependencies(reg: Registry, lib: Library, ghost steps: Steps, ghost rank: Rank,
                             ghost outcomes: (string, string) -> Outcome,
                             pkg: Node, versionConstraint: string)
    returns (err: Option<HttpError>)
    requires Implements(steps, reg, lib) && Tabulates(outcomes, steps, rank)
    requires Bounded(steps, rank, pkg.name, versionConstraint)
    requires pkg.Valid() && pkg.version == "" && pkg.dependencies == map[]
    modifies pkg
    decreases rank(pkg.name, versionConstraint), 2
    ensures pkg.Valid() && fresh(pkg.Repr - old(pkg.Repr))
    ensures pkg.name == old(pkg.name)
    ensures pkg.Value() == outcomes(pkg.name, versionConstraint).tree
    ensures err.None? <==> outcomes(pkg.name, versionConstraint).errors == {}
    ensures err.Some? ==> err.value in outcomes(pkg.name, versionConstraint).errors
  {
    ghost var outcome := Resolution(steps, rank, pkg.name, versionConstraint);
    var deps;
    err, deps := FetchSteps(reg, lib, steps, pkg, versionConstraint);
    if err.Some? {
      pkg.EmptyValue();
      return;
    }
    err := ResolveChildren(reg, lib, steps, rank, outcomes, rank(pkg.name, versionConstraint), pkg, deps);
    FetchedOutcome(steps, rank, outcomes, pkg.name, versionConstraint);
  }

  /**
    The node's own steps in `resolveDependencies`: fetch the metadata, select
    the version and record it in the node, fetch that version's manifest.
    The first failure is returned; otherwise the manifest's dependencies.
  */
  method FetchSteps(reg: Registry, lib: Library, ghost steps: Steps, pkg: Node, versionConstraint: string)
    returns (err: Option<HttpError>, deps: map<string, string>)
    requires Implements(steps, reg, lib)
    requires pkg.Valid() && pkg.dependencies == map[]
    modifies pkg
    ensures pkg.Valid() && pkg.Repr == old(pkg.Repr)
    ensures pkg.name == old(pkg.name) && pkg.dependencies == map[]
    ensures match steps(pkg.name, versionConstraint)
            case Stopped(e, selected) =>
              err == Some(e) && pkg.version == if selected.Some? then selected.value else old(pkg.version)
            case Fetched(version, dependencies) =>
              err == None && pkg.version == version && deps == dependencies
  {
    ghost var step := LocalStep(reg, lib, pkg.name, versionConstraint);
    deps := map[];
    var pkgMeta := FetchPackageMeta(reg, pkg.name);
    if pkgMeta.Err? {
      return Some(pkgMeta.error), deps;
    }
    var concreteVersion := HighestCompatibleVersion(lib, versionConstraint, pkgMeta.value);
    if concreteVersion.Err? {
      return Some(concreteVersion.error), deps;
    }
    pkg.version := concreteVersion.value;
    var npmPkg := FetchPackage(reg, pkg.name, pkg.version);
    if npmPkg.Err? {
      return Some(npmPkg.error), deps;
    }
    return None, npmPkg.value.dependencies;
  }

  /**
    The fan-out of `resolveDependencies`: each declared dependency is
    resolved into a fresh node.  The dependencies are visited one at a time
    in an unspecified order, standing for the goroutines' completion order;
    the first failure in that order is kept, and every dependency that
    succeeds is inserted, before or after a failure.
  */
  method ResolveChildren(reg: Registry, lib: Library, ghost steps: Steps, ghost rank: Rank,
                         ghost outcomes: (string, string) -> Outcome, ghost bound: nat,
                         pkg: Node, deps: map<string, string>)
    returns (firstError: Option<HttpError>)
    requires Implements(steps, reg, lib) && Tabulates(outcomes, steps, rank)
    requires pkg.Valid() && pkg.dependencies == map[]
    requires forall d | d in deps :: rank(d, deps[d]) < bound && Bounded(steps, rank, d, deps[d])
    modifies pkg
    decreases bound, 1
    ensures pkg.Valid() && fresh(pkg.Repr - old(pkg.Repr))
    ensures pkg.Value() == Tree(old(pkg.name), old(pkg.version), Resolved(outcomes, deps, deps.Keys))
    ensures firstError.None? <==> forall k | k in deps :: outcomes(k, deps[k]).errors == {}
    ensures firstError.Some? ==> exists k | k in deps :: firstError.value in outcomes(k, deps[k]).errors
  {
    firstError := None;
    var todo := deps.Keys;
    ghost var done: set<string> := {};
    while todo != {}
      invariant done == deps.Keys - todo && todo <= deps.Keys
      invariant pkg.Valid() && fresh(pkg.Repr - old(pkg.Repr))
      invariant pkg.dependencies.Keys <= done
      invariant pkg.Value() == Tree(old(pkg.name), old(pkg.version), Resolved(outcomes, deps, done))
      invariant firstError.None? <==> forall k | k in done :: outcomes(k, deps[k]).errors == {}
      invariant firstError.Some? ==> exists k | k in done :: firstError.value in outcomes(k, deps[k]).errors
      decreases todo
    {
      var depName :| depName in todo;
      ResolvedInsert(outcomes, deps, done, depName);
      var err := ResolveDependency(reg, lib, steps, rank, outcomes, bound, pkg, depName, deps[depName]);
      if err.Some? && firstError.None? {
        firstError := err;
      }
      todo := todo - {depName};
      done := done + {depName};
    }
  }

  /**
    One goroutine of the fan-out, up to the insertion: a fresh node for
    `name`, resolved under `constraint`.
  */
  method ResolveFresh(reg: Registry, lib: Library, ghost steps: Steps, ghost rank: Rank,
                      ghost outcomes: (string, string) -> Outcome, name: string, constraint: string)
    returns (dep: Node, err: Option<HttpError>)
    requires Implements(steps, reg, lib) && Tabulates(outcomes, steps, rank)
    requires Bounded(steps, rank, name, constraint)
    decreases rank(name, constraint), 3
    ensures dep.Valid() && fresh(dep.Repr)
    ensures dep.Value() == outcomes(name, constraint).tree
    ensures err.None? <==> outcomes(name, constraint).errors == {}
    ensures err.Some? ==> err.value in outcomes(name, constraint).errors
  {
    dep := new Node(name);
    err := ResolveDependencies(reg, lib, steps, rank, outcomes, dep, constraint);
  }

  /**
    One goroutine of the fan-out: resolve a fresh node for `depName`, and
    insert it into the parent if it succeeded; a failure leaves the parent
    as it was.
  */
  method ResolveDependency(reg: Registry, lib: Library, ghost steps: Steps, ghost rank: Rank,
                           ghost outcomes: (string, string) -> Outcome, ghost bound: nat,
                           pkg: Node, depName: string, depVersion: string)
    returns (err: Option<HttpError>)
    requires Implements(steps, reg, lib) && Tabulates(outcomes, steps, rank)
    requires pkg.Valid() && depName !in pkg.dependencies
    requires rank(depName, depVersion) < bound && Bounded(steps, rank, depName, depVersion)
    modifies pkg
    decreases bound, 0
    ensures pkg.Valid() && fresh(pkg.Repr - old(pkg.Repr))
    ensures err.None? <==> outcomes(depName, depVersion).errors == {}
    ensures err.Some? ==> err.value in outcomes(depName, depVersion).errors
    ensures err.None? ==> pkg.dependencies.Keys == old(pkg.dependencies).Keys + {depName}
    ensures err.None? ==>
              pkg.Value() == Tree(old(pkg.name), old(pkg.version),
                                  old(pkg.Value()).dependencies[depName := outcomes(depName, depVersion).tree])
    ensures err.Some? ==> pkg.dependencies == old(pkg.dependencies) && pkg.Value() == old(pkg.Value())
  {
    ghost var before := pkg.Value();
    var dep;
    dep, err := ResolveFresh(reg, lib, steps, rank, outcomes, depName, depVersion);
    assert pkg.Value() == before;
    if err.None? {
      pkg.AddDependency(depName, dep);
    }
  }
}
