# npm dependency resolver: a Dafny model

This project models the core of a small HTTP service (`api/api.go`).
Given a package name and a version constraint, the service:

1. fetches the package's metadata from the npm registry;
2. selects the highest published version that satisfies the constraint;
3. fetches that version's manifest;
4. resolves every declared dependency the same way, concurrently;
5. answers with the resolved tree as JSON, or with an `HTTPError` (a status code and a message).

The model is split into modules that follow the program's parts:

| file | module | what it models |
|---|---|---|
| `wrappers.dfy` | `Wrappers` | `Option` and `Result` |
| `errors.dfy` | `Errors` | `HTTPError`, its status codes, and one message constructor per message format |
| `lexical.dfy` | `Lexical` | byte-wise string order, `sort.Strings` (as an insertion sort), the sorted keys of a map, `strings.Join` |
| `semver.dfy` | `Semver` | versions as (major, minor, patch), their order, their canonical `String()` rendering, and the highest element of a collection |
| `npm.dfy` | `Npm` | registry payloads, the registry as an abstract request/outcome function, `fetchPackage` and `fetchPackageMeta` |
| `selection.dfy` | `Selection` | `GetVersionsAsString`, `filterCompatibleVersions` and `highestCompatibleVersion` |
| `engine.dfy` | `Engine` | the `NpmPackageVersion` node as a class, `resolveDependencies`, and the specification it is proved against |
| `handler.dfy` | `Handler` | `packageHandler`: the status and body it answers with |

## Design

**The semver library is a parameter.**
`Library(newVersion, newConstraint)` says which strings parse as versions and as constraints.
A parsed constraint is a predicate on versions, which stands for its `Check` method.

**The registry is a parameter.**
`Registry(meta, manifest)` says, for each request, whether the transport failed (and if so, whether it was a `*url.Error` that timed out) or which status came back.
It also says whether the body could be read and decoded.
`Classify` holds all of the branching that the two fetch functions share.

**Resolution is specified by a ghost function.**
`Engine.Resolution` gives two things for a node:
- the tree the node holds once resolution is over;
- the set of errors the resolution may return.

Resolution succeeds exactly when that set is empty.
The node's own steps (metadata, selection, manifest) are `LocalStep`.
`Resolution` reaches them through a step function `steps`, which for the service is `StepsOf(reg, lib)`.

**The engine is imperative.**
`Engine.Node` is a class with mutable `name`, `version` and `dependencies`, and a ghost `Repr` footprint.
`ResolveDependencies` fills in a node in place and is proved to leave it holding exactly `Resolution`'s tree.

The goroutines are modelled as a sequential loop over the declared dependencies, in an unspecified order (`:|`).
That order stands for both Go's map iteration order and the order in which the goroutines finish.

The methods take a ghost table `outcomes` equal to `Resolution`.
The table is only linked to `Resolution` through a quantifier with a `Resolution` trigger.
This keeps the frame proofs about the node graph from unfolding the definition.

**Termination.**
The source simply recurses.
A node is a package name together with the constraint it is resolved under.
`Engine.Bounded` asks for a ghost `rank` on nodes that decreases along every chain of fetched manifests from the root: each declared dependency, under the constraint its manifest gives it, ranks below the node that declares it.
Only the versions selection actually picks matter, and nodes no chain from the root reaches are unconstrained.
`ChainDescends` shows that such a rank rules out every chain that comes back to a node it passed (on those the source recurses without end).
It also shows that no chain from the root has more links than the root's rank, so the rank rules out every infinite chain too.

**Successes after a failure.**
Every dependency that succeeds is inserted into the parent's map, also after another dependency has failed (api/api.go:141-152).
`Resolution` and `ResolveChildren` say so.

## Model

| member | source | states |
|---|---|---|
| Lexical.LessIrreflexive | api/api.go:65 | no string is below itself in byte-wise order |
| Lexical.LessTransitive | api/api.go:65 | byte-wise order is transitive |
| Lexical.LessTotal | api/api.go:65 | any two distinct strings are ordered one way or the other |
| Lexical.SortStringsCorrect | api/api.go:65 | the `sort.Strings` model returns an ascending permutation of its input |
| Lexical.SortStrings | api/api.go:65 | the `sort.Strings` model, an insertion sort; `SortStringsCorrect` proves its result an ascending permutation of the input |
| Lexical.InsertSorted | api/api.go:65 | inserting into an ascending sequence keeps it ascending |
| Lexical.InsertPermutes | api/api.go:65 | inserting adds exactly one occurrence of the element |
| Lexical.SortedUnique | api/api.go:65 | two ascending sequences with the same elements are equal, so the sorted result does not depend on the input order |
| Lexical.LeastExists | api/api.go:59-65 | every non-empty key set has a least key |
| Lexical.SortedKeys | api/api.go:59-65 | the sorted enumeration of a key set is strictly ascending, holds exactly the keys, and has one entry per key |
| Lexical.SortEnumeration | api/api.go:59-65 | sorting any duplicate-free enumeration of the keys gives the sorted keys, whatever the map iteration order |
| Lexical.Join | api/api.go:73 | joining no parts gives ""; otherwise the length is the parts' total plus one separator between each pair, and the result starts with the first part |
| Semver.DecimalString | api/api.go:175 | a version component renders as a non-empty string of decimal digits, with no leading zero unless it is 0 |
| Semver.DecimalRoundTrip | api/api.go:175 | reading back a rendered component gives the number |
| Semver.ToString | api/api.go:175 | `Version.String()` as "major.minor.patch", at least five characters; `ToStringInjective` proves distinct versions render differently |
| Semver.ToStringInjective | api/api.go:175 | distinct versions render as distinct strings, so the rendering identifies the version |
| Semver.Highest | api/api.go:170-175 | the chosen version is in the collection and no element exceeds it |
| Semver.SortedLastIsHighest | api/api.go:170-175 | the last element of any ascending arrangement of the collection is `Highest`, so taking the last element after `sort.Sort` picks the maximum |
| Semver.MaximumExists | api/api.go:170-175 | every non-empty set of versions has a maximum |
| Semver.MaximumUnique | api/api.go:170-175 | that maximum is unique |
| Npm.Classify | api/api.go:192-227 | success exactly for a 2xx answer whose body decodes, with its body as the value; a timeout gives 408, another `*url.Error` 502, any other transport error 500; a 404 gives `NotFound`; any other non-2xx status is passed through; an unreadable or undecodable 2xx body gives 500; no error carries a 2xx status |
| Npm.FetchPackage | api/api.go:192-227 | a manifest is returned exactly when the registry answered 2xx with a decodable body, and it is the decoded body; no error carries a 2xx status |
| Npm.FetchPackageMeta | api/api.go:229-265 | the same for the metadata request: the decoded metadata exactly on a decodable 2xx answer |
| Selection.Truncate | api/api.go:67-70 | the first `limit` elements, or all of them when there are fewer |
| Selection.ListingSmallest | api/api.go:57-74 | the diagnostic list holds min(10, number of keys) keys; it is strictly ascending; it is drawn from the keys; each listed key is below every key left out; it holds all keys when there are at most ten; it joins to "" for no keys |
| Selection.GetVersionsAsString | api/api.go:57-74 | the result is the ten (or fewer) smallest keys, ascending, joined by ", ", whatever order the map is iterated in |
| Selection.FilterCompatibleVersions | api/api.go:178-190 | one entry per key that parses and satisfies the constraint, and no other; keys that do not parse are skipped; each entry is its key's parsed version; the entries are exactly the compatible versions |
| Selection.SelectVersion | api/api.go:164-176 | every failure is a 404; an unparsable constraint fails with `InvalidConstraint` whatever the versions; otherwise selection succeeds exactly when some key is compatible, and then returns the canonical rendering of a compatible version that no compatible version exceeds; when nothing is compatible, the error embeds the diagnostic list |
| Selection.SelectionComplete | api/api.go:164-176 | conversely, any highest compatible version is what selection returns, so the result is unique |
| Selection.HighestCompatibleVersion | api/api.go:164-176 | the method returns exactly `SelectVersion` of the constraint and the published keys |
| Engine.LocalStep | api/api.go:118-131 | a node's own steps (metadata, selection, manifest); a failing step never carries a 2xx status, and `FetchedStep` gives what a successful one established |
| Engine.ChainDescends | api/api.go:136-141 | under `Bounded`, the rank falls at every link of a chain of manifests: no chain from the root returns to its first node, and none has more links than the root's rank |
| Engine.Resolution | api/api.go:117-162 | the outcome's tree is named after the package it resolves |
| Engine.ResolvedInsert | api/api.go:149-152 | visiting one more dependency adds it to the parent's map exactly when it succeeded, with its tree |
| Engine.FetchedOutcome | api/api.go:136-161 | once the manifest is in, the node holds the succeeding children's trees; it succeeds exactly when every dependency succeeds; every error a dependency may return, the node may return |
| Engine.ErrorsNotSuccess | api/api.go:117-131 | no error a resolution may return carries a 2xx status |
| Engine.FailureTraced | api/api.go:117-162 | every error a resolution may return was met by a node that a chain of fetched manifests leads to from the root, and that node's own step failed with it |
| Engine.TracedFailure | api/api.go:117-162 | conversely, every such failing node's error is one the root may return |
| Engine.FetchedStep | api/api.go:117-131 | when a node's own steps succeed, the metadata was fetched, the constraint parsed, the version is a highest compatible one, and the manifest at that version was fetched and gives the dependencies |
| Engine.PinnedStep | api/api.go:117-131 | the root of a pinned tree passes its own steps with its version and manifest |
| Engine.ResolvedPinned | api/api.go:117-162 | a successful resolution builds a pinned tree: each node's version is the highest compatible one, and its children are exactly its manifest's dependencies, each pinned under the constraint the manifest gives it |
| Engine.PinnedResolved | api/api.go:117-162 | a pinned tree is exactly what resolution builds, so the resolved tree is the only pinned tree |
| Engine.ChildrenResolved | api/api.go:136-161 | a node whose every dependency succeeds succeeds, with those subtrees as its children |
| Engine.Node.constructor | api/api.go:93 | a fresh node has the name, an empty version and no dependencies |
| Engine.Node.Value | api/api.go:82-86 | the tree `json.MarshalIndent` writes (api/api.go:104): the node's name and version with its children's trees |
| Engine.Node.EmptyValue | api/api.go:82-86 | a node without dependencies serialises as a leaf |
| Engine.Node.AddDependency | api/api.go:150-152 | inserting a resolved child keeps the node well formed, changes only its map, and adds the child's tree under its name |
| Engine.ResolveDependencies | api/api.go:117-162 | the node ends up holding exactly `Resolution`'s tree; no error is returned exactly when resolution succeeds; a returned error is one it may return |
| Engine.FetchSteps | api/api.go:118-131 | the first failing step's error is returned, with the version recorded once selection succeeded; otherwise the selected version is recorded and the manifest's dependencies are returned |
| Engine.ResolveChildren | api/api.go:132-161 | after the fan-out, the node's map holds exactly the dependencies that succeeded, with their trees; no error exactly when all succeeded; otherwise the error is one a dependency may return |
| Engine.ResolveFresh | api/api.go:140-141 | a fresh dependency node ends up holding its `Resolution` tree, with the error outcome as for `ResolveDependencies` |
| Engine.ResolveDependency | api/api.go:138-153 | one goroutine: on success the child's tree is added under its name; on failure the parent is unchanged |
| Handler.ErrorResponse | api/api.go:96-100 | an `*HTTPError` is sent as it is; any other error is sent as 500 "internal server error" |
| Handler.PackageHandler | api/api.go:88-115 | the status is 200 exactly when resolution succeeds, with the resolved tree as the body; otherwise the body is one error resolution may return, with its status; an unknown package (metadata 404) gives 404 `NotFound`; once the metadata is fetched, an unparsable constraint gives 404 `InvalidConstraint` |

## Left out

- HTTP, JSON encoding and decoding, the URL formats, `println` and the gorilla/mux router are not modelled. The registry's behaviour is a parameter, and replies are values (`Reply`, `Tree`) rather than bytes.
- Message texts are not modelled as strings. Each message is a constructor that carries its arguments. This includes the `": <nil>"` that `fmt.Sprintf` appends to the "no compatible versions" message, because `err` is `nil` there.
- The `json.MarshalIndent` failure branch of `packageHandler` (api/api.go:104-108) is left out: marshalling a tree of strings does not fail.
- `sendJSONError`'s fallback when the error itself cannot be marshalled is left out for the same reason.
- Concurrency is modelled only by its possible orders. The goroutines, `sync.WaitGroup` and `sync.Mutex` become a sequential loop in an unspecified order. Races between insertions into the shared map are not modelled; the mutex excludes them.
- Engine.ResolveDependencies: the set of errors `Resolution` gives is the set the service may return. The model proves that the returned error is in it. It does not prove that every member can be returned under some schedule.
- The semver library is abstract. Pre-release tags and build metadata are not modelled. Versions are (major, minor, patch), and `String()` renders them as `M.m.p`.
- `sort.Sort` on a `semver.Collection` is not modelled as an algorithm. Taking the last element after sorting is modelled as `Highest`, and `SortedLastIsHighest` shows the two agree.
- Engine.ResolveDependencies: requires a node with an empty version and no dependencies. Both callers (api/api.go:93 and 140) create such nodes.
- Engine.ResolveDependencies: requires `Bounded`, a ghost `rank` on (name, constraint) nodes that falls along every chain of manifests from the root. A registry where such a chain comes back to a node it passed makes the source recurse without end; the model does not describe that run. That a rank exists whenever every chain from the root is finite is not proved here.
- The registry is a function: repeated requests for the same package, or the same package and version, get the same answer. The source fetches again at every node without caching, and a live registry may answer a repeated request differently (a timeout once, say). The results that rely on a fixed answer are the description of non-terminating runs and the uniqueness of the resolved tree (`PinnedResolved`).
- Lexical.Join: states the empty case, the length and the leading part, not the full layout of separators.

## Findings

No defect was established. Two observations about the source:
- the "no compatible versions" message embeds `err`, which is `nil` at that point;
- the metadata-parse message reads "unable to pars".

Neither affects a status code.
