/**
  Version selection: turning a constraint string and a package's published
  versions into one concrete version (`highestCompatibleVersion`,
  `filterCompatibleVersions`), and the diagnostic list of versions an error
  carries when nothing matches (`GetVersionsAsString`).
*/
module Selection {
  import opened Wrappers
  import opened Lexical
  import opened Semver
  import opened Errors
  import opened Npm

  /** The diagnostic list names at most this many versions. */
  const MaxListed: nat := 10

  /** The first `limit` elements, or all of them when there are fewer (`versions[:10]`). */
  function Truncate(s: seq<string>, limit: nat): (r: seq<string>)
    ensures |r| == if |s| <= limit then |s| else limit
    ensures r == s[..|r|]
  {
    if |s| > limit then s[..limit] else s
  }

  /** The versions the diagnostic list names: the lexically smallest keys, ascending. */
  ghost function Listing(keys: set<string>): seq<string>
  {
    Truncate(SortedKeys(keys), MaxListed)
  }

  /** The diagnostic list holds at most ten keys, ascending, each smaller than every key it leaves out. */
  lemma ListingSmallest(keys: set<string>)
    ensures |Listing(keys)| == if |keys| <= MaxListed then |keys| else MaxListed
    ensures StrictlySorted(Listing(keys))
    ensures forall x | x in Listing(keys) :: x in keys
    ensures forall k, x | k in keys && k !in Listing(keys) && x in Listing(keys) :: Less(x, k)
    ensures |keys| <= MaxListed ==> forall k | k in keys :: k in Listing(keys)
    ensures keys == {} ==> Join(Listing(keys), ", ") == ""
  {
    var all := SortedKeys(keys);
    var l := Listing(keys);
    forall k, x | k in keys && k !in l && x in l
      ensures Less(x, k)
    {
      var j :| 0 <= j < |all| && all[j] == k;
      var i :| 0 <= i < |l| && l[i] == x;
      assert |all| > MaxListed && l == all[..MaxListed];
      assert j >= MaxListed && all[i] == x;
    }
  }

  /** `GetVersionsAsString`: the keys, sorted, cut to ten, joined with ", ". */
  method GetVersionsAsString(meta: PackageMeta) returns (r: string)
    ensures r == Join(Listing(meta.versions.Keys), ", ")
  {
    var versions: seq<string> := [];
    var rest := meta.versions.Keys;
    while rest != {}
      invariant rest <= meta.versions.Keys
      invariant Distinct(versions)
      invariant forall x :: x in versions <==> x in meta.versions.Keys && x !in rest
      decreases rest
    {
      var version :| version in rest;
      versions := versions + [version];
      rest := rest - {version};
    }
    SortEnumeration(versions, meta.versions.Keys);
    versions := SortStrings(versions);
    if |versions| > MaxListed {
      versions := versions[..MaxListed];
    }
    r := Join(versions, ", ");
  }

  /** A key parses as a version and that version satisfies the constraint. */
  ghost predicate Compatible(lib: Library, c: Constraint, key: string)
  {
    lib.newVersion(key).Some? && c(lib.newVersion(key).value)
  }

  /** The parsed versions of the compatible keys. */
  ghost function CompatibleVersions(lib: Library, c: Constraint, keys: set<string>): set<Version>
  {
    set k | k in keys && Compatible(lib, c, k) :: lib.newVersion(k).value
  }

  /**
    `filterCompatibleVersions`: one entry per compatible key, in the order
    the keys were visited (`from` records that order); keys that do not
    parse are skipped.
  */
  method FilterCompatibleVersions(lib: Library, c: Constraint, meta: PackageMeta)
    returns (compatible: seq<Version>, ghost from: seq<string>)
    ensures |from| == |compatible| && Distinct(from)
    ensures forall k :: k in from <==> k in meta.versions && Compatible(lib, c, k)
    ensures forall i | 0 <= i < |from| :: lib.newVersion(from[i]) == Some(compatible[i])
    ensures forall v :: v in compatible <==> v in CompatibleVersions(lib, c, meta.versions.Keys)
  {
    compatible, from := [], [];
    var rest := meta.versions.Keys;
    while rest != {}
      invariant rest <= meta.versions.Keys
      invariant |from| == |compatible| && Distinct(from)
      invariant forall k :: k in from <==> k in meta.versions && k !in rest && Compatible(lib, c, k)
      invariant forall i | 0 <= i < |from| :: lib.newVersion(from[i]) == Some(compatible[i])
      decreases rest
    {
      var version :| version in rest;
      rest := rest - {version};
      var semVer := lib.newVersion(version);
      if semVer.None? {
        continue;
      }
      if c(semVer.value) {
        compatible, from := compatible + [semVer.value], from + [version];
      }
    }
    forall v | v in CompatibleVersions(lib, c, meta.versions.Keys)
      ensures v in compatible
    {
      var k :| k in meta.versions && Compatible(lib, c, k) && lib.newVersion(k).value == v;
      var i :| 0 <= i < |from| && from[i] == k;
      assert compatible[i] == v;
    }
  }

  /**
    `s` is the canonical rendering of the version of some compatible key
    that no other compatible key's version exceeds.
  */
  ghost predicate IsHighestCompatible(lib: Library, c: Constraint, keys: set<string>, s: string)
  {
    exists k | k in keys && Compatible(lib, c, k) ::
      && s == ToString(lib.newVersion(k).value)
      && forall k' | k' in keys && Compatible(lib, c, k') :: Semver.LessEq(lib.newVersion(k').value, lib.newVersion(k).value)
  }

  /** What `highestCompatibleVersion` returns for a constraint string and the published version keys. */
  ghost function SelectVersion(lib: Library, constraintStr: string, keys: set<string>): (r: Result<string, HttpError>)
    // every failure is reported as not found
    ensures r.Err? ==> r.error.statusCode == StatusNotFound
    // an unparsable constraint fails, whatever the versions
    ensures lib.newConstraint(constraintStr).None? ==> r == Err(HttpError(404, InvalidConstraint(constraintStr)))
    // otherwise selection succeeds exactly when some key is compatible ...
    ensures lib.newConstraint(constraintStr).Some? ==>
              (r.Ok? <==> exists k | k in keys :: Compatible(lib, lib.newConstraint(constraintStr).value, k))
    // ... and then yields the highest compatible version, rendered canonically
    ensures r.Ok? ==> lib.newConstraint(constraintStr).Some?
                      && IsHighestCompatible(lib, lib.newConstraint(constraintStr).value, keys, r.value)
    // when nothing is compatible the error embeds the diagnostic list
    ensures r.Err? && lib.newConstraint(constraintStr).Some? ==>
              r.error.message == NoCompatibleVersions(Join(Listing(keys), ", "), constraintStr)
  {
    match lib.newConstraint(constraintStr)
    case None => Err(HttpError(StatusNotFound, InvalidConstraint(constraintStr)))
    case Some(c) =>
      var found := CompatibleVersions(lib, c, keys);
      assert forall k | k in keys && Compatible(lib, c, k) :: lib.newVersion(k).value in found;
      if found == {} then
        Err(HttpError(StatusNotFound, NoCompatibleVersions(Join(Listing(keys), ", "), constraintStr)))
      else
        var m := Maximum(found);
        var k :| k in keys && Compatible(lib, c, k) && lib.newVersion(k).value == m;
        assert IsHighestCompatible(lib, c, keys, ToString(m));
        Ok(ToString(m))
  }

  /** The converse: any highest compatible version is what selection returns, so selection is characterised. */
  lemma SelectionComplete(lib: Library, constraintStr: string, keys: set<string>, s: string)
    requires lib.newConstraint(constraintStr).Some?
    requires IsHighestCompatible(lib, lib.newConstraint(constraintStr).value, keys, s)
    ensures SelectVersion(lib, constraintStr, keys) == Ok(s)
  {
    var c := lib.newConstraint(constraintStr).value;
    var k :| k in keys && Compatible(lib, c, k) && s == ToString(lib.newVersion(k).value)
             && forall k' | k' in keys && Compatible(lib, c, k') :: Semver.LessEq(lib.newVersion(k').value, lib.newVersion(k).value);
    var found := CompatibleVersions(lib, c, keys);
    var w := lib.newVersion(k).value;
    assert w in found;
    MaximumUnique(found, w);
  }

  /** `highestCompatibleVersion`. */
  method HighestCompatibleVersion(lib: Library, constraintStr: string, versions: PackageMeta)
    returns (r: Result<string, HttpError>)
    ensures r == SelectVersion(lib, constraintStr, versions.versions.Keys)
  {
    var constraint := lib.newConstraint(constraintStr);
    if constraint.None? {
      return Err(HttpError(StatusNotFound, InvalidConstraint(constraintStr)));
    }
    var filtered;
    ghost var from;
    filtered, from := FilterCompatibleVersions(lib, constraint.value, versions);
    if |filtered| == 0 {
      var versionStr := GetVersionsAsString(versions);
      assert CompatibleVersions(lib, constraint.value, versions.versions.Keys) == {};
      return Err(HttpError(StatusNotFound, NoCompatibleVersions(versionStr, constraintStr)));
    }
    // sorting the collection and taking its last element picks the highest (SortedLastIsHighest)
    var highest := Highest(filtered);
    MaximumUnique(CompatibleVersions(lib, constraint.value, versions.versions.Keys), highest);
    r := Ok(ToString(highest));
  }
}
