/**
  The part of the semantic-versioning library the core relies on.  Parsing a
  version (`semver.NewVersion`) and a constraint (`semver.NewConstraint`) is
  library code and stays abstract: a `Library` value supplies both parsers.
  A parsed constraint is a predicate on versions (its `Check`).  Versions get a
  concrete order, major then minor then patch, and a concrete canonical
  rendering (`Version.String()`).
*/
module Semver {
  import opened Wrappers

  datatype Version = Version(major: nat, minor: nat, patch: nat)

  /** Precedence on versions without pre-release tags: major, then minor, then patch. */
  predicate LessEq(a: Version, b: Version)
  {
    || a.major < b.major
    || (a.major == b.major && (a.minor < b.minor || (a.minor == b.minor && a.patch <= b.patch)))
  }

  /** A parsed version constraint; applying it is `Constraints.Check`. */
  type Constraint = Version -> bool

  /** The two parsers of the library: `None` is the error return. */
  datatype Library = Library(newVersion: string -> Option<Version>, newConstraint: string -> Option<Constraint>)

  function Digit(d: nat): (c: char)
    requires d < 10
    ensures '0' <= c <= '9'
  {
    (48 + d) as char
  }

  ghost predicate AllDigits(s: string)
  {
    forall i | 0 <= i < |s| :: '0' <= s[i] <= '9'
  }

  /** Decimal rendering of a component, without leading zeros. */
  function DecimalString(n: nat): (s: string)
    ensures |s| > 0 && AllDigits(s)
    ensures n > 0 ==> s[0] != '0'
    decreases n
  {
    if n < 10 then [Digit(n)] else DecimalString(n / 10) + [Digit(n % 10)]
  }

  /** Reading decimal digits back; the inverse of `DecimalString`. */
  function DecimalValue(s: string): nat
    requires AllDigits(s)
  {
    if |s| == 0 then 0 else DecimalValue(s[..|s| - 1]) * 10 + (s[|s| - 1] as int - 48)
  }

  lemma {:induction false} DecimalRoundTrip(n: nat)
    ensures DecimalValue(DecimalString(n)) == n
    decreases n
  {
    var s := DecimalString(n);
    if n < 10 {
      assert s[..0] == [];
    } else {
      DecimalRoundTrip(n / 10);
      assert s[..|s| - 1] == DecimalString(n / 10);
    }
  }

  /** `Version.String()`: the canonical "major.minor.patch" text. */
  function ToString(v: Version): (s: string)
    ensures |s| >= 5
  {
    DecimalString(v.major) + "." + DecimalString(v.minor) + "." + DecimalString(v.patch)
  }

  lemma SplitAtFirstDot(x: string, y: string, x': string, y': string)
    requires AllDigits(x) && AllDigits(x')
    requires x + "." + y == x' + "." + y'
    ensures x == x' && y == y'
  {
    var s := x + "." + y;
    assert s[|x|] == '.' && s[|x'|] == '.';
    assert x == s[..|x|] == x';
    assert y == s[|x| + 1..] == y';
  }

  /** Distinct versions render differently, so a rendered version pins exactly one version. */
  lemma ToStringInjective(a: Version, b: Version)
    requires ToString(a) == ToString(b)
    ensures a == b
  {
    var a1, a2, a3 := DecimalString(a.major), DecimalString(a.minor), DecimalString(a.patch);
    var b1, b2, b3 := DecimalString(b.major), DecimalString(b.minor), DecimalString(b.patch);
    assert ToString(a) == a1 + "." + (a2 + "." + a3);
    assert ToString(b) == b1 + "." + (b2 + "." + b3);
    SplitAtFirstDot(a1, a2 + "." + a3, b1, b2 + "." + b3);
    SplitAtFirstDot(a2, a3, b2, b3);
    DecimalRoundTrip(a.major); DecimalRoundTrip(b.major);
    DecimalRoundTrip(a.minor); DecimalRoundTrip(b.minor);
    DecimalRoundTrip(a.patch); DecimalRoundTrip(b.patch);
  }

  /** The largest element of a non-empty collection. */
  function Highest(s: seq<Version>): (m: Version)
    requires |s| > 0
    ensures m in s
    ensures forall v | v in s :: LessEq(v, m)
  {
    if |s| == 1 then s[0]
    else
      var h := Highest(s[1..]);
      assert forall v | v in s :: v == s[0] || v in s[1..];
      if LessEq(s[0], h) then h else s[0]
  }

  ghost predicate Ascending(s: seq<Version>)
  {
    forall i, j | 0 <= i < j < |s| :: LessEq(s[i], s[j])
  }

  /**
    Sorting a collection in ascending order (`sort.Sort` on a
    `semver.Collection`) and taking its last element gives `Highest`.
  */
  lemma SortedLastIsHighest(s: seq<Version>, t: seq<Version>)
    requires |s| > 0 && multiset(s) == multiset(t) && Ascending(t)
    ensures |t| == |s| && t[|t| - 1] == Highest(s)
  {
    assert |t| == |multiset(t)| == |multiset(s)| == |s|;
    var h := Highest(s);
    assert h in multiset(t);
    var i :| 0 <= i < |t| && t[i] == h;
    var last := t[|t| - 1];
    assert last in multiset(s);
    assert LessEq(last, h);
    if i < |t| - 1 {
      assert LessEq(t[i], last);
    }
  }

  lemma {:induction false} MaximumExists(vs: set<Version>)
    requires vs != {}
    ensures exists m :: m in vs && forall v | v in vs :: LessEq(v, m)
    decreases |vs|
  {
    var x :| x in vs;
    if vs != {x} {
      MaximumExists(vs - {x});
      var m :| m in vs - {x} && forall v | v in vs - {x} :: LessEq(v, m);
      if !LessEq(x, m) {
        forall v | v in vs
          ensures LessEq(v, x)
        {
          if v != x {
            assert LessEq(v, m);
          }
        }
      }
    } else {
      assert forall v | v in vs :: LessEq(v, x);
    }
  }

  /** The largest element of a non-empty set of versions. */
  ghost function Maximum(vs: set<Version>): (m: Version)
    requires vs != {}
    ensures m in vs && forall v | v in vs :: LessEq(v, m)
  {
    MaximumExists(vs);
    var m :| m in vs && forall v | v in vs :: LessEq(v, m);
    m
  }

  /** The maximum is the only element that every element is below. */
  lemma MaximumUnique(vs: set<Version>, m: Version)
    requires m in vs && forall v | v in vs :: LessEq(v, m)
    ensures m == Maximum(vs)
  {
  }
}
