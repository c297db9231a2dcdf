/**
 * Package identities as the package manager compares them: an identifier that is
 * compared without regard to letter case, and an exact version.
 */
module Identity {
  import opened Wrappers

  /** A package version in its normalised text form; versions are compared exactly. */
  datatype Version = Version(text: string)

  /**
   * A package identity. The version is optional: a dependency whose range has no
   * lower bound is probed with an identity that carries no version.
   */
  datatype PackageIdentity = PackageIdentity(id: string, version: Option<Version>)

  /** A range of acceptable versions; discovery only ever consults its lower bound. */
  datatype VersionRange = VersionRange(minVersion: Option<Version>, maxVersion: Option<Version>)

  /** One declared dependency of a package on another package id. */
  datatype Dependency = Dependency(id: string, range: VersionRange)

  /**
   * A dependency record as reported by one repository: the identity, its declared
   * dependencies for the target framework, and the index of the repository that reported it.
   */
  datatype DependencyRecord = DependencyRecord(identity: PackageIdentity, dependencies: seq<Dependency>, source: nat)

  /** The key under which the identity comparer treats identities as equal. */
  datatype IdentityKey = IdentityKey(foldedId: string, version: Option<Version>)

  /** Upper-case ASCII letters fold to lower case; every other character is kept. */
  function FoldChar(c: char): (r: char)
    ensures 'A' <= c <= 'Z' ==> r as int == c as int + 32
    ensures !('A' <= c <= 'Z') ==> r == c
    ensures !('A' <= r <= 'Z')
  {
    if 'A' <= c <= 'Z' then (c as int + 32) as char else c
  }

  /** The case-folded form of an identifier, character by character. */
  function FoldCase(s: string): (r: string)
    ensures |r| == |s|
    ensures forall i :: 0 <= i < |s| ==> r[i] == FoldChar(s[i])
  {
    if s == [] then [] else [FoldChar(s[0])] + FoldCase(s[1..])
  }

  /** Folding twice is folding once: the key of a key is the key. */
  lemma {:induction false} FoldCaseIdempotent(s: string)
    ensures FoldCase(FoldCase(s)) == FoldCase(s)
  {
    var once := FoldCase(s);
    forall i | 0 <= i < |s|
      ensures FoldCase(once)[i] == once[i]
    {
      assert !('A' <= once[i] <= 'Z');
    }
  }

  /** The comparer's key of an identity: the folded id and the exact version. */
  function KeyOf(p: PackageIdentity): (k: IdentityKey)
    ensures k.version == p.version && |k.foldedId| == |p.id|
    ensures forall i :: 0 <= i < |k.foldedId| ==> !('A' <= k.foldedId[i] <= 'Z')
  {
    IdentityKey(FoldCase(p.id), p.version)
  }

  /** The key of an identity whose id is already folded is that identity's own id and version. */
  lemma KeyOfKeyIsKey(p: PackageIdentity)
    ensures KeyOf(PackageIdentity(KeyOf(p).foldedId, p.version)) == KeyOf(p)
  {
    FoldCaseIdempotent(p.id);
  }

  /** Identity equality of the package identity comparer: case-insensitive id, exact version. */
  predicate SameIdentity(a: PackageIdentity, b: PackageIdentity): (same: bool)
    ensures a == b ==> same
    ensures same ==> a.version == b.version && |a.id| == |b.id|
    ensures same <==> (a.version == b.version && |a.id| == |b.id| &&
      forall i :: 0 <= i < |a.id| ==> FoldChar(a.id[i]) == FoldChar(b.id[i]))
  {
    KeyOf(a) == KeyOf(b)
  }

  /** Ids differing only in ASCII letter case denote the same identity; versions must agree exactly. */
  lemma SameIdentityIgnoresCase(a: PackageIdentity, b: PackageIdentity)
    requires |a.id| == |b.id|
    requires forall i :: 0 <= i < |a.id| ==> FoldChar(a.id[i]) == FoldChar(b.id[i])
    ensures SameIdentity(a, b) <==> a.version == b.version
  {
    assert FoldCase(a.id) == FoldCase(b.id);
  }

  /** The identity a dependency is probed with during discovery: its id at its range's minimum version. */
  function ProbeIdentity(d: Dependency): (p: PackageIdentity)
    ensures p.id == d.id && p.version == d.range.minVersion
  {
    PackageIdentity(d.id, d.range.minVersion)
  }
}
