/** Path helpers (with '/' as the directory separator) and the depot's package path layout. */
module Paths {
  import opened Wrappers
  import opened Identity

  const DirectorySeparator: char := '/'

  /** `Path.EndsInDirectorySeparator`. */
  predicate EndsInDirectorySeparator(path: string): (ends: bool)
    ensures ends <==> path != [] && path == path[..|path| - 1] + [DirectorySeparator]
  {
    |path| > 0 && path[|path| - 1] == DirectorySeparator
  }

  predicate IsRooted(path: string) {
    |path| > 0 && path[0] == DirectorySeparator
  }

  /**
   * `Path.Combine` of two parts: an empty second part gives the first, an empty first part or a
   * rooted second part gives the second; otherwise the parts are joined with exactly one separator
   * between them.
   */
  function Combine(first: string, second: string): (r: string)
    ensures second == [] ==> r == first
    ensures second != [] && (first == [] || IsRooted(second)) ==> r == second
    ensures second != [] && first != [] && !IsRooted(second) ==>
      && |first| + |second| <= |r| <= |first| + |second| + 1
      && r[..|first|] == first && r[|r| - |second|..] == second
      && EndsInDirectorySeparator(r[..|r| - |second|])
      && (EndsInDirectorySeparator(first) <==> |r| == |first| + |second|)
  {
    if second == [] then first
    else if IsRooted(second) || first == [] then second
    else if EndsInDirectorySeparator(first) then first + second
    else first + [DirectorySeparator] + second
  }

  /**
   * `path` is `dir` itself or lies somewhere below it: it continues `dir` after a separator, which
   * is `dir`'s own last character when `dir` already ends in one.
   */
  predicate IsWithin(path: string, dir: string) {
    || path == dir
    || (&& |path| > |dir| && path[..|dir|] == dir
        && (EndsInDirectorySeparator(dir) || path[|dir|] == DirectorySeparator))
  }

  /** The side-by-side folder name of a package: `<id>.<version>`, or the id alone without a version. */
  function FolderName(p: PackageIdentity): string {
    p.id + (if p.version.Some? then "." + p.version.value.text else "")
  }

  /** A package id as NuGet accepts it: non-empty and not starting with a separator. */
  predicate HasPlainId(p: PackageIdentity) {
    p.id != [] && !IsRooted(p.id)
  }

  /** The side-by-side package path resolver rooted at the depot: `Path.Combine(root, "<id>.<version>")`. */
  datatype PackagePathResolver = PackagePathResolver(rootDirectory: string) {
    /**
     * A package's folder: the root, one separator (none added when the root already ends in one),
     * then the folder name; it lies strictly below the root.
     */
    function PackageDirectory(p: PackageIdentity): (r: string)
      ensures rootDirectory != [] && HasPlainId(p) ==>
        && |r| == |rootDirectory| + |FolderName(p)| + (if EndsInDirectorySeparator(rootDirectory) then 0 else 1)
        && r[..|rootDirectory|] == rootDirectory
        && r[|r| - |FolderName(p)|..] == FolderName(p)
        && EndsInDirectorySeparator(r[..|r| - |FolderName(p)|])
        && IsWithin(r, rootDirectory) && r != rootDirectory
      ensures rootDirectory == [] ==> r == FolderName(p)
    {
      var name := FolderName(p);
      assert name[..|p.id|] == p.id;
      var r := Combine(rootDirectory, name);
      assert rootDirectory != [] && HasPlainId(p) && !EndsInDirectorySeparator(rootDirectory) ==>
        r[|rootDirectory|] == DirectorySeparator by {
        if rootDirectory != [] && HasPlainId(p) && !EndsInDirectorySeparator(rootDirectory) {
          assert r[..|r| - |name|] == rootDirectory + [DirectorySeparator];
        }
      }
      r
    }
  }

  /** A root given with a trailing separator gets no doubled separator: both spellings agree below it. */
  lemma TrailingSeparatorNotDoubled()
    ensures PackagePathResolver("/d/").PackageDirectory(PackageIdentity("a", Some(Version("1")))) == "/d/a.1"
    ensures PackagePathResolver("/d").PackageDirectory(PackageIdentity("a", Some(Version("1")))) == "/d/a.1"
  {
    var p := PackageIdentity("a", Some(Version("1")));
    assert FolderName(p) == "a.1";
    assert Combine("/d/", "a.1") == "/d/" + "a.1";
    assert Combine("/d", "a.1") == "/d" + [DirectorySeparator] + "a.1";
  }
}
