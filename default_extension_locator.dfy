/**
 * The default extension locator: extension and credential-provider assemblies are looked for under
 * the directories listed in an environment variable (separated by ';') and then under a global
 * root below the local application-data folder.
 */
module ExtensionLocator {
  import opened Wrappers
  import opened Paths

  const ExtensionsPathVariable: string := "NUGET_EXTENSIONS_PATH"
  const CredentialProvidersPathVariable: string := "NUGET_CREDENTIALPROVIDERS_PATH"
  const PathListSeparator: char := ';'

  /** `char.IsWhiteSpace` on the Latin-1 range: tab to carriage return, space, next-line, no-break space. */
  predicate IsWhiteSpace(c: char) {
    '\t' <= c <= '\r' || c == ' ' || c == '\U{0085}' || c == '\U{00A0}'
  }

  /**
   * `string.IsNullOrWhiteSpace`: null and the empty string are blank; a string that starts or ends
   * with a character other than white space is not.
   */
  predicate IsNullOrWhiteSpace(value: Option<string>): (blank: bool)
    ensures value.None? || value == Some([]) ==> blank
    ensures value.Some? && value.value != [] && !IsWhiteSpace(value.value[0]) ==> !blank
    ensures value.Some? && value.value != [] && !IsWhiteSpace(value.value[|value.value| - 1]) ==> !blank
  {
    value.None? || forall i :: 0 <= i < |value.value| ==> IsWhiteSpace(value.value[i])
  }

  /** The index of the first separator in `s`, or `|s|` when there is none. */
  function SeparatorIndex(s: string): (n: nat)
    ensures n <= |s|
    ensures PathListSeparator !in s[..n]
    ensures n < |s| ==> s[n] == PathListSeparator
  {
    if s == [] then 0
    else if s[0] == PathListSeparator then 0
    else 1 + SeparatorIndex(s[1..])
  }

  /** `s.Split(';', StringSplitOptions.RemoveEmptyEntries)`. */
  function SplitPathList(s: string): (parts: seq<string>)
    ensures forall i :: 0 <= i < |parts| ==> parts[i] != [] && PathListSeparator !in parts[i]
    decreases |s|
  {
    if s == [] then []
    else
      var n := SeparatorIndex(s);
      var rest := if n < |s| then SplitPathList(s[n + 1..]) else [];
      if n == 0 then rest else [s[..n]] + rest
  }

  /** The entries joined with ';' between each two. */
  function JoinPathList(parts: seq<string>): string
    decreases |parts|
  {
    if parts == [] then []
    else if |parts| == 1 then parts[0]
    else parts[0] + [PathListSeparator] + JoinPathList(parts[1..])
  }

  /** The characters of `s` other than separators, in order. */
  function WithoutSeparators(s: string): string
    decreases |s|
  {
    if s == [] then []
    else (if s[0] == PathListSeparator then [] else [s[0]]) + WithoutSeparators(s[1..])
  }

  function ConcatParts(parts: seq<string>): string
    decreases |parts|
  {
    if parts == [] then [] else parts[0] + ConcatParts(parts[1..])
  }

  lemma {:induction false} WithoutSeparatorsAppend(a: string, b: string)
    ensures WithoutSeparators(a + b) == WithoutSeparators(a) + WithoutSeparators(b)
    decreases |a|
  {
    if a != [] {
      assert (a + b)[1..] == a[1..] + b;
      WithoutSeparatorsAppend(a[1..], b);
    } else {
      assert a + b == b;
    }
  }

  lemma {:induction false} WithoutSeparatorsOfFree(s: string)
    requires PathListSeparator !in s
    ensures WithoutSeparators(s) == s
    decreases |s|
  {
    if s != [] {
      WithoutSeparatorsOfFree(s[1..]);
    }
  }

  /**
   * Splitting loses nothing but separators and keeps the order: the entries, put back to back,
   * are the input with its separators removed.
   */
  lemma {:induction false} SplitKeepsContent(s: string)
    ensures ConcatParts(SplitPathList(s)) == WithoutSeparators(s)
    decreases |s|
  {
    if s != [] {
      var n := SeparatorIndex(s);
      WithoutSeparatorsAtFirstSeparator(s, n);
      if n < |s| {
        SplitKeepsContent(s[n + 1..]);
        if n > 0 {
          ConcatPartsCons(s[..n], SplitPathList(s[n + 1..]));
        }
      } else {
        ConcatPartsCons(s, []);
      }
    }
  }

  /** Without its separators, a list is its first entry followed by the rest without separators. */
  lemma WithoutSeparatorsAtFirstSeparator(s: string, n: nat)
    requires n <= |s| && PathListSeparator !in s[..n]
    requires n < |s| ==> s[n] == PathListSeparator
    ensures n < |s| ==> WithoutSeparators(s) == s[..n] + WithoutSeparators(s[n + 1..])
    ensures n == |s| ==> WithoutSeparators(s) == s
  {
    if n == |s| {
      assert s[..n] == s;
      WithoutSeparatorsOfFree(s);
    } else {
      var head, tail := s[..n], s[n..];
      assert s == head + tail;
      WithoutSeparatorsAppend(head, tail);
      WithoutSeparatorsOfFree(head);
      WithoutSeparatorsSkip(tail);
      assert tail[1..] == s[n + 1..];
    }
  }

  lemma WithoutSeparatorsSkip(s: string)
    requires s != [] && s[0] == PathListSeparator
    ensures WithoutSeparators(s) == WithoutSeparators(s[1..])
  {
  }

  lemma ConcatPartsCons(first: string, rest: seq<string>)
    ensures ConcatParts([first] + rest) == first + ConcatParts(rest)
  {
    assert ([first] + rest)[1..] == rest;
  }

  /** The separator position in a joined list is the end of its first entry. */
  lemma SeparatorIndexOfJoin(first: string, tail: string)
    requires PathListSeparator !in first
    ensures SeparatorIndex(first + [PathListSeparator] + tail) == |first|
    ensures SeparatorIndex(first) == |first|
  {
    SeparatorIndexOfFree(first + [PathListSeparator] + tail, |first|);
    SeparatorIndexOfFree(first, |first|);
  }

  lemma {:induction false} SeparatorIndexOfFree(s: string, n: nat)
    requires n <= |s| && PathListSeparator !in s[..n]
    requires n < |s| ==> s[n] == PathListSeparator
    ensures SeparatorIndex(s) == n
    decreases n
  {
    if n > 0 {
      assert s[1..][..n - 1] == s[..n][1..];
      SeparatorIndexOfFree(s[1..], n - 1);
    }
  }

  /** A list without separators is one entry, or none when it is empty. */
  lemma SplitWithoutSeparator(a: string)
    requires PathListSeparator !in a
    ensures SplitPathList(a) == if a == [] then [] else [a]
  {
    if a != [] {
      SeparatorIndexOfJoin(a, []);
      assert a[..|a|] == a;
    }
  }

  /**
   * Where entries end: the text before the first separator is the first entry, or no entry when it is
   * empty (a leading, doubled or trailing ';'), and the rest is split on its own. With
   * `SplitWithoutSeparator` this fixes the split of every string.
   */
  lemma SplitAtSeparator(a: string, b: string)
    requires PathListSeparator !in a
    ensures SplitPathList(a + [PathListSeparator] + b) == (if a == [] then [] else [a]) + SplitPathList(b)
  {
    var s := a + [PathListSeparator] + b;
    SeparatorIndexOfJoin(a, b);
    assert s[..|a|] == a;
    assert s[|a| + 1..] == b;
  }

  /** A trailing separator adds no entry. */
  lemma TrailingSeparatorDropped()
    ensures SplitPathList("a;b;") == ["a", "b"]
  {
    var b: string := "b";
    assert "a;b;" == "a" + [PathListSeparator] + (b + [PathListSeparator] + []);
    SplitAtSeparator("a", b + [PathListSeparator] + []);
    SplitAtSeparator(b, []);
  }

  /** Leading and doubled separators add no entry either. */
  lemma LeadingAndDoubledSeparatorsDropped()
    ensures SplitPathList(";x;;y") == ["x", "y"]
  {
    var x: string, y: string := "x", "y";
    var tail := x + [PathListSeparator] + ([] + [PathListSeparator] + y);
    assert ";x;;y" == [] + [PathListSeparator] + tail;
    SplitAtSeparator([], tail);
    SplitAtSeparator(x, [] + [PathListSeparator] + y);
    SplitAtSeparator([], y);
    SplitWithoutSeparator(y);
  }

  /**
   * Round trip: entries that are non-empty and free of ';' come back unchanged, in order, from
   * joining and splitting (whitespace-only entries included).
   */
  lemma {:induction false} SplitJoinRoundTrip(parts: seq<string>)
    requires forall i :: 0 <= i < |parts| ==> parts[i] != [] && PathListSeparator !in parts[i]
    ensures SplitPathList(JoinPathList(parts)) == parts
    decreases |parts|
  {
    if |parts| == 1 {
      SeparatorIndexOfJoin(parts[0], []);
      assert parts[0][..|parts[0]|] == parts[0];
    } else if |parts| > 1 {
      var s := JoinPathList(parts);
      var tail := JoinPathList(parts[1..]);
      SeparatorIndexOfJoin(parts[0], tail);
      assert s[..|parts[0]|] == parts[0];
      assert s[|parts[0]| + 1..] == tail;
      SplitJoinRoundTrip(parts[1..]);
      assert [parts[0]] + parts[1..] == parts;
    }
  }

  /**
   * `GetPathsFromEnviromentVariable`: no paths when the variable is unset, empty or white space;
   * otherwise the expanded value split on ';' with empty entries dropped. `expand` is the
   * environment's variable expansion.
   */
  function PathsFromVariable(value: Option<string>, expand: string -> string): (paths: seq<string>)
    ensures IsNullOrWhiteSpace(value) ==> paths == []
    ensures !IsNullOrWhiteSpace(value) ==> ConcatParts(paths) == WithoutSeparators(expand(value.value))
    ensures !IsNullOrWhiteSpace(value) ==> paths == SplitPathList(expand(value.value))
    ensures forall i :: 0 <= i < |paths| ==> paths[i] != [] && PathListSeparator !in paths[i]
  {
    if IsNullOrWhiteSpace(value) then []
    else
      SplitKeepsContent(expand(value.value));
      SplitPathList(expand(value.value))
  }

  /** A file-name pattern with one wildcard, `prefix*suffix`. */
  datatype FilePattern = FilePattern(prefix: string, suffix: string)

  const ExtensionPattern: FilePattern := FilePattern("", ".dll")
  const CredentialProviderPattern: FilePattern := FilePattern("CredentialProvider", ".exe")

  /** The last component of a path. */
  function FileName(path: string): string
    decreases |path|
  {
    if path == [] then []
    else if path[|path| - 1] == DirectorySeparator then []
    else FileName(path[..|path| - 1]) + [path[|path| - 1]]
  }

  predicate Matches(name: string, pattern: FilePattern) {
    |name| >= |pattern.prefix| + |pattern.suffix| &&
    name[..|pattern.prefix|] == pattern.prefix && name[|name| - |pattern.suffix|..] == pattern.suffix
  }

  /**
   * The search roots: the existing directories among the custom paths followed by the global root,
   * in that order and with repetitions kept.
   */
  function SearchRoots(globalRoot: string, customPaths: seq<string>, directories: set<string>): (roots: seq<string>)
    ensures roots == KeepExisting(customPaths, directories) + (if globalRoot in directories then [globalRoot] else [])
    ensures forall d :: d in roots <==> (d in customPaths || d == globalRoot) && d in directories
  {
    KeepExistingAppend(customPaths, [globalRoot], directories);
    assert KeepExisting([globalRoot], directories) == if globalRoot in directories then [globalRoot] else [];
    KeepExisting(customPaths + [globalRoot], directories)
  }

  /** `Where(Directory.Exists)`: the paths that are existing directories, as often as they are listed. */
  function KeepExisting(paths: seq<string>, directories: set<string>): (kept: seq<string>)
    ensures forall d :: d in kept <==> d in paths && d in directories
    ensures forall d :: multiset(kept)[d] == if d in directories then multiset(paths)[d] else 0
    decreases |paths|
  {
    if paths == [] then []
    else
      assert paths == [paths[0]] + paths[1..];
      (if paths[0] in directories then [paths[0]] else []) + KeepExisting(paths[1..], directories)
  }

  /** Filtering a concatenation filters each part and keeps their order. */
  lemma {:induction false} KeepExistingAppend(a: seq<string>, b: seq<string>, directories: set<string>)
    ensures KeepExisting(a + b, directories) == KeepExisting(a, directories) + KeepExisting(b, directories)
    decreases |a|
  {
    if a == [] {
      assert a + b == b;
    } else {
      assert (a + b)[1..] == a[1..] + b;
      KeepExistingAppend(a[1..], b, directories);
    }
  }

  /** The files below `dir` whose name matches `pattern`, in the order `listing` enumerates them. */
  function MatchingFiles(listing: seq<string>, pattern: FilePattern): (files: seq<string>)
    ensures forall f :: f in files <==> f in listing && Matches(FileName(f), pattern)
    ensures forall f :: multiset(files)[f] == if Matches(FileName(f), pattern) then multiset(listing)[f] else 0
    decreases |listing|
  {
    if listing == [] then []
    else
      assert listing == [listing[0]] + listing[1..];
      (if Matches(FileName(listing[0]), pattern) then [listing[0]] else []) + MatchingFiles(listing[1..], pattern)
  }

  /** Matching a concatenated listing matches each part and keeps their order. */
  lemma {:induction false} MatchingFilesAppend(a: seq<string>, b: seq<string>, pattern: FilePattern)
    ensures MatchingFiles(a + b, pattern) == MatchingFiles(a, pattern) + MatchingFiles(b, pattern)
    decreases |a|
  {
    if a == [] {
      assert a + b == b;
    } else {
      assert (a + b)[1..] == a[1..] + b;
      MatchingFilesAppend(a[1..], b, pattern);
    }
  }

  /**
   * `EnumerateAssemblies`: the matching files of each existing search root, root after root.
   * `listAll(d)` is the recursive enumeration of the files below directory `d`.
   */
  function EnumerateAssemblies(globalRoot: string, customPaths: seq<string>, pattern: FilePattern,
                               directories: set<string>, listAll: string -> seq<string>): (files: seq<string>)
    ensures forall f :: f in files <==>
      exists d :: d in SearchRoots(globalRoot, customPaths, directories) && f in listAll(d) && Matches(FileName(f), pattern)
  {
    AssembliesUnder(SearchRoots(globalRoot, customPaths, directories), pattern, listAll)
  }

  /**
   * The files under the existing custom paths, in the order the paths are listed, come before those
   * under the global root, which are searched last and only when it exists.
   */
  lemma CustomPathsFirst(globalRoot: string, customPaths: seq<string>, pattern: FilePattern,
                         directories: set<string>, listAll: string -> seq<string>)
    ensures EnumerateAssemblies(globalRoot, customPaths, pattern, directories, listAll) ==
      AssembliesUnder(KeepExisting(customPaths, directories), pattern, listAll) +
      (if globalRoot in directories then MatchingFiles(listAll(globalRoot), pattern) else [])
  {
    var custom := KeepExisting(customPaths, directories);
    var global := if globalRoot in directories then [globalRoot] else [];
    var globalFiles := if globalRoot in directories then MatchingFiles(listAll(globalRoot), pattern) else [];
    assert SearchRoots(globalRoot, customPaths, directories) == custom + global;
    AssembliesUnderAppend(custom, global, pattern, listAll);
    assert AssembliesUnder(global, pattern, listAll) == globalFiles by {
      if global != [] {
        assert global[1..] == [];
        assert AssembliesUnder(global, pattern, listAll) == MatchingFiles(listAll(globalRoot), pattern) + [];
      }
    }
  }

  /** The matching files under each root, root after root. */
  function AssembliesUnder(roots: seq<string>, pattern: FilePattern, listAll: string -> seq<string>): (files: seq<string>)
    ensures forall f :: f in files <==> exists d :: d in roots && f in listAll(d) && Matches(FileName(f), pattern)
    decreases |roots|
  {
    if roots == [] then []
    else MatchingFiles(listAll(roots[0]), pattern) + AssembliesUnder(roots[1..], pattern, listAll)
  }

  /** Searching a concatenation of root lists searches each and keeps their order. */
  lemma {:induction false} AssembliesUnderAppend(a: seq<string>, b: seq<string>, pattern: FilePattern,
                                                 listAll: string -> seq<string>)
    ensures AssembliesUnder(a + b, pattern, listAll) == AssembliesUnder(a, pattern, listAll) + AssembliesUnder(b, pattern, listAll)
    decreases |a|
  {
    if a == [] {
      assert a + b == b;
    } else {
      assert (a + b)[1..] == a[1..] + b;
      assert (a + b)[0] == a[0];
      AssembliesUnderAppend(a[1..], b, pattern, listAll);
    }
  }

  /** The prefix `Path.Combine` puts before a relative part: `base` ending in a separator, or nothing when it is empty. */
  function DirectoryPrefix(base: string): (prefix: string)
    ensures base == [] ==> prefix == []
    ensures base != [] ==> EndsInDirectorySeparator(prefix) && base <= prefix && |prefix| <= |base| + 1
  {
    if base == [] then [] else if EndsInDirectorySeparator(base) then base else base + [DirectorySeparator]
  }

  /**
   * `Path.Combine(base, first, second)` for two relative components, the first of which does not end
   * in a separator: the components are joined below `base` with one separator between each two.
   */
  lemma CombineBelow(base: string, first: string, second: string)
    requires first != [] && second != [] && !IsRooted(first) && !IsRooted(second)
    requires first[|first| - 1] != DirectorySeparator
    ensures Combine(Combine(base, first), second) == DirectoryPrefix(base) + first + [DirectorySeparator] + second
  {
    var mid := DirectoryPrefix(base) + first;
    assert Combine(base, first) == mid by {
      if base != [] && !EndsInDirectorySeparator(base) {
        assert mid == base + [DirectorySeparator] + first;
      }
    }
    assert !EndsInDirectorySeparator(mid) by {
      assert mid[|mid| - 1] == first[|first| - 1];
    }
    assert Combine(mid, second) == mid + [DirectorySeparator] + second;
  }

  /** `<local application data>/NuGet/Commands`. */
  function ExtensionsRootPath(localAppData: string): (root: string)
    ensures root == DirectoryPrefix(localAppData) + "NuGet" + [DirectorySeparator] + "Commands"
  {
    CombineBelow(localAppData, "NuGet", "Commands");
    Combine(Combine(localAppData, "NuGet"), "Commands")
  }

  /** `<local application data>/NuGet/CredentialProviders`. */
  function CredentialProvidersRootPath(localAppData: string): (root: string)
    ensures root == DirectoryPrefix(localAppData) + "NuGet" + [DirectorySeparator] + "CredentialProviders"
  {
    CombineBelow(localAppData, "NuGet", "CredentialProviders");
    Combine(Combine(localAppData, "NuGet"), "CredentialProviders")
  }

  /** The process environment the locator reads: variables, the application-data folder and the disk. */
  datatype Environment = Environment(
    variables: map<string, string>,
    expand: string -> string,
    localAppData: string,
    directories: set<string>,
    listAll: string -> seq<string>)

  function Variable(env: Environment, name: string): Option<string> {
    if name in env.variables then Some(env.variables[name]) else None
  }

  /** `FindExtensions`: `*.dll` files under the extension paths, then under `NuGet/Commands`. */
  function FindExtensions(env: Environment): (files: seq<string>)
    ensures forall f :: f in files <==> (Matches(FileName(f), ExtensionPattern) &&
      exists d :: d in SearchRoots(ExtensionsRootPath(env.localAppData),
        PathsFromVariable(Variable(env, ExtensionsPathVariable), env.expand), env.directories) && f in env.listAll(d))
  {
    EnumerateAssemblies(ExtensionsRootPath(env.localAppData),
      PathsFromVariable(Variable(env, ExtensionsPathVariable), env.expand), ExtensionPattern, env.directories, env.listAll)
  }

  /** `FindCredentialProviders`: `CredentialProvider*.exe` files under the provider paths, then under `NuGet/CredentialProviders`. */
  function FindCredentialProviders(env: Environment): (files: seq<string>)
    ensures forall f :: f in files <==> (Matches(FileName(f), CredentialProviderPattern) &&
      exists d :: d in SearchRoots(CredentialProvidersRootPath(env.localAppData),
        PathsFromVariable(Variable(env, CredentialProvidersPathVariable), env.expand), env.directories) && f in env.listAll(d))
  {
    EnumerateAssemblies(CredentialProvidersRootPath(env.localAppData),
      PathsFromVariable(Variable(env, CredentialProvidersPathVariable), env.expand), CredentialProviderPattern,
      env.directories, env.listAll)
  }

  /** The default locator; it has no state of its own. */
  class DefaultExtensionLocator {
    constructor () {}
  }

  /** The static `_instance` field behind `DefaultExtensionLocator.Instance`. */
  class LocatorSingleton {
    var instance: DefaultExtensionLocator?

    constructor ()
      ensures instance == null
    {
      instance := null;
    }

    /** `Instance => _instance ??= new DefaultExtensionLocator()`: created on first access, the same object after. */
    method Instance() returns (r: DefaultExtensionLocator)
      modifies this
      ensures old(instance) != null ==> r == old(instance)
      ensures old(instance) == null ==> fresh(r)
      ensures instance == r
    {
      if instance == null {
        instance := new DefaultExtensionLocator();
      }
      r := instance;
    }
  }

  /** Every access after the first returns the object the first access created. */
  method TwoAccessesShareTheInstance(singleton: LocatorSingleton) returns (first: DefaultExtensionLocator, second: DefaultExtensionLocator)
    modifies singleton
    ensures first == second
  {
    first := singleton.Instance();
    second := singleton.Instance();
  }
}
