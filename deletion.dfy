/**
 * Removal of an installed package (`Delete` / `DeleteDirectory`): a missing folder is reported
 * as `false`; otherwise every attribute in the tree is reset to normal, then the tree is deleted
 * recursively, and only a failure of that delete is turned into `false`.
 */
module Deletion {
  import opened Wrappers
  import opened Paths

  /**
   * One file-system entry. `readOnly` is its attribute; `protected` means this process may not
   * change its attributes; `inUse` means another process holds it open, so it cannot be removed.
   */
  datatype Entry = Entry(isDirectory: bool, readOnly: bool, protected: bool, inUse: bool)

  /** The exception thrown when an attribute cannot be reset; it is not caught. */
  datatype IoError = AttributeAccessDenied(path: string)

  /** The entries strictly below `dir`: what `GetFileSystemInfos("*", AllDirectories)` lists. */
  function Descendants(entries: map<string, Entry>, dir: string): set<string> {
    set p | p in entries && IsWithin(p, dir) && p != dir
  }

  /** Two trees agree on every entry outside `dir`. */
  predicate SameOutside(before: map<string, Entry>, after: map<string, Entry>, dir: string) {
    && (forall p | p in before && !IsWithin(p, dir) :: p in after && after[p] == before[p])
    && (forall p | p in after && !IsWithin(p, dir) :: p in before)
  }

  /** `after` is `before` with some attributes under `dir` reset, and nothing else changed. */
  predicate OnlyAttributesReset(before: map<string, Entry>, after: map<string, Entry>, dir: string) {
    && after.Keys == before.Keys
    && (forall p | p in before :: after[p] == before[p] || (IsWithin(p, dir) && after[p] == before[p].(readOnly := false)))
  }

  /** Some entry in the tree rooted at `dir` has attributes this process may not change. */
  predicate AnyProtected(entries: map<string, Entry>, dir: string) {
    exists p :: p in entries && IsWithin(p, dir) && entries[p].protected
  }

  /** Some entry in the tree rooted at `dir` is held open by another process. */
  predicate AnyInUse(entries: map<string, Entry>, dir: string) {
    exists p :: p in entries && IsWithin(p, dir) && entries[p].inUse
  }

  /** Some entry in the tree rooted at `dir` stops a recursive delete: read-only or held open. */
  predicate AnyBlocking(entries: map<string, Entry>, dir: string) {
    exists p :: p in entries && IsWithin(p, dir) && (entries[p].readOnly || entries[p].inUse)
  }

  /**
   * The attribute pass so far: the directory and the descendants in `done` have had their read-only
   * attribute cleared, and none of them is protected; every other entry is as it was.
   */
  predicate ResetProgress(before: map<string, Entry>, entries: map<string, Entry>, dir: string, done: set<string>) {
    && entries.Keys == before.Keys
    && (forall p | p in before :: entries[p] == if p == dir || p in done then before[p].(readOnly := false) else before[p])
    && (forall p | p in before && (p == dir || p in done) :: !before[p].protected)
  }

  /** Clearing one more descendant that is not protected extends the pass. */
  lemma ResetStep(before: map<string, Entry>, entries: map<string, Entry>, after: map<string, Entry>,
                  dir: string, done: set<string>, info: string)
    requires info in Descendants(before, dir) && info !in done
    requires ResetProgress(before, entries, dir, done)
    requires !entries[info].protected && after == entries[info := entries[info].(readOnly := false)]
    ensures ResetProgress(before, after, dir, done + {info})
  {
    assert entries[info] == before[info];
  }

  /** A protected descendant stops the pass: the tree is protected, and only attributes below `dir` changed. */
  lemma ResetFailed(before: map<string, Entry>, entries: map<string, Entry>, dir: string, done: set<string>, info: string)
    requires info in Descendants(before, dir) && info !in done && done <= Descendants(before, dir)
    requires ResetProgress(before, entries, dir, done)
    requires entries[info].protected
    ensures AnyProtected(before, dir)
    ensures OnlyAttributesReset(before, entries, dir) && SameOutside(before, entries, dir)
  {
    assert entries[info] == before[info];
    assert IsWithin(dir, dir);
  }

  /**
   * A complete pass: nothing in the tree is protected, every entry in it has its read-only attribute
   * cleared, and the tree blocks a recursive delete exactly when something in it is held open.
   */
  lemma ResetComplete(before: map<string, Entry>, entries: map<string, Entry>, dir: string)
    requires dir in before
    requires ResetProgress(before, entries, dir, Descendants(before, dir))
    ensures !AnyProtected(before, dir)
    ensures entries == map p | p in before :: if IsWithin(p, dir) then before[p].(readOnly := false) else before[p]
    ensures AnyBlocking(entries, dir) <==> AnyInUse(before, dir)
    ensures SameOutside(before, entries, dir)
    ensures SameOutside(before, map p | p in entries && !IsWithin(p, dir) :: entries[p], dir)
  {
    assert forall p | p in before && IsWithin(p, dir) :: p == dir || p in Descendants(before, dir);
    if AnyBlocking(entries, dir) {
      var p :| p in entries && IsWithin(p, dir) && (entries[p].readOnly || entries[p].inUse);
      assert before[p].inUse;
    }
    if AnyInUse(before, dir) {
      var p :| p in before && IsWithin(p, dir) && before[p].inUse;
      assert entries[p].inUse;
    }
  }

  class FileTree {
    var entries: map<string, Entry>

    constructor (entries: map<string, Entry>)
      ensures this.entries == entries
    {
      this.entries := entries;
    }

    /** `Directory.Exists`: a null path is never an existing directory, and a plain file is not one either. */
    predicate DirectoryExists(path: Option<string>): (found: bool)
      reads this
      ensures path.None? ==> !found
      ensures found ==> path.Some? && path.value in entries
      ensures path.Some? && path.value in entries && !entries[path.value].isDirectory ==> !found
    {
      path.Some? && path.value in entries && entries[path.value].isDirectory
    }

    /** `Attributes = FileAttributes.Normal` on one entry; throws when the entry is protected. */
    method ResetAttributes(path: string) returns (r: Result<(), IoError>)
      requires path in entries
      modifies this
      ensures old(entries)[path].protected ==> r == Failure(AttributeAccessDenied(path)) && entries == old(entries)
      ensures !old(entries)[path].protected ==> r.Success? && entries == old(entries)[path := old(entries)[path].(readOnly := false)]
    {
      if entries[path].protected {
        return Failure(AttributeAccessDenied(path));
      }
      entries := entries[path := entries[path].(readOnly := false)];
      r := Success(());
    }

    /**
     * `Directory.Delete(recursive: true)`: it fails when anything in the tree is read-only or held
     * open, and otherwise removes the directory and everything below it.
     */
    method DeleteRecursive(dir: string) returns (deleted: bool)
      modifies this
      ensures deleted <==> !AnyBlocking(old(entries), dir)
      ensures deleted ==> entries == map p | p in old(entries) && !IsWithin(p, dir) :: old(entries)[p]
      ensures !deleted ==> entries == old(entries)
    {
      deleted := !AnyBlocking(entries, dir);
      if deleted {
        entries := map p | p in entries && !IsWithin(p, dir) :: entries[p];
      }
    }

    /**
     * `DeleteDirectory`: reset the attributes of the directory and of every entry below it (an
     * exception there escapes), then delete recursively, turning a failure of the delete into `false`.
     */
    method DeleteDirectory(dir: string) returns (r: Result<bool, IoError>)
      requires dir in entries
      modifies this
      ensures SameOutside(old(entries), entries, dir)
      ensures r.Failure? <==> AnyProtected(old(entries), dir)
      ensures r.Failure? ==> OnlyAttributesReset(old(entries), entries, dir)
      ensures r.Success? ==> (r.value <==> !AnyInUse(old(entries), dir))
      ensures r == Success(true) ==> forall p | p in entries :: !IsWithin(p, dir)
      ensures r == Success(false) ==> entries == map p | p in old(entries) :: if IsWithin(p, dir) then old(entries)[p].(readOnly := false) else old(entries)[p]
    {
      ghost var before := entries;
      var reset := ResetAttributes(dir);
      if reset.Failure? {
        assert IsWithin(dir, dir);
        return Failure(reset.error);
      }
      var infos := Descendants(entries, dir);
      var pending := infos;
      while pending != {}
        invariant pending <= infos == Descendants(before, dir)
        invariant ResetProgress(before, entries, dir, infos - pending)
        decreases pending
      {
        var info :| info in pending;
        ghost var done, prior := infos - pending, entries;
        reset := ResetAttributes(info);
        if reset.Failure? {
          ResetFailed(before, entries, dir, done, info);
          return Failure(reset.error);
        }
        ResetStep(before, prior, entries, dir, done, info);
        pending := pending - {info};
        assert infos - pending == done + {info};
      }
      ResetComplete(before, entries, dir);
      var deleted := DeleteRecursive(dir);
      r := Success(deleted);
    }

    /**
     * `Delete`: `packageDirectory` is what the path resolver reports for the identity (null when it is
     * not installed). A missing directory yields `false` and changes nothing.
     */
    method Delete(packageDirectory: Option<string>) returns (r: Result<bool, IoError>)
      modifies this
      ensures !old(DirectoryExists(packageDirectory)) ==> r == Success(false) && entries == old(entries)
      ensures old(DirectoryExists(packageDirectory)) ==>
        var dir := packageDirectory.value;
        && SameOutside(old(entries), entries, dir)
        && (r.Failure? <==> AnyProtected(old(entries), dir))
        && (r == Success(true) <==> !(AnyProtected(old(entries), dir) || AnyInUse(old(entries), dir)))
        && (r.Failure? ==> OnlyAttributesReset(old(entries), entries, dir))
        && (r == Success(true) ==> forall p | p in entries :: !IsWithin(p, dir))
        && (r == Success(true) ==> !DirectoryExists(packageDirectory))
        && (r == Success(false) ==>
              entries == map p | p in old(entries) :: if IsWithin(p, dir) then old(entries)[p].(readOnly := false) else old(entries)[p])
    {
      if !DirectoryExists(packageDirectory) {
        return Success(false);
      }
      r := DeleteDirectory(packageDirectory.value);
    }
  }
}
