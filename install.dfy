/**
 * Install orchestration (`InstallAsync`): map each identity chosen by the resolver back to its
 * single discovered record, open the installed folder when the package is already in the depot,
 * and otherwise download and extract it; one reader per package, in resolver order.
 */
module Install {
  import opened Wrappers
  import opened Identity
  import opened Paths
  import opened DependencyDiscovery

  /** A handle on package content: an already-installed folder, or the reader of a fresh download. */
  datatype PackageReader = FolderReader(path: string) | DownloadReader(identity: PackageIdentity, source: nat)

  datatype InstallError =
    | NoSingleMatch(identity: PackageIdentity)   // `Enumerable.Single` finds no discovered record
    | DownloadFailed(identity: PackageIdentity)  // the transfer or the extraction throws

  /** The discovered set as a map: every record sits under its own identity's key. */
  predicate KeyedByIdentity(available: map<IdentityKey, DependencyRecord>) {
    forall k | k in available :: KeyOf(available[k].identity) == k
  }

  /**
   * The state an install run threads through: the depot's installed paths, the downloads made so
   * far, the readers collected so far, and the exception that stopped the run, if any.
   */
  datatype InstallState = InstallState(
    installed: map<IdentityKey, string>,
    downloads: seq<PackageIdentity>,
    readers: seq<PackageReader>,
    failure: Option<InstallError>)

  /**
   * One iteration of the install loop, for the resolved identity `pi`: it keeps every installed path
   * and every earlier download; it either adds exactly one reader or throws and changes nothing else.
   */
  function Step(resolver: PackagePathResolver, failing: set<IdentityKey>, available: map<IdentityKey, DependencyRecord>,
                st: InstallState, pi: PackageIdentity): (next: InstallState)
    ensures KeepsPaths(st.installed, next.installed)
    ensures |next.downloads| >= |st.downloads| && next.downloads[..|st.downloads|] == st.downloads
    ensures st.failure.None? && next.failure.Some? ==> next == st.(failure := next.failure)
    ensures next.failure.None? ==> |next.readers| == |st.readers| + 1 && next.readers[..|st.readers|] == st.readers
  {
    var k := KeyOf(pi);
    if k !in available then st.(failure := Some(NoSingleMatch(pi)))
    else
      var rec := available[k];
      if k in st.installed then st.(readers := st.readers + [FolderReader(st.installed[k])])
      else if k in failing then st.(failure := Some(DownloadFailed(rec.identity)))
      else st.(installed := st.installed[k := resolver.PackageDirectory(rec.identity)],
               downloads := st.downloads + [rec.identity],
               readers := st.readers + [DownloadReader(rec.identity, rec.source)])
  }

  /**
   * The install loop over the resolver's output, stopping at the first exception: a run that starts
   * after an exception does nothing; otherwise it adds at most one reader per resolved identity,
   * after the readers it started with, and exactly one per identity when nothing is thrown.
   */
  function Run(resolver: PackagePathResolver, failing: set<IdentityKey>, available: map<IdentityKey, DependencyRecord>,
               start: InstallState, resolved: seq<PackageIdentity>): (run: InstallState)
    ensures start.failure.Some? ==> run == start
    ensures |start.readers| <= |run.readers| <= |start.readers| + |resolved|
    ensures run.readers[..|start.readers|] == start.readers
    ensures run.failure.None? ==> |run.readers| == |start.readers| + |resolved|
    decreases |resolved|
  {
    if resolved == [] then start
    else
      var prev := Run(resolver, failing, available, start, resolved[..|resolved| - 1]);
      if prev.failure.Some? then prev else Step(resolver, failing, available, prev, resolved[|resolved| - 1])
  }

  /** A state before the loop starts: nothing collected, nothing thrown. */
  function Fresh(installed: map<IdentityKey, string>, downloads: seq<PackageIdentity>): InstallState {
    InstallState(installed, downloads, [], None)
  }

  /** Paths already in the depot stay as they are. */
  predicate KeepsPaths(before: map<IdentityKey, string>, after: map<IdentityKey, string>) {
    forall k | k in before :: k in after && after[k] == before[k]
  }

  /** The comparer keys of a list of identities. */
  function KeysOf(s: seq<PackageIdentity>): set<IdentityKey> {
    set i | 0 <= i < |s| :: KeyOf(s[i])
  }

  /** The comparer keys of the downloads from position `from` on. */
  function DownloadKeys(downloads: seq<PackageIdentity>, from: nat): set<IdentityKey> {
    set j | from <= j < |downloads| :: KeyOf(downloads[j])
  }

  /**
   * The reader for position `i` of the resolver's output: the existing folder when the package was
   * installed before the run; the folder of this run's earlier download when the identity came up
   * before; otherwise the reader of a fresh download of the discovered record from its source.
   */
  function ExpectedReader(resolver: PackagePathResolver, available: map<IdentityKey, DependencyRecord>,
                          installed: map<IdentityKey, string>, resolved: seq<PackageIdentity>, i: nat): PackageReader
    requires i < |resolved| && KeyOf(resolved[i]) in available
  {
    var k := KeyOf(resolved[i]);
    if k in installed then FolderReader(installed[k])
    else if k in KeysOf(resolved[..i]) then FolderReader(resolver.PackageDirectory(available[k].identity))
    else DownloadReader(available[k].identity, available[k].source)
  }

  /** Once the loop has thrown, later identities change nothing. */
  lemma {:induction false} RunStopsAtFailure(resolver: PackagePathResolver, failing: set<IdentityKey>,
                                             available: map<IdentityKey, DependencyRecord>, start: InstallState,
                                             resolved: seq<PackageIdentity>, n: nat)
    requires n <= |resolved|
    requires Run(resolver, failing, available, start, resolved[..n]).failure.Some?
    ensures Run(resolver, failing, available, start, resolved) == Run(resolver, failing, available, start, resolved[..n])
    decreases |resolved| - n
  {
    if n < |resolved| {
      var longer := resolved[..n + 1];
      assert longer[..|longer| - 1] == resolved[..n];
      RunStopsAtFailure(resolver, failing, available, start, resolved, n + 1);
    } else {
      assert resolved[..n] == resolved;
    }
  }

  /**
   * What a run guarantees: paths already installed are kept; every download is of an identity that
   * was not installed before, no identity is downloaded twice, and each download lands on its
   * canonical path; the readers are, in order, the expected reader of each resolved identity up to
   * any failure, one per resolved identity when nothing failed; the depot ends holding exactly the
   * packages it held plus those handled, and the new downloads are exactly the handled identities
   * that were not installed before.
   */
  lemma {:induction false} RunFacts(resolver: PackagePathResolver, failing: set<IdentityKey>,
                                    available: map<IdentityKey, DependencyRecord>,
                                    installed: map<IdentityKey, string>, downloads: seq<PackageIdentity>,
                                    resolved: seq<PackageIdentity>)
    requires KeyedByIdentity(available)
    ensures var run := Run(resolver, failing, available, Fresh(installed, downloads), resolved);
      && KeepsPaths(installed, run.installed)
      && |run.downloads| >= |downloads| && run.downloads[..|downloads|] == downloads
      && (forall j :: |downloads| <= j < |run.downloads| ==>
            KeyOf(run.downloads[j]) !in installed && KeyOf(run.downloads[j]) in run.installed &&
            run.installed[KeyOf(run.downloads[j])] == resolver.PackageDirectory(run.downloads[j]))
      && (forall i, j :: |downloads| <= i < j < |run.downloads| ==> KeyOf(run.downloads[i]) != KeyOf(run.downloads[j]))
      && ReadersExact(resolver, available, installed, |downloads|, resolved, run)
    decreases |resolved|
  {
    RunKeepsPaths(resolver, failing, available, installed, downloads, resolved);
    RunDownloadsFresh(resolver, failing, available, installed, downloads, resolved);
    RunReaders(resolver, failing, available, installed, downloads, resolved);
  }

  lemma {:induction false} RunKeepsPaths(resolver: PackagePathResolver, failing: set<IdentityKey>,
                                         available: map<IdentityKey, DependencyRecord>,
                                         installed: map<IdentityKey, string>, downloads: seq<PackageIdentity>,
                                         resolved: seq<PackageIdentity>)
    ensures var run := Run(resolver, failing, available, Fresh(installed, downloads), resolved);
      && KeepsPaths(installed, run.installed)
      && |run.downloads| >= |downloads| && run.downloads[..|downloads|] == downloads
    decreases |resolved|
  {
    if resolved != [] {
      var front := resolved[..|resolved| - 1];
      RunKeepsPaths(resolver, failing, available, installed, downloads, front);
      var prev := Run(resolver, failing, available, Fresh(installed, downloads), front);
      if prev.failure.None? {
        var run := Run(resolver, failing, available, Fresh(installed, downloads), resolved);
        assert run.downloads[..|prev.downloads|][..|downloads|] == run.downloads[..|downloads|];
      }
    }
  }

  /** Downloads made by a run: of uninstalled identities only, on their canonical folders, each once. */
  predicate FreshDownloads(resolver: PackagePathResolver, installed: map<IdentityKey, string>, from: nat, run: InstallState) {
    && (forall j :: from <= j < |run.downloads| ==>
          KeyOf(run.downloads[j]) !in installed && KeyOf(run.downloads[j]) in run.installed &&
          run.installed[KeyOf(run.downloads[j])] == resolver.PackageDirectory(run.downloads[j]))
    && (forall i, j :: from <= i < j < |run.downloads| ==> KeyOf(run.downloads[i]) != KeyOf(run.downloads[j]))
  }

  lemma {:induction false} RunDownloadsFresh(resolver: PackagePathResolver, failing: set<IdentityKey>,
                                             available: map<IdentityKey, DependencyRecord>,
                                             installed: map<IdentityKey, string>, downloads: seq<PackageIdentity>,
                                             resolved: seq<PackageIdentity>)
    requires KeyedByIdentity(available)
    ensures FreshDownloads(resolver, installed, |downloads|, Run(resolver, failing, available, Fresh(installed, downloads), resolved))
    decreases |resolved|
  {
    if resolved != [] {
      var front := resolved[..|resolved| - 1];
      RunDownloadsFresh(resolver, failing, available, installed, downloads, front);
      RunKeepsPaths(resolver, failing, available, installed, downloads, front);
      var prev := Run(resolver, failing, available, Fresh(installed, downloads), front);
      if prev.failure.None? {
        StepDownloadsFresh(resolver, failing, available, installed, |downloads|, prev, resolved[|resolved| - 1]);
      }
    }
  }

  /** One step keeps the downloads fresh. */
  lemma StepDownloadsFresh(resolver: PackagePathResolver, failing: set<IdentityKey>,
                           available: map<IdentityKey, DependencyRecord>, installed: map<IdentityKey, string>,
                           from: nat, prev: InstallState, pi: PackageIdentity)
    requires KeyedByIdentity(available)
    requires from <= |prev.downloads| && KeepsPaths(installed, prev.installed)
    requires FreshDownloads(resolver, installed, from, prev)
    ensures FreshDownloads(resolver, installed, from, Step(resolver, failing, available, prev, pi))
  {
    var k := KeyOf(pi);
    if k in available && k !in prev.installed && k !in failing {
      var next := Step(resolver, failing, available, prev, pi);
      var rec := available[k];
      assert KeyOf(rec.identity) == k;
      assert next.downloads == prev.downloads + [rec.identity];
      forall j | from <= j < |next.downloads|
        ensures KeyOf(next.downloads[j]) !in installed && KeyOf(next.downloads[j]) in next.installed
        ensures next.installed[KeyOf(next.downloads[j])] == resolver.PackageDirectory(next.downloads[j])
      {
        if j < |prev.downloads| {
          assert next.downloads[j] == prev.downloads[j];
        }
      }
      forall i, j | from <= i < j < |next.downloads|
        ensures KeyOf(next.downloads[i]) != KeyOf(next.downloads[j])
      {
        if j < |prev.downloads| {
          assert next.downloads[i] == prev.downloads[i] && next.downloads[j] == prev.downloads[j];
        } else {
          assert KeyOf(prev.downloads[i]) in prev.installed;
        }
      }
    }
  }

  /**
   * The readers and the final depot of a run, given the paths `installed` before it and the
   * number `from` of downloads made before it.
   */
  predicate ReadersExact(resolver: PackagePathResolver, available: map<IdentityKey, DependencyRecord>,
                         installed: map<IdentityKey, string>, from: nat, resolved: seq<PackageIdentity>, run: InstallState) {
    && |run.readers| <= |resolved|
    && (run.failure.None? ==> |run.readers| == |resolved|)
    && ReadersMatch(resolver, available, installed, resolved, run.readers)
    && DepotMatches(resolver, available, installed, from, resolved[..|run.readers|], run)
  }

  /** Each reader is the expected reader of its position. */
  predicate ReadersMatch(resolver: PackagePathResolver, available: map<IdentityKey, DependencyRecord>,
                         installed: map<IdentityKey, string>, resolved: seq<PackageIdentity>, readers: seq<PackageReader>)
    requires |readers| <= |resolved|
  {
    forall i :: 0 <= i < |readers| ==>
      KeyOf(resolved[i]) in available && readers[i] == ExpectedReader(resolver, available, installed, resolved, i)
  }

  /**
   * After handling `handled`, the depot holds the packages it held plus the handled ones, each new
   * one in the canonical folder of its record, and the new downloads are the handled identities
   * that were not installed before.
   */
  predicate DepotMatches(resolver: PackagePathResolver, available: map<IdentityKey, DependencyRecord>,
                         installed: map<IdentityKey, string>, from: nat, handled: seq<PackageIdentity>, run: InstallState) {
    && run.installed.Keys == installed.Keys + KeysOf(handled)
    && (forall k | k in run.installed && k !in installed ::
          k in available && run.installed[k] == resolver.PackageDirectory(available[k].identity))
    && DownloadKeys(run.downloads, from) == KeysOf(handled) - installed.Keys
  }

  lemma {:induction false} RunReaders(resolver: PackagePathResolver, failing: set<IdentityKey>,
                                      available: map<IdentityKey, DependencyRecord>,
                                      installed: map<IdentityKey, string>, downloads: seq<PackageIdentity>,
                                      resolved: seq<PackageIdentity>)
    requires KeyedByIdentity(available)
    ensures ReadersExact(resolver, available, installed, |downloads|, resolved,
                         Run(resolver, failing, available, Fresh(installed, downloads), resolved))
    decreases |resolved|
  {
    if resolved == [] {
      assert resolved[..0] == [];
    } else {
      var front := resolved[..|resolved| - 1];
      var pi := resolved[|resolved| - 1];
      assert front + [pi] == resolved;
      RunReaders(resolver, failing, available, installed, downloads, front);
      RunKeepsPaths(resolver, failing, available, installed, downloads, front);
      var prev := Run(resolver, failing, available, Fresh(installed, downloads), front);
      if prev.failure.None? {
        StepReaders(resolver, failing, available, installed, |downloads|, prev, front, pi);
      } else {
        ReadersExactExtend(resolver, available, installed, |downloads|, front, resolved, prev);
      }
    }
  }

  /** The expected reader of a position depends only on the identities up to it. */
  lemma ExpectedReaderPrefix(resolver: PackagePathResolver, available: map<IdentityKey, DependencyRecord>,
                             installed: map<IdentityKey, string>, front: seq<PackageIdentity>,
                             resolved: seq<PackageIdentity>, i: nat)
    requires |front| <= |resolved| && resolved[..|front|] == front
    requires i < |front| && KeyOf(front[i]) in available
    ensures KeyOf(resolved[i]) in available
    ensures ExpectedReader(resolver, available, installed, resolved, i) == ExpectedReader(resolver, available, installed, front, i)
  {
    assert resolved[i] == front[i];
    assert resolved[..i] == front[..i];
  }

  /** A run that stopped on a prefix reads the same way against the whole list. */
  lemma ReadersExactExtend(resolver: PackagePathResolver, available: map<IdentityKey, DependencyRecord>,
                           installed: map<IdentityKey, string>, from: nat, front: seq<PackageIdentity>,
                           resolved: seq<PackageIdentity>, run: InstallState)
    requires |front| <= |resolved| && resolved[..|front|] == front
    requires run.failure.Some? && ReadersExact(resolver, available, installed, from, front, run)
    ensures ReadersExact(resolver, available, installed, from, resolved, run)
  {
    forall i | 0 <= i < |run.readers|
      ensures KeyOf(resolved[i]) in available
      ensures run.readers[i] == ExpectedReader(resolver, available, installed, resolved, i)
    {
      ExpectedReaderPrefix(resolver, available, installed, front, resolved, i);
    }
    assert resolved[..|run.readers|] == front[..|run.readers|];
  }

  /** The keys of a list extended by one identity. */
  lemma KeysOfSnoc(s: seq<PackageIdentity>, x: PackageIdentity)
    ensures KeysOf(s + [x]) == KeysOf(s) + {KeyOf(x)}
  {
    var t := s + [x];
    assert forall i :: 0 <= i < |s| ==> t[i] == s[i];
    assert t[|s|] == x;
  }

  /** The download keys of a download list extended by one identity. */
  lemma DownloadKeysSnoc(d: seq<PackageIdentity>, from: nat, x: PackageIdentity)
    requires from <= |d|
    ensures DownloadKeys(d + [x], from) == DownloadKeys(d, from) + {KeyOf(x)}
  {
    var t := d + [x];
    assert forall j :: from <= j < |d| ==> t[j] == d[j];
    assert t[|d|] == x;
  }

  /** One step adds the expected reader of the identity it handles, or stops. */
  lemma StepReaders(resolver: PackagePathResolver, failing: set<IdentityKey>,
                    available: map<IdentityKey, DependencyRecord>, installed: map<IdentityKey, string>, from: nat,
                    prev: InstallState, front: seq<PackageIdentity>, pi: PackageIdentity)
    requires KeyedByIdentity(available)
    requires from <= |prev.downloads| && KeepsPaths(installed, prev.installed)
    requires prev.failure.None? && ReadersExact(resolver, available, installed, from, front, prev)
    ensures ReadersExact(resolver, available, installed, from, front + [pi], Step(resolver, failing, available, prev, pi))
  {
    var next := Step(resolver, failing, available, prev, pi);
    var resolved := front + [pi];
    assert resolved[..|front|] == front;
    var k := KeyOf(pi);
    if next.failure.Some? {
      ReadersExactExtend(resolver, available, installed, from, front, resolved, next);
    } else if k in prev.installed {
      StepReadersOpen(resolver, available, installed, from, prev, front, pi);
    } else {
      StepReadersDownload(resolver, available, installed, from, prev, front, pi);
    }
  }

  /** Readers collected for a prefix stay the expected readers when the list grows by one. */
  lemma ReadersPrefix(resolver: PackagePathResolver, available: map<IdentityKey, DependencyRecord>,
                      installed: map<IdentityKey, string>, front: seq<PackageIdentity>, pi: PackageIdentity,
                      readers: seq<PackageReader>, last: PackageReader)
    requires |readers| == |front| && ReadersMatch(resolver, available, installed, front, readers)
    requires KeyOf(pi) in available && last == ExpectedReader(resolver, available, installed, front + [pi], |front|)
    ensures ReadersMatch(resolver, available, installed, front + [pi], readers + [last])
  {
    var resolved := front + [pi];
    assert resolved[..|front|] == front;
    forall i | 0 <= i < |readers|
      ensures KeyOf(resolved[i]) in available
      ensures (readers + [last])[i] == ExpectedReader(resolver, available, installed, resolved, i)
    {
      ExpectedReaderPrefix(resolver, available, installed, front, resolved, i);
    }
    assert (readers + [last])[|readers|] == last;
  }

  /** A step that finds the package installed adds the reader of its folder. */
  lemma StepReadersOpen(resolver: PackagePathResolver, available: map<IdentityKey, DependencyRecord>,
                        installed: map<IdentityKey, string>, from: nat, prev: InstallState,
                        front: seq<PackageIdentity>, pi: PackageIdentity)
    requires KeyOf(pi) in available && KeyOf(pi) in prev.installed
    requires KeepsPaths(installed, prev.installed)
    requires prev.failure.None? && ReadersExact(resolver, available, installed, from, front, prev)
    ensures ReadersExact(resolver, available, installed, from, front + [pi],
                         prev.(readers := prev.readers + [FolderReader(prev.installed[KeyOf(pi)])]))
  {
    var resolved := front + [pi];
    var n := |front|;
    var next := prev.(readers := prev.readers + [FolderReader(prev.installed[KeyOf(pi)])]);
    assert front[..n] == front && resolved[..n + 1] == resolved;
    assert DepotMatches(resolver, available, installed, from, resolved, next) by {
      KeysOfSnoc(front, pi);
    }
    assert ReadersMatch(resolver, available, installed, resolved, next.readers) by {
      assert resolved[n] == pi && resolved[..n] == front;
      ReadersPrefix(resolver, available, installed, front, pi, prev.readers, FolderReader(prev.installed[KeyOf(pi)]));
    }
  }

  /** A step that downloads the package adds the download's reader and its canonical folder. */
  lemma StepReadersDownload(resolver: PackagePathResolver, available: map<IdentityKey, DependencyRecord>,
                            installed: map<IdentityKey, string>, from: nat, prev: InstallState,
                            front: seq<PackageIdentity>, pi: PackageIdentity)
    requires KeyedByIdentity(available)
    requires KeyOf(pi) in available && KeyOf(pi) !in prev.installed
    requires from <= |prev.downloads| && KeepsPaths(installed, prev.installed)
    requires prev.failure.None? && ReadersExact(resolver, available, installed, from, front, prev)
    ensures var rec := available[KeyOf(pi)];
      ReadersExact(resolver, available, installed, from, front + [pi],
                   prev.(installed := prev.installed[KeyOf(pi) := resolver.PackageDirectory(rec.identity)],
                         downloads := prev.downloads + [rec.identity],
                         readers := prev.readers + [DownloadReader(rec.identity, rec.source)]))
  {
    var resolved := front + [pi];
    var n := |front|;
    var k := KeyOf(pi);
    var rec := available[k];
    assert KeyOf(rec.identity) == k;
    assert front[..n] == front && resolved[..n + 1] == resolved && resolved[..n] == front;
    var next := prev.(installed := prev.installed[k := resolver.PackageDirectory(rec.identity)],
                      downloads := prev.downloads + [rec.identity],
                      readers := prev.readers + [DownloadReader(rec.identity, rec.source)]);
    assert k !in installed && k !in KeysOf(front);
    assert front[..n] == front && resolved[..n + 1] == resolved;
    assert DepotMatches(resolver, available, installed, from, resolved, next) by {
      DownloadStepDepot(resolver, available, installed, from, prev, front, pi);
    }
    assert ReadersMatch(resolver, available, installed, resolved, next.readers) by {
      assert resolved[n] == pi && resolved[..n] == front;
      ReadersPrefix(resolver, available, installed, front, pi, prev.readers, DownloadReader(rec.identity, rec.source));
    }
  }

  /** The depot after a download step: one more package, in its canonical folder, and one more download. */
  lemma DownloadStepDepot(resolver: PackagePathResolver, available: map<IdentityKey, DependencyRecord>,
                          installed: map<IdentityKey, string>, from: nat, prev: InstallState,
                          front: seq<PackageIdentity>, pi: PackageIdentity)
    requires KeyedByIdentity(available)
    requires KeyOf(pi) in available && KeyOf(pi) !in prev.installed
    requires from <= |prev.downloads| && KeepsPaths(installed, prev.installed)
    requires DepotMatches(resolver, available, installed, from, front, prev)
    ensures var rec := available[KeyOf(pi)];
      DepotMatches(resolver, available, installed, from, front + [pi],
                   prev.(installed := prev.installed[KeyOf(pi) := resolver.PackageDirectory(rec.identity)],
                         downloads := prev.downloads + [rec.identity]))
  {
    var k := KeyOf(pi);
    var rec := available[k];
    assert KeyOf(rec.identity) == k;
    KeysOfSnoc(front, pi);
    DownloadKeysSnoc(prev.downloads, from, rec.identity);
  }

  /**
   * Installing is idempotent: re-running the same resolved list against the depot a successful run
   * left behind downloads nothing, changes no path, and opens every package from its folder.
   */
  lemma {:induction false} InstallTwiceDownloadsNothing(resolver: PackagePathResolver, failing: set<IdentityKey>,
                                                        available: map<IdentityKey, DependencyRecord>,
                                                        installed: map<IdentityKey, string>, downloads: seq<PackageIdentity>,
                                                        resolved: seq<PackageIdentity>)
    requires KeyedByIdentity(available)
    requires Run(resolver, failing, available, Fresh(installed, downloads), resolved).failure.None?
    ensures var first := Run(resolver, failing, available, Fresh(installed, downloads), resolved);
      var second := Run(resolver, failing, available, Fresh(first.installed, first.downloads), resolved);
      && second.failure.None?
      && second.downloads == first.downloads
      && second.installed == first.installed
      && |second.readers| == |resolved|
      && (forall i :: 0 <= i < |resolved| ==>
            KeyOf(resolved[i]) in first.installed && second.readers[i] == FolderReader(first.installed[KeyOf(resolved[i])]))
  {
    var first := Run(resolver, failing, available, Fresh(installed, downloads), resolved);
    RunReaders(resolver, failing, available, installed, downloads, resolved);
    assert resolved[..|first.readers|] == resolved;
    assert forall i :: 0 <= i < |resolved| ==> KeyOf(resolved[i]) in KeysOf(resolved);
    AllInstalledNoDownload(resolver, failing, available, first.installed, first.downloads, resolved);
  }

  /** A run over identities that are all discovered and all installed touches nothing and opens folders. */
  lemma {:induction false} AllInstalledNoDownload(resolver: PackagePathResolver, failing: set<IdentityKey>,
                                                  available: map<IdentityKey, DependencyRecord>,
                                                  installed: map<IdentityKey, string>, downloads: seq<PackageIdentity>,
                                                  resolved: seq<PackageIdentity>)
    requires forall i :: 0 <= i < |resolved| ==> KeyOf(resolved[i]) in available && KeyOf(resolved[i]) in installed
    ensures var run := Run(resolver, failing, available, Fresh(installed, downloads), resolved);
      && run.failure.None? && run.downloads == downloads && run.installed == installed
      && |run.readers| == |resolved|
      && (forall i :: 0 <= i < |resolved| ==> run.readers[i] == FolderReader(installed[KeyOf(resolved[i])]))
    decreases |resolved|
  {
    if resolved != [] {
      var front := resolved[..|resolved| - 1];
      AllInstalledNoDownload(resolver, failing, available, installed, downloads, front);
    }
  }

  /** The position of the first resolved identity that discovery did not find, or `|resolved|` when there is none. */
  function FirstUndiscovered(available: map<IdentityKey, DependencyRecord>, resolved: seq<PackageIdentity>): (n: nat)
    ensures n <= |resolved|
    ensures forall i :: 0 <= i < n ==> KeyOf(resolved[i]) in available
    ensures n < |resolved| ==> KeyOf(resolved[n]) !in available
    decreases |resolved|
  {
    if resolved == [] || KeyOf(resolved[0]) !in available then 0
    else 1 + FirstUndiscovered(available, resolved[1..])
  }

  /** The first undiscovered position of a list extended by one identity. */
  lemma FirstUndiscoveredExtended(available: map<IdentityKey, DependencyRecord>, resolved: seq<PackageIdentity>)
    requires resolved != []
    ensures var front := resolved[..|resolved| - 1];
      var m := FirstUndiscovered(available, front);
      FirstUndiscovered(available, resolved) ==
        if m < |front| then m
        else if KeyOf(resolved[|front|]) in available then |resolved| else |front|
  {
    var front := resolved[..|resolved| - 1];
    var m := FirstUndiscovered(available, front);
    var f := FirstUndiscovered(available, resolved);
    if m < |front| {
      assert resolved[m] == front[m];
    }
  }

  /** A run that throws `NoSingleMatch` throws it for the first resolved identity that was not discovered. */
  lemma {:induction false} NoSingleMatchIsFirstUndiscovered(resolver: PackagePathResolver, failing: set<IdentityKey>,
                                                             available: map<IdentityKey, DependencyRecord>,
                                                             start: InstallState, resolved: seq<PackageIdentity>)
    requires start.failure.None?
    ensures var run := Run(resolver, failing, available, start, resolved);
      run.failure.Some? && run.failure.value.NoSingleMatch? ==>
        && FirstUndiscovered(available, resolved) < |resolved|
        && run.failure.value.identity == resolved[FirstUndiscovered(available, resolved)]
    decreases |resolved|
  {
    if resolved != [] {
      var front := resolved[..|resolved| - 1];
      NoSingleMatchIsFirstUndiscovered(resolver, failing, available, start, front);
      var prev := Run(resolver, failing, available, start, front);
      var run := Run(resolver, failing, available, start, resolved);
      if run.failure.Some? && run.failure.value.NoSingleMatch? {
        FirstUndiscoveredExtended(available, resolved);
        if prev.failure.None? {
          PrefixWithoutFailureDiscovered(resolver, failing, available, start, front);
        }
      }
    }
  }

  /** When discovery found every resolved identity, the only exception an install can throw is a failed download. */
  lemma OnlyDownloadsFailWhenAllDiscovered(resolver: PackagePathResolver, failing: set<IdentityKey>,
                                           available: map<IdentityKey, DependencyRecord>,
                                           start: InstallState, resolved: seq<PackageIdentity>)
    requires start.failure.None?
    requires forall i :: 0 <= i < |resolved| ==> KeyOf(resolved[i]) in available
    ensures var run := Run(resolver, failing, available, start, resolved);
      run.failure.None? || run.failure.value.DownloadFailed?
  {
    NoSingleMatchIsFirstUndiscovered(resolver, failing, available, start, resolved);
  }

  /** A run that has not thrown has only met discovered identities. */
  lemma {:induction false} PrefixWithoutFailureDiscovered(resolver: PackagePathResolver, failing: set<IdentityKey>,
                                                           available: map<IdentityKey, DependencyRecord>,
                                                           start: InstallState, resolved: seq<PackageIdentity>)
    requires start.failure.None?
    requires Run(resolver, failing, available, start, resolved).failure.None?
    ensures forall i :: 0 <= i < |resolved| ==> KeyOf(resolved[i]) in available
    decreases |resolved|
  {
    if resolved != [] {
      var front := resolved[..|resolved| - 1];
      PrefixWithoutFailureDiscovered(resolver, failing, available, start, front);
    }
  }

  /**
   * The depot the install loop works against: the path resolver's view of what is installed, and
   * the downloads performed. `failing` names the identities whose download or extraction throws.
   */
  class Depot {
    const resolver: PackagePathResolver
    const failing: set<IdentityKey>
    var installed: map<IdentityKey, string>
    var downloads: seq<PackageIdentity>

    constructor (resolver: PackagePathResolver, failing: set<IdentityKey>, installed: map<IdentityKey, string>)
      ensures this.resolver == resolver && this.failing == failing
      ensures this.installed == installed && downloads == []
    {
      this.resolver := resolver;
      this.failing := failing;
      this.installed := installed;
      downloads := [];
    }

    /** `PackagePathResolver.GetInstalledPath`: the package's folder when it is installed, otherwise null. */
    function GetInstalledPath(p: PackageIdentity): (r: Option<string>)
      reads this
      ensures r.Some? <==> KeyOf(p) in installed
      ensures r.Some? ==> r.value == installed[KeyOf(p)]
    {
      if KeyOf(p) in installed then Some(installed[KeyOf(p)]) else None
    }

    /** Download the package from its owning source and extract it into its canonical folder. */
    method DownloadAndExtract(rec: DependencyRecord) returns (r: Result<PackageReader, InstallError>)
      modifies this
      ensures KeyOf(rec.identity) in failing ==> r == Failure(DownloadFailed(rec.identity)) && unchanged(this)
      ensures KeyOf(rec.identity) !in failing ==>
        && r == Success(DownloadReader(rec.identity, rec.source))
        && installed == old(installed)[KeyOf(rec.identity) := resolver.PackageDirectory(rec.identity)]
        && downloads == old(downloads) + [rec.identity]
    {
      if KeyOf(rec.identity) in failing {
        return Failure(DownloadFailed(rec.identity));
      }
      installed := installed[KeyOf(rec.identity) := resolver.PackageDirectory(rec.identity)];
      downloads := downloads + [rec.identity];
      r := Success(DownloadReader(rec.identity, rec.source));
    }

    /**
     * `InstallAsync` after discovery and resolution: `resolved` is the resolver's output. The depot
     * ends in the state `Run` describes, and the result is its readers or the exception it stopped at.
     */
    method Install(available: map<IdentityKey, DependencyRecord>, resolved: seq<PackageIdentity>)
      returns (r: Result<seq<PackageReader>, InstallError>)
      requires KeyedByIdentity(available)
      modifies this
      ensures var run := Run(resolver, failing, available, Fresh(old(installed), old(downloads)), resolved);
        && installed == run.installed && downloads == run.downloads
        && r == (if run.failure.Some? then Failure(run.failure.value) else Success(run.readers))
    {
      ghost var start := Fresh(installed, downloads);
      var packageReaders: seq<PackageReader> := [];
      for i := 0 to |resolved|
        invariant Run(resolver, failing, available, start, resolved[..i]) == InstallState(installed, downloads, packageReaders, None)
      {
        var pi := resolved[i];
        assert resolved[..i + 1][..i] == resolved[..i];
        if KeyOf(pi) !in available {
          RunStopsAtFailure(resolver, failing, available, start, resolved, i + 1);
          return Failure(NoSingleMatch(pi));
        }
        var packageToExtract := available[KeyOf(pi)];
        var installedPath := GetInstalledPath(packageToExtract.identity);
        if installedPath.None? {
          var downloaded := DownloadAndExtract(packageToExtract);
          if downloaded.Failure? {
            RunStopsAtFailure(resolver, failing, available, start, resolved, i + 1);
            return Failure(downloaded.error);
          }
          packageReaders := packageReaders + [downloaded.value];
        } else {
          packageReaders := packageReaders + [FolderReader(installedPath.value)];
        }
      }
      assert resolved[..|resolved|] == resolved;
      r := Success(packageReaders);
    }

    /**
     * `InstallAsync(packageIdentity, targetFramework)`: discover the dependency records reachable from
     * the requested identity, let the resolver choose identities among them (`resolve` stands for the
     * NuGet package resolver), then run the install loop over its choice. `found` is the discovered set.
     */
    method InstallWithDependencies(root: PackageIdentity, repos: seq<Repository>,
                                   resolve: map<IdentityKey, DependencyRecord> -> seq<PackageIdentity>)
      returns (r: Result<seq<PackageReader>, InstallError>, ghost found: map<IdentityKey, DependencyRecord>)
      requires WellFormedRepositories(repos)
      modifies this
      ensures Settled(found, repos, root) && FirstRecordsOnly(found, repos) && Closed(found, repos)
      ensures forall k :: k in found <==> k in KnownKeys(repos) && Reachable(repos, KeyOf(root), k)
      ensures var run := Run(resolver, failing, found, Fresh(old(installed), old(downloads)), resolve(found));
        && installed == run.installed && downloads == run.downloads
        && r == (if run.failure.Some? then Failure(run.failure.value) else Success(run.readers))
    {
      var availablePackages := GetPackageDependencyInfos(root, repos);
      OneRecordPerIdentity(availablePackages, repos);
      r := Install(availablePackages, resolve(availablePackages));
      found := availablePackages;
    }
  }
}
