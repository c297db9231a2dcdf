/**
 * Recursive discovery of dependency records across every configured repository
 * (the `GetPackageDependencyInfosAsync` / `ResolveImpl` pair of the package manager).
 */
module DependencyDiscovery {
  import opened Wrappers
  import opened Identity

  /**
   * One repository's dependency-info resource for the fixed target framework:
   * the record it reports for an identity, if it knows the identity at all.
   */
  type Repository = map<IdentityKey, DependencyRecord>

  /** A repository answers with a record for the identity it was asked about, naming itself as source. */
  predicate WellFormedRepository(repo: Repository, index: nat) {
    forall k | k in repo :: KeyOf(repo[k].identity) == k && repo[k].source == index
  }

  predicate WellFormedRepositories(repos: seq<Repository>) {
    forall i | 0 <= i < |repos| :: WellFormedRepository(repos[i], i)
  }

  /** The index of the first repository, at or after `from`, that answers for `k`. */
  function FirstAnswerFrom(repos: seq<Repository>, k: IdentityKey, from: nat): (r: Option<nat>)
    requires from <= |repos|
    decreases |repos| - from
    ensures r.Some? ==> from <= r.value < |repos| && k in repos[r.value]
    ensures r.Some? ==> forall i :: from <= i < r.value ==> k !in repos[i]
    ensures r.None? ==> forall i :: from <= i < |repos| ==> k !in repos[i]
  {
    if from == |repos| then None
    else if k in repos[from] then Some(from)
    else FirstAnswerFrom(repos, k, from + 1)
  }

  /** The first repository, in configuration order, that answers for `k`; `None` when none does. */
  function FirstAnswer(repos: seq<Repository>, k: IdentityKey): (r: Option<nat>)
    ensures r.Some? ==> r.value < |repos| && k in repos[r.value]
    ensures r.Some? ==> forall i :: 0 <= i < r.value ==> k !in repos[i]
    ensures r.None? ==> forall i :: 0 <= i < |repos| ==> k !in repos[i]
  {
    FirstAnswerFrom(repos, k, 0)
  }

  /** Every identity any repository knows; the walk can only ever record these. */
  function KnownKeys(repos: seq<Repository>): set<IdentityKey> {
    set i, k | 0 <= i < |repos| && k in repos[i] :: k
  }

  /** Every recorded entry is the record of the first repository that knows its identity. */
  predicate FirstRecordsOnly(entries: map<IdentityKey, DependencyRecord>, repos: seq<Repository>) {
    forall k | k in entries :: FirstAnswer(repos, k).Some? && entries[k] == repos[FirstAnswer(repos, k).value][k]
  }

  /** Probing `p` is settled: it was recorded, or no repository knows it. */
  predicate Settled(entries: map<IdentityKey, DependencyRecord>, repos: seq<Repository>, p: PackageIdentity) {
    KeyOf(p) in entries || FirstAnswer(repos, KeyOf(p)).None?
  }

  /** The dependencies of the answers of repositories `0 .. n-1` for `k` are all settled. */
  predicate ExpandedUpTo(entries: map<IdentityKey, DependencyRecord>, repos: seq<Repository>, k: IdentityKey, n: nat)
    requires n <= |repos|
  {
    forall j, d | 0 <= j < n && k in repos[j] && d in repos[j][k].dependencies ::
      Settled(entries, repos, ProbeIdentity(d))
  }

  /** Every identity recorded outside `before` had the dependencies of every repository's answer settled. */
  predicate ExpandedSince(before: set<IdentityKey>, entries: map<IdentityKey, DependencyRecord>, repos: seq<Repository>) {
    forall k | k in entries && k !in before :: ExpandedUpTo(entries, repos, k, |repos|)
  }

  /** The whole set is closed under dependencies of every answer for every recorded identity. */
  predicate Closed(entries: map<IdentityKey, DependencyRecord>, repos: seq<Repository>) {
    forall k | k in entries :: ExpandedUpTo(entries, repos, k, |repos|)
  }

  /** The identities probed for the dependencies of any repository's answer for `k`: one step of the walk. */
  function Successors(repos: seq<Repository>, k: IdentityKey): set<IdentityKey> {
    set j, d | 0 <= j < |repos| && k in repos[j] && d in repos[j][k].dependencies :: KeyOf(ProbeIdentity(d))
  }

  /** Each identity of `path` is probed for a dependency of some repository's answer for the one before it. */
  predicate IsWalk(repos: seq<Repository>, path: seq<IdentityKey>)
    decreases |path|
  {
    |path| <= 1 || (path[1] in Successors(repos, path[0]) && IsWalk(repos, path[1..]))
  }

  /** Some walk leads from `from` to `to`. */
  ghost predicate Reachable(repos: seq<Repository>, from: IdentityKey, to: IdentityKey) {
    exists path :: IsWalk(repos, path) && |path| > 0 && path[0] == from && path[|path| - 1] == to
  }

  /** Every identity recorded outside `before` is reachable from `from`. */
  ghost predicate ReachedSince(before: set<IdentityKey>, entries: map<IdentityKey, DependencyRecord>,
                               repos: seq<Repository>, from: IdentityKey) {
    forall k | k in entries && k !in before :: Reachable(repos, from, k)
  }

  /** Entries are only ever added: an identity once recorded keeps its first record. */
  predicate KeepsEntries(before: map<IdentityKey, DependencyRecord>, after: map<IdentityKey, DependencyRecord>) {
    forall k | k in before :: k in after && after[k] == before[k]
  }

  /**
   * The set of dependency records, with the identity comparer: at most one record per
   * identity, and adding a record for an identity already present changes nothing.
   */
  class AvailablePackages {
    var entries: map<IdentityKey, DependencyRecord>

    constructor ()
      ensures entries == map[]
    {
      entries := map[];
    }

    predicate Contains(p: PackageIdentity)
      reads this
    {
      KeyOf(p) in entries
    }

    /** `HashSet.Add`: true when the identity was new; the first record for an identity is never replaced. */
    method Add(r: DependencyRecord) returns (added: bool)
      modifies this
      ensures added <==> KeyOf(r.identity) !in old(entries)
      ensures entries == if added then old(entries)[KeyOf(r.identity) := r] else old(entries)
    {
      added := KeyOf(r.identity) !in entries;
      if added {
        entries := entries[KeyOf(r.identity) := r];
      }
    }
  }

  /** A proper subset of a finite set is smaller. */
  lemma ProperSubsetSmaller<T>(a: set<T>, b: set<T>)
    requires a < b
    ensures |a| < |b|
  {
    var extra := b - a;
    assert b == a + extra;
    assert extra != {};
  }

  /** Recording a known identity that was not recorded yet shrinks what is left to record. */
  lemma MeasureDrops(repos: seq<Repository>, before: set<IdentityKey>, after: set<IdentityKey>, k: IdentityKey)
    requires before <= after && k in after && k !in before && k in KnownKeys(repos)
    ensures |KnownKeys(repos) - after| < |KnownKeys(repos) - before|
  {
    assert k in KnownKeys(repos) - before;
    assert KnownKeys(repos) - after < KnownKeys(repos) - before;
    ProperSubsetSmaller(KnownKeys(repos) - after, KnownKeys(repos) - before);
  }

  /** Recording more identities never enlarges what is left to record. */
  lemma MeasureKeeps(repos: seq<Repository>, before: set<IdentityKey>, after: set<IdentityKey>)
    requires before <= after
    ensures |KnownKeys(repos) - after| <= |KnownKeys(repos) - before|
  {
    var left, right := KnownKeys(repos) - after, KnownKeys(repos) - before;
    assert left <= right;
    assert right == left + (right - left);
  }

  /** Only identities some repository knows are ever recorded. */
  lemma RecordedAreKnown(entries: map<IdentityKey, DependencyRecord>, repos: seq<Repository>, k: IdentityKey)
    requires FirstRecordsOnly(entries, repos) && k in entries
    ensures k in KnownKeys(repos)
  {
    var j := FirstAnswer(repos, k).value;
    assert k in repos[j];
  }

  /** Settledness survives growth of the set. */
  lemma ExpandedGrows(before: map<IdentityKey, DependencyRecord>, after: map<IdentityKey, DependencyRecord>,
                      repos: seq<Repository>, k: IdentityKey, n: nat)
    requires n <= |repos| && KeepsEntries(before, after) && ExpandedUpTo(before, repos, k, n)
    ensures ExpandedUpTo(after, repos, k, n)
  {
    forall j, d | 0 <= j < n && k in repos[j] && d in repos[j][k].dependencies
      ensures Settled(after, repos, ProbeIdentity(d))
    {
      assert Settled(before, repos, ProbeIdentity(d));
    }
  }

  /** Expansion of later-recorded identities does not undo expansion of earlier ones. */
  lemma ExpandedSinceChains(a: set<IdentityKey>, b: map<IdentityKey, DependencyRecord>, c: map<IdentityKey, DependencyRecord>,
                            repos: seq<Repository>)
    requires KeepsEntries(b, c) && ExpandedSince(a, b, repos) && ExpandedSince(b.Keys, c, repos)
    ensures ExpandedSince(a, c, repos)
  {
    forall k | k in c && k !in a
      ensures ExpandedUpTo(c, repos, k, |repos|)
    {
      if k in b {
        ExpandedGrows(b, c, repos, k, |repos|);
      }
    }
  }

  /** Some repository before position `n` answers for `k`. */
  predicate AnsweredBefore(repos: seq<Repository>, k: IdentityKey, n: nat) {
    FirstAnswer(repos, k).Some? && FirstAnswer(repos, k).value < n
  }

  /**
   * `ResolveImpl`: return at once when the identity is already recorded; otherwise ask every
   * repository in order, record each answer (the set keeps the first) and expand the
   * dependencies of each answer. The measure is the number of known identities not yet
   * recorded: it is what makes the walk end on cyclic and diamond-shaped graphs.
   */
  method ResolveImpl(p: PackageIdentity, repos: seq<Repository>, available: AvailablePackages)
    requires WellFormedRepositories(repos)
    requires FirstRecordsOnly(available.entries, repos)
    modifies available
    decreases |KnownKeys(repos) - available.entries.Keys|, 1
    ensures FirstRecordsOnly(available.entries, repos)
    ensures KeepsEntries(old(available.entries), available.entries)
    ensures Settled(available.entries, repos, p)
    ensures ExpandedSince(old(available.entries).Keys, available.entries, repos)
    ensures ReachedSince(old(available.entries).Keys, available.entries, repos, KeyOf(p))
  {
    if available.Contains(p) {
      return;
    }
    ghost var start := available.entries;
    var key := KeyOf(p);
    for i := 0 to |repos|
      invariant FirstRecordsOnly(available.entries, repos)
      invariant KeepsEntries(start, available.entries)
      invariant key in available.entries <==> AnsweredBefore(repos, key, i)
      invariant ExpandedSince(start.Keys + {key}, available.entries, repos)
      invariant key in available.entries ==> ExpandedUpTo(available.entries, repos, key, i)
      invariant ReachedSince(start.Keys, available.entries, repos, key)
    {
      if key !in repos[i] {
        SkipStep(available.entries, repos, key, i);
        continue;
      }
      ghost var before := available.entries;
      var di := repos[i][key];
      RecordKeyed(repos, i, key);
      var _ := available.Add(di);
      ghost var afterAdd := available.entries;
      AddStep(start, before, afterAdd, repos, key, i);
      ReachSelf(repos, key);
      AnswerDependenciesAreSuccessors(repos, i, key);
      ExpandDependencies(di.dependencies, repos, available, |KnownKeys(repos) - start.Keys|, key);
      AnswerStep(start, afterAdd, available.entries, repos, key, i);
      ReachedSinceChains(start.Keys, afterAdd, available.entries, repos, key);
    }
    ResolveDone(start, available.entries, repos, key);
  }

  /** A repository answers for `k` with a record whose identity has key `k`. */
  lemma RecordKeyed(repos: seq<Repository>, i: nat, k: IdentityKey)
    requires WellFormedRepositories(repos) && i < |repos| && k in repos[i]
    ensures KeyOf(repos[i][k].identity) == k
  {
    assert WellFormedRepository(repos[i], i);
  }

  /** A repository that does not answer for `key` leaves the walk's progress as it was. */
  lemma SkipStep(entries: map<IdentityKey, DependencyRecord>, repos: seq<Repository>, key: IdentityKey, i: nat)
    requires i < |repos| && key !in repos[i]
    requires key in entries <==> AnsweredBefore(repos, key, i)
    requires key in entries ==> ExpandedUpTo(entries, repos, key, i)
    ensures key in entries <==> AnsweredBefore(repos, key, i + 1)
    ensures key in entries ==> ExpandedUpTo(entries, repos, key, i + 1)
  {
    if key in entries {
      ExpandedStep(entries, repos, key, i);
    }
  }

  /**
   * Recording repository `i`'s answer for `key` keeps only first records, leaves less to record, and
   * keeps the walk's progress.
   */
  lemma AddStep(start: map<IdentityKey, DependencyRecord>, before: map<IdentityKey, DependencyRecord>,
                after: map<IdentityKey, DependencyRecord>, repos: seq<Repository>, key: IdentityKey, i: nat)
    requires i < |repos| && key in repos[i] && key !in start
    requires FirstRecordsOnly(before, repos) && KeepsEntries(start, before)
    requires key in before <==> AnsweredBefore(repos, key, i)
    requires ExpandedSince(start.Keys + {key}, before, repos)
    requires key in before ==> ExpandedUpTo(before, repos, key, i)
    requires after == if key in before then before else before[key := repos[i][key]]
    ensures FirstRecordsOnly(after, repos) && KeepsEntries(start, after)
    ensures key in after && AnsweredBefore(repos, key, i + 1)
    ensures |KnownKeys(repos) - after.Keys| < |KnownKeys(repos) - start.Keys|
    ensures ExpandedSince(start.Keys + {key}, after, repos)
    ensures ExpandedUpTo(after, repos, key, i)
  {
    var first := FirstAnswer(repos, key);
    assert first.Some? && first.value <= i;
    if key !in before {
      assert first.value == i;
      FirstRecordAdded(before, repos, key, i);
      forall k | k in after && k !in start.Keys + {key}
        ensures ExpandedUpTo(after, repos, k, |repos|)
      {
        ExpandedGrows(before, after, repos, k, |repos|);
      }
      NothingBefore(after, repos, key, i);
    }
    assert key in KnownKeys(repos) by {
      assert key in repos[i];
    }
    MeasureDrops(repos, start.Keys, after.Keys, key);
  }

  lemma FirstRecordAdded(before: map<IdentityKey, DependencyRecord>, repos: seq<Repository>, key: IdentityKey, i: nat)
    requires i < |repos| && key in repos[i] && FirstAnswer(repos, key) == Some(i)
    requires FirstRecordsOnly(before, repos)
    ensures FirstRecordsOnly(before[key := repos[i][key]], repos)
  {
    var after := before[key := repos[i][key]];
    forall k | k in after
      ensures FirstAnswer(repos, k).Some? && after[k] == repos[FirstAnswer(repos, k).value][k]
    {
      if k != key {
        assert k in before;
      }
    }
  }

  /** When no repository before `i` answers for `key`, its expansion up to `i` is vacuous. */
  lemma NothingBefore(entries: map<IdentityKey, DependencyRecord>, repos: seq<Repository>, key: IdentityKey, i: nat)
    requires i <= |repos| && FirstAnswer(repos, key).Some? && FirstAnswer(repos, key).value == i
    ensures ExpandedUpTo(entries, repos, key, i)
  {
  }

  /**
   * After the answer of repository `i` for `key` is recorded and its dependencies are expanded, the
   * walk's progress covers repositories `0 .. i`.
   */
  lemma AnswerStep(start: map<IdentityKey, DependencyRecord>, afterAdd: map<IdentityKey, DependencyRecord>,
                   after: map<IdentityKey, DependencyRecord>, repos: seq<Repository>, key: IdentityKey, i: nat)
    requires i < |repos| && key in repos[i] && key in afterAdd
    requires KeepsEntries(start, afterAdd) && KeepsEntries(afterAdd, after)
    requires ExpandedSince(start.Keys + {key}, afterAdd, repos)
    requires ExpandedSince(afterAdd.Keys, after, repos)
    requires ExpandedUpTo(afterAdd, repos, key, i)
    requires forall d :: d in repos[i][key].dependencies ==> Settled(after, repos, ProbeIdentity(d))
    ensures KeepsEntries(start, after) && key in after
    ensures ExpandedSince(start.Keys + {key}, after, repos)
    ensures ExpandedUpTo(after, repos, key, i + 1)
  {
    ExpandedGrows(afterAdd, after, repos, key, i);
    ExpandedSinceChains(start.Keys + {key}, afterAdd, after, repos);
    ExpandedStep(after, repos, key, i);
  }

  /** The loop's progress over every repository gives `ResolveImpl`'s postcondition. */
  lemma ResolveDone(start: map<IdentityKey, DependencyRecord>, entries: map<IdentityKey, DependencyRecord>,
                    repos: seq<Repository>, key: IdentityKey)
    requires key !in start
    requires key in entries <==> AnsweredBefore(repos, key, |repos|)
    requires ExpandedSince(start.Keys + {key}, entries, repos)
    requires key in entries ==> ExpandedUpTo(entries, repos, key, |repos|)
    ensures key in entries || FirstAnswer(repos, key).None?
    ensures ExpandedSince(start.Keys, entries, repos)
  {
  }

  /** The inner `foreach` over one answer's dependencies, each probed at its range's minimum version. */
  method ExpandDependencies(deps: seq<Dependency>, repos: seq<Repository>, available: AvailablePackages, ghost bound: nat,
                            ghost from: IdentityKey)
    requires WellFormedRepositories(repos)
    requires FirstRecordsOnly(available.entries, repos)
    requires |KnownKeys(repos) - available.entries.Keys| < bound
    requires forall d :: d in deps ==> KeyOf(ProbeIdentity(d)) in Successors(repos, from)
    modifies available
    decreases bound, 0
    ensures FirstRecordsOnly(available.entries, repos)
    ensures KeepsEntries(old(available.entries), available.entries)
    ensures forall d :: d in deps ==> Settled(available.entries, repos, ProbeIdentity(d))
    ensures ExpandedSince(old(available.entries).Keys, available.entries, repos)
    ensures ReachedSince(old(available.entries).Keys, available.entries, repos, from)
  {
    ghost var start := available.entries;
    for t := 0 to |deps|
      invariant FirstRecordsOnly(available.entries, repos)
      invariant KeepsEntries(start, available.entries)
      invariant ExpandedSince(start.Keys, available.entries, repos)
      invariant forall s :: 0 <= s < t ==> Settled(available.entries, repos, ProbeIdentity(deps[s]))
      invariant |KnownKeys(repos) - available.entries.Keys| < bound
      invariant ReachedSince(start.Keys, available.entries, repos, from)
    {
      ghost var beforeCall := available.entries;
      ResolveImpl(ProbeIdentity(deps[t]), repos, available);
      ProbeStep(start, beforeCall, available.entries, repos, deps, t, bound);
      ReachedSincePrepend(beforeCall.Keys, available.entries, repos, from, KeyOf(ProbeIdentity(deps[t])));
      ReachedSinceChains(start.Keys, beforeCall, available.entries, repos, from);
    }
  }

  /** What one probe of a dependency adds to the progress of the dependency loop. */
  lemma ProbeStep(start: map<IdentityKey, DependencyRecord>, before: map<IdentityKey, DependencyRecord>,
                  after: map<IdentityKey, DependencyRecord>, repos: seq<Repository>, deps: seq<Dependency>, t: nat, bound: nat)
    requires t < |deps|
    requires KeepsEntries(start, before) && KeepsEntries(before, after)
    requires ExpandedSince(start.Keys, before, repos) && ExpandedSince(before.Keys, after, repos)
    requires forall s :: 0 <= s < t ==> Settled(before, repos, ProbeIdentity(deps[s]))
    requires Settled(after, repos, ProbeIdentity(deps[t]))
    requires |KnownKeys(repos) - before.Keys| < bound
    ensures KeepsEntries(start, after)
    ensures ExpandedSince(start.Keys, after, repos)
    ensures forall s :: 0 <= s < t + 1 ==> Settled(after, repos, ProbeIdentity(deps[s]))
    ensures |KnownKeys(repos) - after.Keys| < bound
  {
    ExpandedSinceChains(start.Keys, before, after, repos);
    MeasureKeeps(repos, before.Keys, after.Keys);
    SettledPrefixGrows(before, after, repos, deps, t);
  }

  /** The dependencies settled before a probe stay settled, and the probed one joins them. */
  lemma SettledPrefixGrows(before: map<IdentityKey, DependencyRecord>, after: map<IdentityKey, DependencyRecord>,
                           repos: seq<Repository>, deps: seq<Dependency>, t: nat)
    requires t < |deps| && KeepsEntries(before, after)
    requires forall s :: 0 <= s < t ==> Settled(before, repos, ProbeIdentity(deps[s]))
    requires Settled(after, repos, ProbeIdentity(deps[t]))
    ensures forall s :: 0 <= s < t + 1 ==> Settled(after, repos, ProbeIdentity(deps[s]))
  {
    forall s | 0 <= s < t + 1
      ensures Settled(after, repos, ProbeIdentity(deps[s]))
    {
      if s < t {
        assert Settled(before, repos, ProbeIdentity(deps[s]));
      }
    }
  }

  lemma ExpandedStep(entries: map<IdentityKey, DependencyRecord>, repos: seq<Repository>, k: IdentityKey, i: nat)
    requires i < |repos|
    requires ExpandedUpTo(entries, repos, k, i)
    requires k in repos[i] ==> forall d :: d in repos[i][k].dependencies ==> Settled(entries, repos, ProbeIdentity(d))
    ensures ExpandedUpTo(entries, repos, k, i + 1)
  {
  }

  /** An identity reaches itself by the walk of length one. */
  lemma ReachSelf(repos: seq<Repository>, k: IdentityKey)
    ensures Reachable(repos, k, k)
  {
    assert IsWalk(repos, [k]);
  }

  /** A step followed by a walk is a walk. */
  lemma ReachPrepend(repos: seq<Repository>, from: IdentityKey, mid: IdentityKey, to: IdentityKey)
    requires mid in Successors(repos, from) && Reachable(repos, mid, to)
    ensures Reachable(repos, from, to)
  {
    var path :| IsWalk(repos, path) && |path| > 0 && path[0] == mid && path[|path| - 1] == to;
    var longer := [from] + path;
    assert longer[1..] == path;
    assert IsWalk(repos, longer);
  }

  /** What a successor of `from` reaches, `from` reaches too. */
  lemma ReachedSincePrepend(before: set<IdentityKey>, entries: map<IdentityKey, DependencyRecord>,
                            repos: seq<Repository>, from: IdentityKey, mid: IdentityKey)
    requires mid in Successors(repos, from) && ReachedSince(before, entries, repos, mid)
    ensures ReachedSince(before, entries, repos, from)
  {
    forall k | k in entries && k !in before
      ensures Reachable(repos, from, k)
    {
      ReachPrepend(repos, from, mid, k);
    }
  }

  /** Reachability of the identities recorded in two consecutive stretches composes. */
  lemma ReachedSinceChains(a: set<IdentityKey>, b: map<IdentityKey, DependencyRecord>, c: map<IdentityKey, DependencyRecord>,
                           repos: seq<Repository>, from: IdentityKey)
    requires ReachedSince(a, b, repos, from) && ReachedSince(b.Keys, c, repos, from)
    ensures ReachedSince(a, c, repos, from)
  {
  }

  /** The probes of the dependencies of repository `i`'s answer for `k` are successors of `k`. */
  lemma AnswerDependenciesAreSuccessors(repos: seq<Repository>, i: nat, k: IdentityKey)
    requires i < |repos| && k in repos[i]
    ensures forall d :: d in repos[i][k].dependencies ==> KeyOf(ProbeIdentity(d)) in Successors(repos, k)
  {
    forall d | d in repos[i][k].dependencies
      ensures KeyOf(ProbeIdentity(d)) in Successors(repos, k)
    {
      assert 0 <= i < |repos| && k in repos[i] && d in repos[i][k].dependencies;
    }
  }

  /** An identity some repository knows has a first answering repository. */
  lemma KnownIsAnswered(repos: seq<Repository>, k: IdentityKey)
    requires k in KnownKeys(repos)
    ensures FirstAnswer(repos, k).Some?
  {
    var i :| 0 <= i < |repos| && k in repos[i];
  }

  /** An identity with a successor is known to some repository. */
  lemma SteppedFromIsKnown(repos: seq<Repository>, k: IdentityKey, next: IdentityKey)
    requires next in Successors(repos, k)
    ensures k in KnownKeys(repos)
  {
    var j, d :| 0 <= j < |repos| && k in repos[j] && d in repos[j][k].dependencies && KeyOf(ProbeIdentity(d)) == next;
  }

  /**
   * A set closed under the walk's steps holds the end of every walk that starts in it, as long
   * as some repository knows that end.
   */
  lemma {:induction false} ClosedHoldsWalk(found: map<IdentityKey, DependencyRecord>, repos: seq<Repository>,
                                           path: seq<IdentityKey>)
    requires Closed(found, repos) && IsWalk(repos, path) && |path| > 0
    requires path[0] in found && path[|path| - 1] in KnownKeys(repos)
    ensures path[|path| - 1] in found
    decreases |path|
  {
    if |path| > 1 {
      var j, d :| 0 <= j < |repos| && path[0] in repos[j] && d in repos[j][path[0]].dependencies
                  && KeyOf(ProbeIdentity(d)) == path[1];
      assert ExpandedUpTo(found, repos, path[0], |repos|);
      assert Settled(found, repos, ProbeIdentity(d));
      if |path| > 2 {
        SteppedFromIsKnown(repos, path[1], path[2]);
      }
      KnownIsAnswered(repos, path[1]);
      ClosedHoldsWalk(found, repos, path[1..]);
    }
  }

  /**
   * A closed set that holds the root (when it is known), only first records and only identities
   * reachable from the root is exactly the set of known identities reachable from the root.
   */
  lemma ReachableKnownExactly(found: map<IdentityKey, DependencyRecord>, repos: seq<Repository>, root: PackageIdentity)
    requires Settled(found, repos, root) && FirstRecordsOnly(found, repos) && Closed(found, repos)
    requires ReachedSince({}, found, repos, KeyOf(root))
    ensures forall k :: k in found <==> k in KnownKeys(repos) && Reachable(repos, KeyOf(root), k)
  {
    forall k | k in KnownKeys(repos) && Reachable(repos, KeyOf(root), k)
      ensures k in found
    {
      var path :| IsWalk(repos, path) && |path| > 0 && path[0] == KeyOf(root) && path[|path| - 1] == k;
      if |path| > 1 {
        SteppedFromIsKnown(repos, path[0], path[1]);
      }
      KnownIsAnswered(repos, KeyOf(root));
      ClosedHoldsWalk(found, repos, path);
    }
    forall k | k in found
      ensures k in KnownKeys(repos)
    {
      RecordedAreKnown(found, repos, k);
    }
  }

  /**
   * `GetPackageDependencyInfosAsync`: walk from the requested identity over an initially empty set.
   * The result records the root unless no repository knows it, holds for every identity the first
   * repository's record, and is closed under the dependencies of every repository's answer. Its
   * identities are exactly those that some repository knows and that the walk reaches from the root.
   */
  method GetPackageDependencyInfos(root: PackageIdentity, repos: seq<Repository>)
    returns (found: map<IdentityKey, DependencyRecord>)
    requires WellFormedRepositories(repos)
    ensures Settled(found, repos, root)
    ensures FirstRecordsOnly(found, repos)
    ensures Closed(found, repos)
    ensures forall k :: k in found <==> k in KnownKeys(repos) && Reachable(repos, KeyOf(root), k)
  {
    var available := new AvailablePackages();
    ResolveImpl(root, repos, available);
    found := available.entries;
    assert ExpandedSince({}, found, repos);
    ReachableKnownExactly(found, repos, root);
  }

  /**
   * The discovered set holds at most one record per identity: each record sits under its own
   * identity's key, so two records with equal identities are one entry.
   */
  lemma OneRecordPerIdentity(found: map<IdentityKey, DependencyRecord>, repos: seq<Repository>)
    requires WellFormedRepositories(repos) && FirstRecordsOnly(found, repos)
    ensures forall k | k in found :: KeyOf(found[k].identity) == k
    ensures forall k1, k2 | k1 in found && k2 in found && SameIdentity(found[k1].identity, found[k2].identity) :: k1 == k2
  {
    forall k | k in found
      ensures KeyOf(found[k].identity) == k
    {
      var j := FirstAnswer(repos, k).value;
      assert WellFormedRepository(repos[j], j);
    }
  }
}
