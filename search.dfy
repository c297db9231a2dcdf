/**
 * Search aggregation (`SearchAsync`): the repositories are searched one after another, in
 * configuration order, and each repository's results are yielded as they come, unmerged and
 * without de-duplication. An exception from a repository ends the enumeration.
 */
module Search {
  import opened Wrappers
  import opened Identity

  /** One search hit as the repository reports it. */
  datatype SearchHit = SearchHit(identity: PackageIdentity, source: nat)

  /**
   * What each repository answers for the search term, filter, skip and take, in repository order:
   * its page of hits, or the exception (a protocol failure) its search resource throws.
   */
  type FeedAnswers = seq<Result<seq<SearchHit>, string>>

  /** The hits of pages, one page after another. */
  function Concat(pages: seq<seq<SearchHit>>): (hits: seq<SearchHit>)
    ensures forall h :: h in hits <==> exists i :: 0 <= i < |pages| && h in pages[i]
    decreases |pages|
  {
    if pages == [] then [] else Concat(pages[..|pages| - 1]) + pages[|pages| - 1]
  }

  /** The number of repositories that answer before the first one that throws. */
  function AnsweredPrefix(feeds: FeedAnswers): (n: nat)
    ensures n <= |feeds|
    ensures forall i :: 0 <= i < n ==> feeds[i].Success?
    ensures n < |feeds| ==> feeds[n].Failure?
    decreases |feeds|
  {
    if feeds == [] || feeds[0].Failure? then 0 else 1 + AnsweredPrefix(feeds[1..])
  }

  /** The pages of the repositories that answered before the first exception. */
  function Pages(feeds: FeedAnswers): (pages: seq<seq<SearchHit>>)
    ensures |pages| == AnsweredPrefix(feeds)
    ensures forall i :: 0 <= i < |pages| ==> pages[i] == feeds[i].value
  {
    seq(AnsweredPrefix(feeds), i requires 0 <= i < AnsweredPrefix(feeds) => feeds[i].value)
  }

  function TotalLength(pages: seq<seq<SearchHit>>): nat
    decreases |pages|
  {
    if pages == [] then 0 else TotalLength(pages[..|pages| - 1]) + |pages[|pages| - 1]|
  }

  /** The offset in the aggregate at which page `i` starts. */
  function Offset(pages: seq<seq<SearchHit>>, i: nat): nat
    requires i <= |pages|
  {
    TotalLength(pages[..i])
  }

  /** The aggregate is as long as all the pages together. */
  lemma {:induction false} ConcatLength(pages: seq<seq<SearchHit>>)
    ensures |Concat(pages)| == TotalLength(pages)
    decreases |pages|
  {
    if pages != [] {
      ConcatLength(pages[..|pages| - 1]);
    }
  }

  /**
   * The aggregate keeps every hit of every page, in repository order: hit `j` of page `i` sits at
   * the offset of page `i` plus `j`.
   */
  lemma {:induction false} ConcatLayout(pages: seq<seq<SearchHit>>, i: nat, j: nat)
    requires i < |pages| && j < |pages[i]|
    ensures Offset(pages, i) + j < |Concat(pages)|
    ensures Concat(pages)[Offset(pages, i) + j] == pages[i][j]
    decreases |pages|
  {
    var front := pages[..|pages| - 1];
    assert Concat(pages) == Concat(front) + pages[|pages| - 1];
    ConcatLength(front);
    if i < |front| {
      assert pages[..i] == front[..i];
      assert Offset(pages, i) == Offset(front, i);
      ConcatLayout(front, i, j);
    } else {
      assert pages[..i] == front;
    }
  }

  /** No de-duplication: the aggregate holds each hit as many times as the pages hold it altogether. */
  lemma {:induction false} ConcatKeepsDuplicates(pages: seq<seq<SearchHit>>)
    ensures multiset(Concat(pages)) == MultisetOfPages(pages)
    decreases |pages|
  {
    if pages != [] {
      ConcatKeepsDuplicates(pages[..|pages| - 1]);
    }
  }

  function MultisetOfPages(pages: seq<seq<SearchHit>>): multiset<SearchHit>
    decreases |pages|
  {
    if pages == [] then multiset{} else MultisetOfPages(pages[..|pages| - 1]) + multiset(pages[|pages| - 1])
  }

  /**
   * The nested enumeration: for each repository in order, yield each hit of its page. The result is
   * what was yielded and the exception that ended the enumeration early, if one did.
   */
  method SearchAll(feeds: FeedAnswers) returns (yielded: seq<SearchHit>, error: Option<string>)
    ensures yielded == Concat(Pages(feeds))
    ensures error.None? <==> AnsweredPrefix(feeds) == |feeds|
    ensures error.Some? ==> error.value == feeds[AnsweredPrefix(feeds)].error
  {
    yielded := [];
    for f := 0 to |feeds|
      invariant forall i :: 0 <= i < f ==> feeds[i].Success?
      invariant yielded == Concat(seq(f, i requires 0 <= i < f => feeds[i].value))
    {
      var answer := feeds[f];
      if answer.Failure? {
        PagesUpTo(feeds, f);
        return yielded, Some(answer.error);
      }
      ghost var done := seq(f, i requires 0 <= i < f => feeds[i].value);
      ghost var next := seq(f + 1, i requires 0 <= i < f + 1 => feeds[i].value);
      assert next[..f] == done;
      for j := 0 to |answer.value|
        invariant yielded == Concat(done) + answer.value[..j]
      {
        yielded := yielded + [answer.value[j]];
      }
      assert answer.value[..|answer.value|] == answer.value;
    }
    PagesUpTo(feeds, |feeds|);
    error := None;
  }

  lemma PagesUpTo(feeds: FeedAnswers, f: nat)
    requires f <= |feeds|
    requires forall i :: 0 <= i < f ==> feeds[i].Success?
    requires f == |feeds| || feeds[f].Failure?
    ensures Pages(feeds) == seq(f, i requires 0 <= i < f => feeds[i].value)
  {
    AnsweredPrefixIs(feeds, f);
  }

  lemma {:induction false} AnsweredPrefixIs(feeds: FeedAnswers, f: nat)
    requires f <= |feeds|
    requires forall i :: 0 <= i < f ==> feeds[i].Success?
    requires f == |feeds| || feeds[f].Failure?
    ensures AnsweredPrefix(feeds) == f
    decreases f
  {
    if f > 0 {
      AnsweredPrefixIs(feeds[1..], f - 1);
    }
  }
}
