/** `ResearchAgent.find_related_papers`: keep the candidates whose similarity reaches the
    threshold, sort them by similarity, largest first, and return the top twenty. The
    similarity scores are inputs; the model treats them as ordered values. */
module Ranking {
  import opened Seqs
  import opened Sorting
  import opened Keywords

  /** A paper as `search_arxiv` builds it from a feed entry. */
  datatype Paper = Paper(
    title: string,
    abstractText: string,
    authors: seq<string>,
    url: string,
    published: string,
    arxivId: string,
    source: string)

  /** How many ranked papers are returned at most. */
  const MaxRelated: nat := 20

  /** How many results the arXiv search is asked for. */
  const SearchLimit: nat := 100

  /** Pairs each paper with its score, as the loop over `enumerate(similarities)` does. */
  function Scored(papers: seq<Paper>, scores: seq<int>): (r: seq<(Paper, int)>)
    requires |scores| == |papers|
    ensures |r| == |papers|
    ensures forall i :: 0 <= i < |r| ==> r[i] == (papers[i], scores[i])
  {
    seq(|papers|, i requires 0 <= i < |papers| => (papers[i], scores[i]))
  }

  /** The candidates whose score is at least the threshold, in their original order. */
  function AboveThreshold(candidates: seq<(Paper, int)>, threshold: int): (r: seq<(Paper, int)>)
    ensures forall i :: 0 <= i < |r| ==> r[i].1 >= threshold && r[i] in candidates
    ensures IsSubsequence(r, candidates)
  {
    if |candidates| == 0 then []
    else
      var rest := AboveThreshold(candidates[1..], threshold);
      if candidates[0].1 >= threshold then
        assert ([candidates[0]] + rest)[1..] == rest;
        [candidates[0]] + rest
      else
        SubsequenceOfSuffix(rest, candidates, 1);
        rest
  }

  /** The filter keeps, for each score that reaches the threshold, all candidates with that
      score in their original order, and none with a lower score. */
  lemma {:induction false} AboveThresholdWithKey(candidates: seq<(Paper, int)>, threshold: int, k: int)
    ensures WithKey(AboveThreshold(candidates, threshold), k) ==
      if k >= threshold then WithKey(candidates, k) else []
    decreases |candidates|
  {
    if |candidates| > 0 {
      var c := candidates[0];
      var rest := AboveThreshold(candidates[1..], threshold);
      AboveThresholdWithKey(candidates[1..], threshold, k);
      if c.1 >= threshold {
        assert ([c] + rest)[0] == c && ([c] + rest)[1..] == rest;
      }
    }
  }

  /** The threshold filter keeps every qualifying copy and drops every other one. */
  lemma {:induction false} AboveThresholdExact(candidates: seq<(Paper, int)>, threshold: int, x: (Paper, int))
    ensures multiset(AboveThreshold(candidates, threshold))[x]
      == if x.1 >= threshold then multiset(candidates)[x] else 0
    decreases |candidates|
  {
    if |candidates| > 0 {
      AboveThresholdExact(candidates[1..], threshold, x);
      assert candidates == [candidates[0]] + candidates[1..];
    }
  }

  /** The filter, sort and cut of `find_related_papers`, given the papers and one score per
      paper. */
  function RankCandidates(papers: seq<Paper>, scores: seq<int>, threshold: int): (r: seq<(Paper, int)>)
    requires |scores| == |papers|
    ensures |papers| == 0 ==> r == []
    ensures |r| <= MaxRelated
    ensures forall i :: 0 <= i < |r| ==> r[i].1 >= threshold
    ensures forall i :: 0 <= i < |r| ==> r[i] in Scored(papers, scores)
    ensures SortedDesc(r)
  {
    if |papers| == 0 then []
    else
      var candidates := Scored(papers, scores);
      var kept := AboveThreshold(candidates, threshold);
      var sorted := SortDesc(kept);
      SortDescMembers(kept);
      Take(sorted, MaxRelated)
  }

  /** The ranking is the first twenty entries of a stable descending sort of the candidates
      that reach the threshold, whichever way that sort is computed. */
  lemma RankIsTopOfStableSort(papers: seq<Paper>, scores: seq<int>, threshold: int, sorted: seq<(Paper, int)>)
    requires |scores| == |papers|
    requires IsStableSortDesc(AboveThreshold(Scored(papers, scores), threshold), sorted)
    ensures RankCandidates(papers, scores, threshold) == Take(sorted, MaxRelated)
  {
    var kept := AboveThreshold(Scored(papers, scores), threshold);
    SortDescIsStableSort(kept);
    forall k
      ensures WithKey(SortDesc(kept), k) == WithKey(sorted, k)
    {
      assert WithKey(SortDesc(kept), k) == WithKey(kept, k);
    }
    StableSortUnique(SortDesc(kept), sorted);
    if |papers| == 0 {
      assert kept == [];
      assert |sorted| == |multiset(sorted)| == 0;
    }
  }

  /** No candidate that reaches the threshold is dropped while a lower-scored one is kept,
      and the result is cut only when more than twenty candidates qualify. */
  lemma RankKeepsBest(papers: seq<Paper>, scores: seq<int>, threshold: int)
    requires |scores| == |papers|
    ensures var kept := AboveThreshold(Scored(papers, scores), threshold);
      var r := RankCandidates(papers, scores, threshold);
      && |r| == (if |kept| < MaxRelated then |kept| else MaxRelated)
      && multiset(r) <= multiset(kept)
      && forall x :: multiset(r)[x] < multiset(kept)[x] ==>
           forall i :: 0 <= i < |r| ==> r[i].1 >= x.1
  {
    var kept := AboveThreshold(Scored(papers, scores), threshold);
    if |papers| > 0 {
      TakeKeepsBest(SortDesc(kept), MaxRelated);
    }
  }

  /** Candidates with equal scores keep their original relative order: for every score, the
      ranked entries with that score are a prefix of the qualifying candidates with it, and so
      a prefix of the scored papers with it, in the order the search returned them. */
  lemma RankIsStable(papers: seq<Paper>, scores: seq<int>, threshold: int, k: int)
    requires |scores| == |papers|
    ensures WithKey(RankCandidates(papers, scores, threshold), k)
      <= WithKey(AboveThreshold(Scored(papers, scores), threshold), k)
    ensures WithKey(RankCandidates(papers, scores, threshold), k) <= WithKey(Scored(papers, scores), k)
  {
    var kept := AboveThreshold(Scored(papers, scores), threshold);
    if |papers| > 0 {
      TakeWithKey(SortDesc(kept), MaxRelated, k);
      SortDescStable(kept, k);
    }
    AboveThresholdWithKey(Scored(papers, scores), threshold, k);
  }

  /** The similarity of each paper's abstract to the input abstract, in the papers' order. */
  function Similarities(inputAbstract: string, papers: seq<Paper>, similarity: (string, string) -> int): (r: seq<int>)
    ensures |r| == |papers|
    ensures forall i :: 0 <= i < |papers| ==> r[i] == similarity(inputAbstract, papers[i].abstractText)
  {
    seq(|papers|, i requires 0 <= i < |papers| => similarity(inputAbstract, papers[i].abstractText))
  }

  /** `find_related_papers` with the arXiv search and the embedding similarity as parameters:
      the query is built from the keywords, every paper found is scored against the input
      abstract, and the scored papers are ranked. */
  function FindRelatedPapers(
    inputAbstract: string,
    search: (string, nat) -> seq<Paper>,
    similarity: (string, string) -> int,
    threshold: int): (r: seq<(Paper, int)>)
    ensures var papers := search(SearchQuery(inputAbstract), SearchLimit);
      r == RankCandidates(papers, Similarities(inputAbstract, papers, similarity), threshold)
    ensures var papers := search(SearchQuery(inputAbstract), SearchLimit);
      && (|papers| == 0 ==> r == [])
      && |r| <= MaxRelated
      && SortedDesc(r)
      && forall i :: 0 <= i < |r| ==>
           && r[i].0 in papers
           && r[i].1 == similarity(inputAbstract, r[i].0.abstractText)
           && r[i].1 >= threshold
  {
    var papers := search(SearchQuery(inputAbstract), SearchLimit);
    var scores := Similarities(inputAbstract, papers, similarity);
    var r := RankCandidates(papers, scores, threshold);
    assert forall i :: 0 <= i < |r| ==>
      r[i].0 in papers && r[i].1 == similarity(inputAbstract, r[i].0.abstractText) by {
      var c := Scored(papers, scores);
      forall i | 0 <= i < |r|
        ensures r[i].0 in papers && r[i].1 == similarity(inputAbstract, r[i].0.abstractText)
      {
        var j :| 0 <= j < |c| && c[j] == r[i];
      }
    }
    r
  }
}
