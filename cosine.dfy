/** `compute_cossim_for_webnovel` and `build_sims_cos` of
    backend/scratch.py: the query vector of one web novel, its cosine
    similarity with every fanfiction that shares a vocabulary word, the ten
    best of them, and the batch over all web novels. */
module Cosine {
  import opened Sums
  import opened Sorting
  import opened InvertedIndex
  import opened Norms
  import opened Scoring
  import opened Corpus

  /** The slice `[:10]`. */
  const TopK: nat := 10

  function Min(a: nat, b: nat): nat { if a <= b then a else b }

  // ---------------------------------------------------------------------
  // The query vector.

  /** The reference query vector: every distinct query word that has an IDF
      weight, with count 1. */
  function QueryCounts(toks: seq<string>, idf: map<string, real>): map<string, int>
  {
    map t | t in Terms(toks) && t in idf :: 1
  }

  /** Sum of the squared weights of `words`. */
  ghost function WeightsSq(idf: map<string, real>, words: set<string>): real
  {
    SetSum(words, t => if t in idf then TfIdfSq(1, idf[t]) else 0.0)
  }

  /** The squared norm of the query vector. */
  ghost function QueryNormSq(toks: seq<string>, idf: map<string, real>): real
  {
    WeightsSq(idf, QueryCounts(toks, idf).Keys)
  }

  lemma WeightsSqAdd(idf: map<string, real>, words: set<string>, t: string)
    requires t !in words && t in idf
    ensures WeightsSq(idf, words + {t}) == WeightsSq(idf, words) + TfIdfSq(1, idf[t])
  {
    SetSumAdd(words, t, u => if u in idf then TfIdfSq(1, idf[u]) else 0.0);
  }

  lemma {:induction false} DistinctCount(s: seq<string>, t: string)
    requires Distinct(s) && t in s
    ensures Count(s, t) == 1
  {
    assert s == [s[0]] + s[1..];
    if s[0] == t {
      assert t !in s[1..] by {
        forall i | 0 <= i < |s| - 1 ensures s[1..][i] != t {
          assert s[1..][i] == s[i + 1];
        }
      }
      CountPositive(s[1..], t);
    } else {
      DistinctCount(s[1..], t);
    }
  }

  /** `list(set(toks))`: the distinct tokens, in an unspecified order. */
  method Dedup(toks: seq<string>) returns (unique: seq<string>)
    ensures Distinct(unique)
    ensures forall t :: t in unique <==> t in toks
  {
    unique := [];
    var rest := Terms(toks);
    while rest != {}
      invariant rest <= Terms(toks)
      invariant forall t :: t in unique <==> t in Terms(toks) && t !in rest
      invariant Distinct(unique)
      decreases |rest|
    {
      var t :| t in rest;
      unique := unique + [t];
      rest := rest - {t};
    }
  }

  /** `Counter(s)`: each element of `s` with its number of occurrences. */
  function Counter(s: seq<string>): (m: map<string, int>)
    ensures forall t :: t in m <==> t in s
  {
    map t | t in s :: Count(s, t)
  }

  lemma DistinctCounter(s: seq<string>)
    requires Distinct(s)
    ensures forall t :: t in Counter(s) ==> Counter(s)[t] == 1
  {
    forall t | t in s ensures Count(s, t) == 1 {
      DistinctCount(s, t);
    }
  }

  /** Counts the distinct tokens, then walks them: a word with an IDF weight
      adds its squared weight to the norm, any other word is deleted from the
      counts. */
  method QueryVector(webnovelToks: seq<string>, fanficIdf: map<string, real>)
    returns (webnovelWordCounts: map<string, int>, norm: real)
    ensures webnovelWordCounts == QueryCounts(webnovelToks, fanficIdf)
    ensures norm == QueryNormSq(webnovelToks, fanficIdf)
  {
    var webnovelUniqueToks := Dedup(webnovelToks);
    webnovelWordCounts := Counter(webnovelUniqueToks);
    DistinctCounter(webnovelUniqueToks);
    norm := 0.0;
    ghost var all := Terms(webnovelUniqueToks);
    ghost var seen: set<string> := {};
    ghost var kept: set<string> := {};
    var k := 0;
    while k < |webnovelUniqueToks|
      invariant 0 <= k <= |webnovelUniqueToks|
      invariant seen == Terms(webnovelUniqueToks[..k])
      invariant webnovelWordCounts.Keys == all - (seen - fanficIdf.Keys)
      invariant forall t :: t in webnovelWordCounts ==> webnovelWordCounts[t] == 1
      invariant kept == seen * fanficIdf.Keys
      invariant norm == WeightsSq(fanficIdf, kept)
    {
      var term := webnovelUniqueToks[k];
      NextIsNew(webnovelUniqueToks, k);
      webnovelWordCounts, norm, kept := VectorStep(webnovelWordCounts, norm, term, fanficIdf, all, seen, kept);
      seen := seen + {term};
      k := k + 1;
    }
    assert webnovelUniqueToks[..k] == webnovelUniqueToks;
    QueryVectorOf(webnovelToks, webnovelUniqueToks, fanficIdf, webnovelWordCounts, seen, kept, norm);
  }

  /** One pass of the loop of `QueryVector`, on the next unseen word `term`:
      keep it and add its squared weight, or delete it. */
  method VectorStep(counts: map<string, int>, norm: real, term: string, idf: map<string, real>,
                    ghost all: set<string>, ghost seen: set<string>, ghost kept: set<string>)
    returns (counts': map<string, int>, norm': real, ghost kept': set<string>)
    requires term in all && term !in seen
    requires counts.Keys == all - (seen - idf.Keys)
    requires forall t :: t in counts ==> counts[t] == 1
    requires kept == seen * idf.Keys && norm == WeightsSq(idf, kept)
    ensures counts'.Keys == all - ((seen + {term}) - idf.Keys)
    ensures forall t :: t in counts' ==> counts'[t] == 1
    ensures kept' == (seen + {term}) * idf.Keys && norm' == WeightsSq(idf, kept')
  {
    counts', norm', kept' := counts, norm, kept;
    if term in idf && term in counts {
      var c := counts[term];
      WeightsSqAdd(idf, kept, term);
      norm' := norm + TfIdfSq(c, idf[term]);
      kept' := kept + {term};
    } else if term !in idf && term in counts {
      counts' := counts - {term};
    }
  }

  /** What the loop of `QueryVector` holds once every distinct token is seen. */
  lemma QueryVectorOf(toks: seq<string>, unique: seq<string>, idf: map<string, real>,
                      counts: map<string, int>, seen: set<string>, kept: set<string>, norm: real)
    requires (forall t :: t in unique <==> t in toks) && seen == Terms(unique)
    requires counts.Keys == Terms(unique) - (seen - idf.Keys)
    requires forall t :: t in counts ==> counts[t] == 1
    requires kept == seen * idf.Keys && norm == WeightsSq(idf, kept)
    ensures counts == QueryCounts(toks, idf)
    ensures norm == QueryNormSq(toks, idf)
  {
    assert Terms(unique) == Terms(toks);
    assert counts.Keys == Terms(toks) * idf.Keys;
    assert counts.Keys == QueryCounts(toks, idf).Keys;
  }

  /** In a list without repetitions, the next element has not been seen. */
  lemma NextIsNew(s: seq<string>, k: nat)
    requires Distinct(s) && k < |s|
    ensures s[..k + 1] == s[..k] + [s[k]]
    ensures s[k] !in Terms(s[..k]) && s[k] in Terms(s)
    ensures Terms(s[..k + 1]) == Terms(s[..k]) + {s[k]}
  {
    forall i | 0 <= i < k ensures s[..k][i] != s[k] {
      assert s[..k][i] == s[i];
    }
  }

  // ---------------------------------------------------------------------
  // The ranking.

  /** Whether document `d` has an entry in the list `(score, doc)`. */
  ghost predicate Listed(r: seq<(real, nat)>, d: nat)
  {
    exists i :: 0 <= i < |r| && r[i].1 == d
  }

  /** `r` is a top-ten list of the scores `cos`: as long as it can be, in
      non-increasing score order, each entry a document with its own score,
      no document twice, and no document left out scoring above one kept. */
  ghost predicate IsRanking(r: seq<(real, nat)>, cos: map<nat, real>)
  {
    && |r| == Min(TopK, |cos|)
    && (forall i, j :: 0 <= i < j < |r| ==> r[i].0 >= r[j].0)
    && (forall i :: 0 <= i < |r| ==> r[i].1 in cos && r[i].0 == cos[r[i].1])
    && (forall i, j :: 0 <= i < j < |r| ==> r[i].1 != r[j].1)
    && (forall d, i :: d in cos && !Listed(r, d) && 0 <= i < |r| ==> cos[d] <= r[i].0)
  }

  /** The key of `sorted(..., key=lambda x: x[0], reverse=True)`. */
  function NegScore(x: (real, nat)): real { -x.0 }

  /** Every query word with a weight is an index key, and its documents
      have norms. */
  ghost predicate QueryFits(toks: seq<string>, index: Index, idf: map<string, real>, norms: seq<real>)
  {
    forall t :: t in toks && t in idf ==>
      t in index && forall i :: 0 <= i < |index[t]| ==> index[t][i].doc < |norms|
  }

  /** The cosine similarity of the query vector `q`, of squared norm
      `qNormSq`, with every scored document: the dot product over the
      product of the two norms, the division and the square root being
      parameters. */
  ghost function Cosines(q: map<string, int>, qNormSq: real, index: Index, idf: map<string, real>,
                         norms: seq<real>, sqrt: real -> real, div: (real, real) -> real): map<nat, real>
  {
    map d: nat | d in ScoredDocs(q, index) ::
      div(DotScore(q, index, idf, d), NormProduct(sqrt(qNormSq), norms, d))
  }

  /** The query's norm times document `d`'s entry of `norms`. */
  function NormProduct(qNorm: real, norms: seq<real>, d: nat): real
  {
    qNorm * (if d < |norms| then norms[d] else 0.0)
  }

  lemma CosinesAt(q: map<string, int>, qNormSq: real, index: Index, idf: map<string, real>,
                  norms: seq<real>, sqrt: real -> real, div: (real, real) -> real, d: nat)
    requires d in ScoredDocs(q, index) && d < |norms|
    ensures d in Cosines(q, qNormSq, index, idf, norms, sqrt, div)
    ensures Cosines(q, qNormSq, index, idf, norms, sqrt, div)[d] ==
      div(DotScore(q, index, idf, d), sqrt(qNormSq) * norms[d])
  {
    assert NormProduct(sqrt(qNormSq), norms, d) == sqrt(qNormSq) * norms[d];
  }

  /** The cosine scores of the query `toks`. */
  ghost function CosineScores(toks: seq<string>, index: Index, idf: map<string, real>, norms: seq<real>,
                              sqrt: real -> real, div: (real, real) -> real): map<nat, real>
  {
    Cosines(QueryCounts(toks, idf), QueryNormSq(toks, idf), index, idf, norms, sqrt, div)
  }

  /** The entries of `cs` are the documents of `cos`, once each, with
      their scores. */
  ghost predicate AllScores(cs: seq<(real, nat)>, cos: map<nat, real>)
  {
    && (forall i :: 0 <= i < |cs| ==> cs[i].1 in cos && cs[i].0 == cos[cs[i].1])
    && (forall i, j :: 0 <= i < j < |cs| ==> cs[i].1 != cs[j].1)
    && (forall d :: d in cos ==> Listed(cs, d))
    && |cs| == |cos|
  }

  /** Sorting the list of all scores and keeping its first ten entries ranks
      them. */
  lemma TopRanking(cs: seq<(real, nat)>, cos: map<nat, real>)
    requires AllScores(cs, cos)
    ensures IsRanking(SortBy(cs, NegScore)[..Min(TopK, |cs|)], cos)
  {
    var r := SortBy(cs, NegScore);
    SortBySorted(cs, NegScore);
    assert Distinct(cs);
    SortByDistinct(cs, NegScore);
    RankingOfSorted(cs, cos, r, Min(TopK, |cs|));
  }

  /** The first `m` entries of a sorted permutation of all scores. */
  lemma RankingOfSorted(cs: seq<(real, nat)>, cos: map<nat, real>, r: seq<(real, nat)>, m: nat)
    requires AllScores(cs, cos) && multiset(r) == multiset(cs) && |r| == |cs|
    requires SortedBy(r, NegScore) && Distinct(r)
    requires m == Min(TopK, |cs|)
    ensures IsRanking(r[..m], cos)
  {
    SortedEntries(cs, cos, r);
    var res := r[..m];
    forall i, j | 0 <= i < j < |res| ensures res[i].0 >= res[j].0 {
      assert NegScore(r[i]) <= NegScore(r[j]);
    }
    forall i, j | 0 <= i < j < |res| ensures res[i].1 != res[j].1 {
      assert r[i] != r[j];
    }
    LeftOutBelow(cs, cos, r, m);
  }

  lemma SortedEntries(cs: seq<(real, nat)>, cos: map<nat, real>, r: seq<(real, nat)>)
    requires AllScores(cs, cos) && multiset(r) == multiset(cs)
    ensures forall i :: 0 <= i < |r| ==> r[i].1 in cos && r[i].0 == cos[r[i].1]
  {
    forall i | 0 <= i < |r| ensures r[i].1 in cos && r[i].0 == cos[r[i].1] {
      assert r[i] in multiset(cs);
    }
  }

  lemma LeftOutBelow(cs: seq<(real, nat)>, cos: map<nat, real>, r: seq<(real, nat)>, m: nat)
    requires AllScores(cs, cos) && multiset(r) == multiset(cs) && m <= |r|
    requires SortedBy(r, NegScore)
    ensures forall d, i :: d in cos && !Listed(r[..m], d) && 0 <= i < m ==> cos[d] <= r[i].0
  {
    forall d, i | d in cos && !Listed(r[..m], d) && 0 <= i < m ensures cos[d] <= r[i].0 {
      var j :| 0 <= j < |cs| && cs[j].1 == d;
      assert cs[j] in multiset(r);
      var k :| 0 <= k < |r| && r[k] == cs[j];
      forall x | 0 <= x < m ensures r[x].1 != d {
        assert r[..m][x] == r[x];
      }
      assert NegScore(r[i]) <= NegScore(r[k]);
    }
  }

  /** The scores the source divides are the cosine scores. */
  lemma ScoresAreCosines(toks: seq<string>, index: Index, idf: map<string, real>, fanficNorms: seq<real>,
                         sqrt: real -> real, div: (real, real) -> real,
                         counts: map<string, int>, norm: real, docScores: map<nat, real>, norms: seq<real>)
    requires QueryFits(toks, index, idf, fanficNorms)
    requires counts == QueryCounts(toks, idf) && norm == QueryNormSq(toks, idf)
    requires forall d :: d in docScores <==> exists w :: w in counts && Names(index[w], d)
    requires forall d :: d in docScores ==> docScores[d] == DotScore(counts, index, idf, d)
    requires |norms| == |fanficNorms| && forall d :: 0 <= d < |norms| ==> norms[d] == sqrt(norm) * fanficNorms[d]
    ensures var cos := CosineScores(toks, index, idf, fanficNorms, sqrt, div);
      && docScores.Keys == cos.Keys
      && forall d :: d in docScores ==> d < |norms| && cos[d] == div(docScores[d], norms[d])
  {
    var cos := Cosines(counts, norm, index, idf, fanficNorms, sqrt, div);
    assert cos == CosineScores(toks, index, idf, fanficNorms, sqrt, div);
    forall d: nat ensures d in docScores <==> d in cos {
      ScoredDocsMeans(counts, index, d);
    }
    forall d | d in docScores ensures d < |norms| && cos[d] == div(docScores[d], norms[d]) {
      var w :| w in counts && Names(index[w], d);
      assert w in Terms(toks) && w in idf;
      var i :| 0 <= i < |index[w]| && index[w][i].doc == d;
      assert d < |fanficNorms|;
      assert d in ScoredDocs(counts, index);
      CosinesAt(counts, norm, index, idf, fanficNorms, sqrt, div, d);
    }
  }

  /** The loop over the dot scores: one `(cosine, doc)` pair per scored
      document, each score divided by the document's entry of `norms`. */
  method CosineList(docScores: map<nat, real>, norms: seq<real>, div: (real, real) -> real,
                    ghost cos: map<nat, real>)
    returns (cossim: seq<(real, nat)>)
    requires docScores.Keys == cos.Keys
    requires forall d :: d in docScores ==> d < |norms| && cos[d] == div(docScores[d], norms[d])
    ensures AllScores(cossim, cos)
  {
    cossim := [];
    var remaining := docScores.Keys;
    while remaining != {}
      invariant remaining <= docScores.Keys
      invariant |cossim| + |remaining| == |cos|
      invariant forall i :: 0 <= i < |cossim| ==>
        cossim[i].1 in cos && cossim[i].1 !in remaining && cossim[i].0 == cos[cossim[i].1]
      invariant forall i, j :: 0 <= i < j < |cossim| ==> cossim[i].1 != cossim[j].1
      invariant forall d :: d in cos && d !in remaining ==> Listed(cossim, d)
      decreases |remaining|
    {
      var doc :| doc in remaining;
      ghost var before := cossim;
      cossim := cossim + [(div(docScores[doc], norms[doc]), doc)];
      forall d | d in cos && d !in remaining - {doc} ensures Listed(cossim, d) {
        if d == doc {
          assert cossim[|cossim| - 1].1 == doc;
        } else {
          var i :| 0 <= i < |before| && before[i].1 == d;
          assert cossim[i] == before[i];
        }
      }
      remaining := remaining - {doc};
    }
  }

  /** `math.sqrt(norm) * fanfic_norms` on a NumPy array: every entry scaled. */
  function Scale(a: real, v: seq<real>): (r: seq<real>)
    ensures |r| == |v|
    ensures forall i :: 0 <= i < |v| ==> r[i] == a * v[i]
  {
    seq(|v|, i requires 0 <= i < |v| => a * v[i])
  }

  /** Builds the query vector, scores the documents, divides each score by
      the two norms and keeps the ten best, highest first. Ties are broken by
      the order of an unordered iteration, so only the ranking is stated. */
  method ComputeCossim(webnovelToks: seq<string>, fanficInvIndex: Index, fanficIdf: map<string, real>,
                       fanficNorms: seq<real>, sqrt: real -> real, div: (real, real) -> real)
    returns (result: seq<(real, nat)>)
    requires QueryFits(webnovelToks, fanficInvIndex, fanficIdf, fanficNorms)
    ensures IsRanking(result, CosineScores(webnovelToks, fanficInvIndex, fanficIdf, fanficNorms, sqrt, div))
  {
    var webnovelWordCounts, norm := QueryVector(webnovelToks, fanficIdf);
    var norms := Scale(sqrt(norm), fanficNorms);
    var docScores := AccumulateDotScores(webnovelWordCounts, fanficInvIndex, fanficIdf);
    ghost var cos := CosineScores(webnovelToks, fanficInvIndex, fanficIdf, fanficNorms, sqrt, div);
    ScoresAreCosines(webnovelToks, fanficInvIndex, fanficIdf, fanficNorms, sqrt, div, webnovelWordCounts, norm, docScores, norms);
    var cossim := CosineList(docScores, norms, div, cos);
    TopRanking(cossim, cos);
    result := SortBy(cossim, NegScore)[..Min(TopK, |cossim|)];
  }

  // ---------------------------------------------------------------------
  // The batch.

  /** One of the first `n` records carries index `k`. */
  ghost predicate IndexedBefore(webnovels: seq<TokenizedWebnovel>, n: int, k: nat)
  {
    exists i :: 0 <= i < n && i < |webnovels| && webnovels[i].index == k
  }

  /** No later record among the first `n` carries the same index as record `i`. */
  ghost predicate LastBefore(webnovels: seq<TokenizedWebnovel>, n: int, i: int)
  {
    0 <= i < n <= |webnovels| && forall j :: i < j < n ==> webnovels[j].index != webnovels[i].index
  }

  /** `r` ranks the fanfictions for the query `toks`. */
  ghost predicate RanksQuery(r: seq<(real, nat)>, toks: seq<string>, index: Index, idf: map<string, real>,
                             norms: seq<real>, sqrt: real -> real, div: (real, real) -> real)
  {
    IsRanking(r, CosineScores(toks, index, idf, norms, sqrt, div))
  }

  /** One ranking per web novel, stored under the web novel's `index`; a
      later record with the same index replaces an earlier one. */
  method BuildSimsCos(webnovelsTokenized: seq<TokenizedWebnovel>, fanficInvIndex: Index,
                      fanficIdf: map<string, real>, fanficNorms: seq<real>,
                      sqrt: real -> real, div: (real, real) -> real)
    returns (webnovelSims: map<nat, seq<(real, nat)>>)
    requires forall i :: 0 <= i < |webnovelsTokenized| ==>
      QueryFits(webnovelsTokenized[i].tokenizedDescription, fanficInvIndex, fanficIdf, fanficNorms)
    ensures forall k :: k in webnovelSims <==> IndexedBefore(webnovelsTokenized, |webnovelsTokenized|, k)
    ensures forall i :: LastBefore(webnovelsTokenized, |webnovelsTokenized|, i) ==>
      && webnovelsTokenized[i].index in webnovelSims
      && RanksQuery(webnovelSims[webnovelsTokenized[i].index], webnovelsTokenized[i].tokenizedDescription,
                    fanficInvIndex, fanficIdf, fanficNorms, sqrt, div)
  {
    ghost var ranks := (r, toks) => RanksQuery(r, toks, fanficInvIndex, fanficIdf, fanficNorms, sqrt, div);
    webnovelSims := map[];
    var nWebnovels := |webnovelsTokenized|;
    var i := 0;
    while i < nWebnovels
      invariant 0 <= i <= nWebnovels
      invariant BatchDone(webnovelSims, webnovelsTokenized, i, ranks)
    {
      var webnovel := webnovelsTokenized[i];
      var cossims := ComputeCossim(webnovel.tokenizedDescription, fanficInvIndex, fanficIdf, fanficNorms, sqrt, div);
      ghost var before := webnovelSims;
      webnovelSims := webnovelSims[webnovel.index := cossims];
      BatchStep(webnovelsTokenized, i, ranks, before, webnovelSims);
      i := i + 1;
    }
  }

  /** The invariant of the batch loop: the keys are the indices of the first
      `n` records, and each of those records whose index no later one among
      them reuses has a list that `ranks` accepts for its tokens stored there. */
  ghost predicate BatchDone(sims: map<nat, seq<(real, nat)>>, webnovels: seq<TokenizedWebnovel>, n: nat,
                            ranks: (seq<(real, nat)>, seq<string>) -> bool)
  {
    && (forall k :: k in sims <==> IndexedBefore(webnovels, n, k))
    && (forall j :: LastBefore(webnovels, n, j) ==>
          webnovels[j].index in sims && ranks(sims[webnovels[j].index], webnovels[j].tokenizedDescription))
  }

  /** Storing the list of record `i` keeps the batch invariant. */
  lemma BatchStep(webnovels: seq<TokenizedWebnovel>, i: nat, ranks: (seq<(real, nat)>, seq<string>) -> bool,
                  before: map<nat, seq<(real, nat)>>, after: map<nat, seq<(real, nat)>>)
    requires i < |webnovels|
    requires BatchDone(before, webnovels, i, ranks)
    requires webnovels[i].index in after
    requires ranks(after[webnovels[i].index], webnovels[i].tokenizedDescription)
    requires after == before[webnovels[i].index := after[webnovels[i].index]]
    ensures BatchDone(after, webnovels, i + 1, ranks)
  {
    forall j | LastBefore(webnovels, i + 1, j)
      ensures webnovels[j].index in after && ranks(after[webnovels[j].index], webnovels[j].tokenizedDescription)
    {
      if j < i {
        assert LastBefore(webnovels, i, j);
        assert after[webnovels[j].index] == before[webnovels[j].index];
      }
    }
    forall k ensures k in after <==> IndexedBefore(webnovels, i + 1, k) {
      if k == webnovels[i].index {
        assert webnovels[i].index == k;
      }
    }
  }

  /** The records `tokenize_webnovels` produces carry their own positions:
      then every record has the last word on its index and the keys are
      exactly the positions. */
  lemma IndexedByPosition(webnovels: seq<TokenizedWebnovel>)
    requires forall i :: 0 <= i < |webnovels| ==> webnovels[i].index == i
    ensures forall i :: 0 <= i < |webnovels| ==> LastBefore(webnovels, |webnovels|, i)
    ensures forall k: nat :: IndexedBefore(webnovels, |webnovels|, k) <==> k < |webnovels|
  {
    forall k: nat | k < |webnovels| ensures IndexedBefore(webnovels, |webnovels|, k) {
      assert webnovels[k].index == k;
    }
  }
}
