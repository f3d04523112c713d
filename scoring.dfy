/** `accumulate_dot_scores` of backend/scratch.py: the numerator of the
    cosine similarity between a query and every document, computed term at
    a time. */
module Scoring {
  import opened Sums
  import opened InvertedIndex

  /** `tf * idf[w] * q[w] * idf[w]`: one pair's contribution to a score. */
  function TfDot(tf: nat, idfW: real, count: int): real
  {
    tf as real * idfW * count as real * idfW
  }

  function DotWeights(idfW: real, count: int): nat -> real
  {
    (tf: nat) => TfDot(tf, idfW, count)
  }

  /** The contribution of query word `w` to the score of document `d`. */
  function WordDot(q: map<string, int>, index: Index, idf: map<string, real>, d: nat, w: string): real
  {
    if w in q && w in index && w in idf then PostingSum(index[w], d, DotWeights(idf[w], q[w])) else 0.0
  }

  /** The contributions of the words of `words` to document `d`. */
  ghost function WordsDot(q: map<string, int>, index: Index, idf: map<string, real>, d: nat, words: set<string>): real
  {
    SetSum(words, w => WordDot(q, index, idf, d, w))
  }

  /** The dot product of the query's and document `d`'s TF-IDF vectors. */
  ghost function DotScore(q: map<string, int>, index: Index, idf: map<string, real>, d: nat): real
  {
    WordsDot(q, index, idf, d, q.Keys)
  }

  /** The documents in the postings of some query word. */
  function ScoredDocs(q: map<string, int>, index: Index): set<nat>
  {
    set w, i | w in q.Keys && w in index && 0 <= i < |index[w]| :: index[w][i].doc
  }

  /** A score the map may not hold is zero. */
  function Get(scores: map<nat, real>, d: nat): real
  {
    if d in scores then scores[d] else 0.0
  }

  lemma WordsDotAdd(q: map<string, int>, index: Index, idf: map<string, real>, d: nat, words: set<string>, w: string)
    requires w !in words
    ensures WordsDot(q, index, idf, d, words + {w}) == WordsDot(q, index, idf, d, words) + WordDot(q, index, idf, d, w)
  {
    SetSumAdd(words, w, u => WordDot(q, index, idf, d, u));
  }

  lemma NamesSnoc(ps: seq<Posting>, k: nat, d: nat)
    requires k < |ps|
    ensures Names(ps[..k + 1], d) <==> Names(ps[..k], d) || ps[k].doc == d
  {
    if Names(ps[..k + 1], d) {
      var i :| 0 <= i < k + 1 && ps[..k + 1][i].doc == d;
      if i < k { assert ps[..k][i].doc == d; }
    }
    if Names(ps[..k], d) {
      var i :| 0 <= i < k && ps[..k][i].doc == d;
      assert ps[..k + 1][i].doc == d;
    }
    if ps[k].doc == d {
      assert ps[..k + 1][k].doc == d;
    }
  }

  /** Visits the query words in an unspecified order and, for each, adds the
      contribution of every pair in its postings. Every query word must be a
      key of the index, and a word with postings a key of the IDF map; the
      IDF map is read only inside the pass over the postings. */
  method AccumulateDotScores(queryWordCounts: map<string, int>, index: Index, idf: map<string, real>)
    returns (docScores: map<nat, real>)
    requires forall w :: w in queryWordCounts ==> w in index && (|index[w]| > 0 ==> w in idf)
    ensures forall d :: d in docScores <==> exists w :: w in queryWordCounts && Names(index[w], d)
    ensures forall d :: d in docScores ==> docScores[d] == DotScore(queryWordCounts, index, idf, d)
  {
    docScores := map[];
    ghost var done: set<string> := {};
    var remaining := queryWordCounts.Keys;
    while remaining != {}
      invariant remaining <= queryWordCounts.Keys && done == queryWordCounts.Keys - remaining
      invariant forall d :: d in docScores <==> exists w :: w in done && Names(index[w], d)
      invariant forall d :: Get(docScores, d) == WordsDot(queryWordCounts, index, idf, d, done)
      decreases |remaining|
    {
      var queryWord :| queryWord in remaining;
      ghost var before := docScores;
      if |index[queryWord]| > 0 {
        docScores := AddWordScores(docScores, index[queryWord], idf[queryWord], queryWordCounts[queryWord]);
      }
      forall d ensures Get(docScores, d) == WordsDot(queryWordCounts, index, idf, d, done + {queryWord}) {
        WordsDotAdd(queryWordCounts, index, idf, d, done, queryWord);
      }
      forall d ensures d in docScores <==> exists w :: w in done + {queryWord} && Names(index[w], d) {
        if d in docScores && d !in before {
          assert queryWord in done + {queryWord} && Names(index[queryWord], d);
        }
      }
      done := done + {queryWord};
      remaining := remaining - {queryWord};
    }
    assert done == queryWordCounts.Keys;
  }

  /** The inner loop over the pairs `(doc, tf)` of one query word: a
      document seen for the first time gets the contribution, one already
      scored has it added. */
  method AddWordScores(scores0: map<nat, real>, termDocs: seq<Posting>, idfW: real, count: int)
    returns (docScores: map<nat, real>)
    ensures forall d :: d in docScores <==> d in scores0 || Names(termDocs, d)
    ensures forall d :: Get(docScores, d) == Get(scores0, d) + PostingSum(termDocs, d, DotWeights(idfW, count))
  {
    docScores := scores0;
    var k := 0;
    while k < |termDocs|
      invariant 0 <= k <= |termDocs|
      invariant forall d :: d in docScores <==> d in scores0 || Names(termDocs[..k], d)
      invariant forall d :: Get(docScores, d) == Get(scores0, d) + PostingSum(termDocs[..k], d, DotWeights(idfW, count))
    {
      var doc, tf := termDocs[k].doc, termDocs[k].tf;
      assert termDocs[..k + 1][..k] == termDocs[..k];
      assert DotWeights(idfW, count)(tf) == TfDot(tf, idfW, count);
      forall d ensures Names(termDocs[..k + 1], d) <==> Names(termDocs[..k], d) || doc == d {
        NamesSnoc(termDocs, k, d);
      }
      if doc !in docScores {
        docScores := docScores[doc := tf as real * idfW * count as real * idfW];
      } else {
        docScores := docScores[doc := docScores[doc] + tf as real * idfW * count as real * idfW];
      }
      k := k + 1;
    }
    assert termDocs[..k] == termDocs;
  }

  /** The scored documents, as a set built from the postings of the query
      words. */
  lemma ScoredDocsMeans(q: map<string, int>, index: Index, d: nat)
    ensures d in ScoredDocs(q, index) <==> exists w :: w in q && w in index && Names(index[w], d)
  {
    if d in ScoredDocs(q, index) {
      var w, i :| w in q.Keys && w in index && 0 <= i < |index[w]| && index[w][i].doc == d;
      assert Names(index[w], d);
    }
    if exists w :: w in q && w in index && Names(index[w], d) {
      var w :| w in q && w in index && Names(index[w], d);
      var i :| 0 <= i < |index[w]| && index[w][i].doc == d;
      assert d in ScoredDocs(q, index);
    }
  }

  /** A document outside the scored set has a zero dot product. */
  lemma UnscoredZero(q: map<string, int>, index: Index, idf: map<string, real>, d: nat)
    requires !exists w :: w in q && w in index && Names(index[w], d)
    ensures DotScore(q, index, idf, d) == 0.0
  {
    forall w | w in q.Keys ensures WordDot(q, index, idf, d, w) == 0.0 {
      if w in index && w in idf {
        PostingSumUnnamed(index[w], d, DotWeights(idf[w], q[w]));
      }
    }
    SetSumZero(q.Keys, u => WordDot(q, index, idf, d, u));
  }

  /** On the index of a corpus, the score in terms of the documents' term
      counts. */
  lemma DotOfCorpus(docs: seq<seq<string>>, q: map<string, int>, idf: map<string, real>, d: nat)
    requires q.Keys <= IndexOf(docs).Keys && q.Keys <= idf.Keys
    requires d < |docs|
    ensures DotScore(q, IndexOf(docs), idf, d) ==
      SetSum(q.Keys, w => if w in q && w in idf then TfDot(Count(docs[d], w), idf[w], q[w]) else 0.0)
  {
    var f := w => WordDot(q, IndexOf(docs), idf, d, w);
    var g := w => if w in q && w in idf then TfDot(Count(docs[d], w), idf[w], q[w]) else 0.0;
    forall w | w in q.Keys ensures f(w) == g(w) {
      assert DotWeights(idf[w], q[w])(0) == 0.0;
      PostingSumOfCorpus(docs, w, d, DotWeights(idf[w], q[w]));
      assert IndexOf(docs)[w] == PostingsOf(docs, w);
      assert f(w) == WordDot(q, IndexOf(docs), idf, d, w);
      assert DotWeights(idf[w], q[w])(Count(docs[d], w)) == TfDot(Count(docs[d], w), idf[w], q[w]);
    }
    SetSumEqual(q.Keys, f, g);
  }
}
