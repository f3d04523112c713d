/** `compute_doc_norms` of backend/scratch.py: the Euclidean norm of every
    document's TF-IDF vector over the kept vocabulary. */
module Norms {
  import opened Sums
  import opened InvertedIndex

  function Sq(x: real): real { x * x }

  /** `(tf * w)^2`: one pair's contribution to a squared norm. */
  function TfIdfSq(tf: nat, w: real): real
  {
    Sq(tf as real * w)
  }

  /** The same, as a function of the term frequency. */
  function SqWeights(w: real): nat -> real
  {
    (tf: nat) => TfIdfSq(tf, w)
  }

  /** The contribution of term `t` to the squared norm of document `d`. */
  function TermSq(index: Index, idf: map<string, real>, d: nat, t: string): real
  {
    if t in index && t in idf then PostingSum(index[t], d, SqWeights(idf[t])) else 0.0
  }

  /** The contributions of the terms of `terms` to document `d`. */
  ghost function TermsSq(index: Index, idf: map<string, real>, d: nat, terms: set<string>): real
  {
    SetSum(terms, t => TermSq(index, idf, d, t))
  }

  /** The squared norm of document `d`: the sum over the vocabulary of
      `(tf * idf[t])^2`. */
  ghost function NormSq(index: Index, idf: map<string, real>, d: nat): real
  {
    TermsSq(index, idf, d, idf.Keys)
  }

  lemma TermsSqAdd(index: Index, idf: map<string, real>, d: nat, terms: set<string>, t: string)
    requires t !in terms
    ensures TermsSq(index, idf, d, terms + {t}) == TermsSq(index, idf, d, terms) + TermSq(index, idf, d, t)
  {
    SetSumAdd(terms, t, u => TermSq(index, idf, d, u));
  }

  /** Accumulates `(tf * idf[t])^2` into a zero-initialised array, term by
      term, then takes square roots elementwise. */
  method ComputeDocNorms(index: Index, idf: map<string, real>, nDocs: nat, sqrt: real -> real)
    returns (norms: seq<real>)
    requires idf.Keys <= index.Keys
    requires forall t :: t in idf ==> forall i :: 0 <= i < |index[t]| ==> index[t][i].doc < nDocs
    ensures |norms| == nDocs
    ensures forall d :: 0 <= d < nDocs ==> norms[d] == sqrt(NormSq(index, idf, d))
  {
    var acc := new real[nDocs](_ => 0.0);
    ghost var done: set<string> := {};
    var remaining := idf.Keys;
    while remaining != {}
      invariant remaining <= idf.Keys && done == idf.Keys - remaining
      invariant forall d :: 0 <= d < nDocs ==> acc[d] == TermsSq(index, idf, d, done)
      decreases |remaining|
    {
      var term :| term in remaining;
      AddTermSq(acc, index[term], idf[term]);
      forall d | 0 <= d < nDocs
        ensures acc[d] == TermsSq(index, idf, d, done + {term})
      {
        TermsSqAdd(index, idf, d, done, term);
      }
      done := done + {term};
      remaining := remaining - {term};
    }
    assert done == idf.Keys;
    norms := seq(nDocs, d requires 0 <= d < nDocs reads acc => sqrt(acc[d]));
  }

  /** The inner loop over the pairs `(doc, tf)` of one term. */
  method AddTermSq(acc: array<real>, termDocs: seq<Posting>, score: real)
    requires forall i :: 0 <= i < |termDocs| ==> termDocs[i].doc < acc.Length
    modifies acc
    ensures forall d :: 0 <= d < acc.Length ==> acc[d] == old(acc[d]) + PostingSum(termDocs, d, SqWeights(score))
  {
    var k := 0;
    while k < |termDocs|
      invariant 0 <= k <= |termDocs|
      invariant forall d :: 0 <= d < acc.Length ==> acc[d] == old(acc[d]) + PostingSum(termDocs[..k], d, SqWeights(score))
    {
      var doc, tf := termDocs[k].doc, termDocs[k].tf;
      assert termDocs[..k + 1][..k] == termDocs[..k];
      assert SqWeights(score)(tf) == TfIdfSq(tf, score);
      acc[doc] := acc[doc] + (tf as real * score) * (tf as real * score);
      k := k + 1;
    }
    assert termDocs[..k] == termDocs;
  }

  /** A document that holds no vocabulary term has norm zero. */
  lemma NoVocabularyZeroNorm(index: Index, idf: map<string, real>, d: nat)
    requires forall t :: t in idf && t in index ==> !Names(index[t], d)
    ensures NormSq(index, idf, d) == 0.0
  {
    forall t | t in idf.Keys ensures TermSq(index, idf, d, t) == 0.0 {
      if t in index {
        PostingSumUnnamed(index[t], d, SqWeights(idf[t]));
      }
    }
    SetSumZero(idf.Keys, u => TermSq(index, idf, d, u));
  }

  /** The squared norm in terms of the documents' term counts. */
  lemma NormOfCorpus(docs: seq<seq<string>>, idf: map<string, real>, d: nat)
    requires idf.Keys <= IndexOf(docs).Keys
    requires d < |docs|
    ensures NormSq(IndexOf(docs), idf, d) ==
      SetSum(idf.Keys, t => if t in idf then TfIdfSq(Count(docs[d], t), idf[t]) else 0.0)
  {
    var f := t => TermSq(IndexOf(docs), idf, d, t);
    var g := t => if t in idf then TfIdfSq(Count(docs[d], t), idf[t]) else 0.0;
    forall t | t in idf.Keys ensures f(t) == g(t) {
      assert SqWeights(idf[t])(0) == 0.0;
      PostingSumOfCorpus(docs, t, d, SqWeights(idf[t]));
      assert IndexOf(docs)[t] == PostingsOf(docs, t);
      assert f(t) == TermSq(IndexOf(docs), idf, d, t);
      assert TermSq(IndexOf(docs), idf, d, t) == SqWeights(idf[t])(Count(docs[d], t));
      assert SqWeights(idf[t])(Count(docs[d], t)) == TfIdfSq(Count(docs[d], t), idf[t]);
    }
    SetSumEqual(idf.Keys, f, g);
  }
}
