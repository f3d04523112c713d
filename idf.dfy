/** `compute_idf` of backend/scratch.py: the IDF weight of every term whose
    document frequency lies within the configured bounds. */
module Idf {
  import opened InvertedIndex

  /** The default bounds of the source's signature. */
  const DefaultMinDf: int := 10
  const DefaultMaxDfRatio: real := 0.95

  /** A term with document frequency `df` is kept when it occurs in at least
      `minDf` documents and in at most the fraction `maxDfRatio` of them. */
  predicate Kept(df: nat, nDocs: nat, minDf: int, maxDfRatio: real)
    requires nDocs > 0
  {
    df as real / nDocs as real <= maxDfRatio && df >= minDf
  }

  /** The weight `log2(n_docs / (1 + df))`; the logarithm is a parameter. */
  function Weight(df: nat, nDocs: nat, log2: real -> real): real
  {
    log2(nDocs as real / (1 + df) as real)
  }

  /** Visits the terms of the index in an unspecified order and keeps those
      within the bounds. The quotient `df / n_docs` needs `n_docs > 0` as
      soon as there is a term. */
  method ComputeIdf(invIdx: Index, nDocs: nat, minDf: int, maxDfRatio: real, log2: real -> real)
    returns (idf: map<string, real>)
    requires nDocs > 0 || invIdx == map[]
    ensures idf.Keys <= invIdx.Keys
    ensures forall t :: t in idf <==> t in invIdx && nDocs > 0 && Kept(|invIdx[t]|, nDocs, minDf, maxDfRatio)
    ensures forall t :: t in idf ==> idf[t] == Weight(|invIdx[t]|, nDocs, log2)
  {
    idf := map[];
    var remaining := invIdx.Keys;
    while remaining != {}
      invariant remaining <= invIdx.Keys
      invariant forall t :: t in idf <==> t in invIdx && t !in remaining && nDocs > 0 && Kept(|invIdx[t]|, nDocs, minDf, maxDfRatio)
      invariant forall t :: t in idf ==> idf[t] == Weight(|invIdx[t]|, nDocs, log2)
      decreases |remaining|
    {
      var term :| term in remaining;
      var termDf := |invIdx[term]|;
      if termDf as real / nDocs as real <= maxDfRatio && termDf >= minDf {
        idf := idf[term := log2(nDocs as real / (1 + termDf) as real)];
      }
      remaining := remaining - {term};
    }
  }

  /** With the default bounds, a term in at least ten documents and in at
      most 95% of them is kept, and one in fewer than ten is dropped. */
  lemma DefaultBounds(df: nat, nDocs: nat)
    requires nDocs > 0
    ensures Kept(df, nDocs, DefaultMinDf, DefaultMaxDfRatio) <==> 10 <= df && 100 * df <= 95 * nDocs
  {
    QuotientAtMost(df as real, nDocs as real, 0.95);
  }

  /** For a positive divisor, `x / n <= c` exactly when `x <= c * n`. */
  lemma QuotientAtMost(x: real, n: real, c: real)
    requires n > 0.0
    ensures x / n <= c <==> x <= c * n
  {
    var r := x / n;
    assert r * n == x;
    if r <= c {
      ProductNonNegative(c - r, n);
    } else {
      ProductPositive(r - c, n);
    }
  }

  lemma ProductNonNegative(a: real, b: real)
    requires a >= 0.0 && b >= 0.0
    ensures a * b >= 0.0
  {
  }

  lemma ProductPositive(a: real, b: real)
    requires a > 0.0 && b > 0.0
    ensures a * b > 0.0
  {
  }

  /** On an index built from documents, the document frequency that the
      bounds test is the number of documents holding the term. */
  lemma DocumentFrequency(docs: seq<seq<string>>, t: string)
    requires t in IndexOf(docs)
    ensures |IndexOf(docs)[t]| == |set d | 0 <= d < |docs| && t in docs[d]|
  {
    PostingsExact(docs, t);
    PostingsIncreasing(docs, t);
    var ps := PostingsOf(docs, t);
    var holding := set d | 0 <= d < |docs| && t in docs[d];
    var listed := DocsOf(ps);
    forall d | d in holding ensures d in listed {
      var i :| 0 <= i < |ps| && ps[i].doc == d;
    }
    forall d | d in listed ensures d in holding {
      var i :| 0 <= i < |ps| && ps[i].doc == d;
      CountPositive(docs[d], t);
    }
    assert listed == holding;
    InjectiveImage(ps);
  }

  /** The documents of a list in increasing document order are as many as
      its pairs. */
  lemma {:induction false} InjectiveImage(ps: seq<Posting>)
    requires Increasing(ps)
    ensures |DocsOf(ps)| == |ps|
  {
    if ps != [] {
      var n := |ps| - 1;
      assert Increasing(ps[..n]);
      InjectiveImage(ps[..n]);
      DocsOfSnoc(ps);
    }
  }

  function DocsOf(ps: seq<Posting>): set<nat>
  {
    set i | 0 <= i < |ps| :: ps[i].doc
  }

  lemma DocsOfSnoc(ps: seq<Posting>)
    requires Increasing(ps) && ps != []
    ensures DocsOf(ps) == DocsOf(ps[..|ps| - 1]) + {ps[|ps| - 1].doc}
    ensures ps[|ps| - 1].doc !in DocsOf(ps[..|ps| - 1])
  {
    var n := |ps| - 1;
    var init := ps[..n];
    forall x | x in DocsOf(ps) ensures x in DocsOf(init) + {ps[n].doc} {
      var i :| 0 <= i < |ps| && ps[i].doc == x;
      if i < n { assert init[i].doc == x; }
    }
    forall x | x in DocsOf(init) ensures x in DocsOf(ps) && x < ps[n].doc {
      var i :| 0 <= i < n && init[i].doc == x;
      assert ps[i].doc == x;
    }
  }
}
