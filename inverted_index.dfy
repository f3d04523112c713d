/** `build_inverted_index` of backend/scratch.py: for every term, the list of
    `(document index, term frequency)` pairs of the documents it occurs in. */
module InvertedIndex {

  /** The tuple `(doc_index, count_of_term_in_doc)`. */
  datatype Posting = Posting(doc: nat, tf: nat)

  type Index = map<string, seq<Posting>>

  /** Number of occurrences of `t` in `toks`. */
  function Count(toks: seq<string>, t: string): nat
  {
    if toks == [] then 0 else (if toks[0] == t then 1 else 0) + Count(toks[1..], t)
  }

  /** The set of terms of one document. */
  function Terms(toks: seq<string>): (r: set<string>)
    ensures forall t :: t in r <==> t in toks
  {
    set i | 0 <= i < |toks| :: toks[i]
  }

  /** The reference postings list of `t`: one pair per document that holds
      `t`, in document order, carrying the number of occurrences. */
  function PostingsOf(docs: seq<seq<string>>, t: string): seq<Posting>
  {
    if docs == [] then []
    else
      var n := |docs| - 1;
      PostingsOf(docs[..n], t) + (if Count(docs[n], t) > 0 then [Posting(n, Count(docs[n], t))] else [])
  }

  /** The terms occurring in some document. */
  function Vocabulary(docs: seq<seq<string>>): set<string>
  {
    if docs == [] then {} else Vocabulary(docs[..|docs| - 1]) + Terms(docs[|docs| - 1])
  }

  /** The reference index, term by term. */
  function IndexOf(docs: seq<seq<string>>): Index
  {
    map t | t in Vocabulary(docs) :: PostingsOf(docs, t)
  }

  // ---------------------------------------------------------------------
  // Facts about the reference definitions.

  lemma {:induction false} CountPositive(toks: seq<string>, t: string)
    ensures Count(toks, t) > 0 <==> t in toks
  {
    if toks != [] {
      CountPositive(toks[1..], t);
      assert toks == [toks[0]] + toks[1..];
    }
  }

  lemma {:induction false} CountAppend(toks: seq<string>, tok: string, t: string)
    ensures Count(toks + [tok], t) == Count(toks, t) + (if tok == t then 1 else 0)
  {
    if toks != [] {
      CountAppend(toks[1..], tok, t);
      assert (toks + [tok])[1..] == toks[1..] + [tok];
    }
  }

  lemma {:induction false} PostingsAppend(docs: seq<seq<string>>, c: seq<string>, t: string)
    ensures PostingsOf(docs + [c], t) ==
      PostingsOf(docs, t) + (if Count(c, t) > 0 then [Posting(|docs|, Count(c, t))] else [])
  {
    assert (docs + [c])[..|docs|] == docs;
  }

  lemma {:induction false} VocabularyAppend(docs: seq<seq<string>>, c: seq<string>)
    ensures Vocabulary(docs + [c]) == Vocabulary(docs) + Terms(c)
  {
    assert (docs + [c])[..|docs|] == docs;
  }

  lemma {:induction false} VocabularyMeansOccurs(docs: seq<seq<string>>, t: string)
    ensures t in Vocabulary(docs) <==> exists d :: 0 <= d < |docs| && t in docs[d]
  {
    if docs != [] {
      var n := |docs| - 1;
      VocabularyMeansOccurs(docs[..n], t);
      if exists d :: 0 <= d < n && t in docs[..n][d] {
        var d :| 0 <= d < n && t in docs[..n][d];
        assert t in docs[d];
      }
      if exists d :: 0 <= d < |docs| && t in docs[d] {
        var d :| 0 <= d < |docs| && t in docs[d];
        if d < n {
          assert t in docs[..n][d];
        }
      }
    }
  }

  lemma {:induction false} PostingsOfAbsentTerm(docs: seq<seq<string>>, t: string)
    requires t !in Vocabulary(docs)
    ensures PostingsOf(docs, t) == []
  {
    if docs != [] {
      var n := |docs| - 1;
      PostingsOfAbsentTerm(docs[..n], t);
      CountPositive(docs[n], t);
    }
  }

  /** A trailing document without tokens adds nothing. */
  lemma {:induction false} EmptyDocument(docs: seq<seq<string>>)
    ensures IndexOf(docs + [[]]) == IndexOf(docs)
  {
    VocabularyAppend(docs, []);
    forall t ensures PostingsOf(docs + [[]], t) == PostingsOf(docs, t) {
      PostingsAppend(docs, [], t);
    }
  }

  /** What one more token of the current (last) document does to the postings
      of that token, in the three cases the source distinguishes. */
  lemma {:induction false} NewPostings(docs: seq<seq<string>>, c: seq<string>, tok: string)
    ensures var before := IndexOf(docs + [c]);
            var after := PostingsOf(docs + [c + [tok]], tok);
      && (tok !in before ==> after == [Posting(|docs|, 1)])
      && (tok in before && tok !in c ==> after == before[tok] + [Posting(|docs|, 1)])
      && (tok in c ==>
            tok in before && |before[tok]| > 0 && before[tok][|before[tok]| - 1].doc == |docs| &&
            after == before[tok][|before[tok]| - 1 := Posting(|docs|, before[tok][|before[tok]| - 1].tf + 1)])
  {
    VocabularyAppend(docs, c);
    PostingsAppend(docs, c, tok);
    PostingsAppend(docs, c + [tok], tok);
    CountAppend(c, tok, tok);
    CountPositive(c, tok);
    if tok !in IndexOf(docs + [c]) {
      PostingsOfAbsentTerm(docs, tok);
    }
  }

  /** One more token changes the postings of that token only. */
  lemma {:induction false} IndexStep(docs: seq<seq<string>>, c: seq<string>, tok: string)
    ensures IndexOf(docs + [c + [tok]]) == IndexOf(docs + [c])[tok := PostingsOf(docs + [c + [tok]], tok)]
  {
    VocabularyAppend(docs, c);
    VocabularyAppend(docs, c + [tok]);
    assert Terms(c + [tok]) == Terms(c) + {tok};
    forall t | t != tok ensures PostingsOf(docs + [c + [tok]], t) == PostingsOf(docs + [c], t) {
      PostingsAppend(docs, c, t);
      PostingsAppend(docs, c + [tok], t);
      CountAppend(c, tok, t);
    }
  }

  /** The three cases of one token step, each as a whole-index update. */
  lemma {:induction false} StepNewTerm(docs: seq<seq<string>>, c: seq<string>, tok: string, before: Index, after: Index)
    requires before == IndexOf(docs + [c]) && tok !in before
    requires after == before[tok := [Posting(|docs|, 1)]]
    ensures after == IndexOf(docs + [c + [tok]])
  {
    NewPostings(docs, c, tok);
    IndexStep(docs, c, tok);
  }

  lemma {:induction false} StepNewDocument(docs: seq<seq<string>>, c: seq<string>, tok: string, before: Index, after: Index)
    requires before == IndexOf(docs + [c]) && tok in before && tok !in c
    requires after == before[tok := before[tok] + [Posting(|docs|, 1)]]
    ensures after == IndexOf(docs + [c + [tok]])
  {
    NewPostings(docs, c, tok);
    IndexStep(docs, c, tok);
  }

  lemma {:induction false} StepIncrement(docs: seq<seq<string>>, c: seq<string>, tok: string, before: Index, after: Index)
    requires before == IndexOf(docs + [c]) && tok in c
    requires tok in before && |before[tok]| > 0
    requires var last := |before[tok]| - 1;
      after == before[tok := before[tok][last := Posting(|docs|, before[tok][last].tf + 1)]]
    ensures after == IndexOf(docs + [c + [tok]])
  {
    NewPostings(docs, c, tok);
    IndexStep(docs, c, tok);
  }

  // ---------------------------------------------------------------------
  // The source's algorithm.

  /** Processes documents in order; each document is handled by
      `IndexDocument`, the body of the source's outer loop. */
  method BuildInvertedIndex(docs: seq<seq<string>>) returns (iid: Index)
    ensures iid == IndexOf(docs)
  {
    iid := map[];
    var msg := 0;
    while msg < |docs|
      invariant 0 <= msg <= |docs|
      invariant iid == IndexOf(docs[..msg])
    {
      iid := IndexDocument(iid, docs[..msg], msg, docs[msg]);
      assert docs[..msg + 1] == docs[..msg] + [docs[msg]];
      msg := msg + 1;
    }
    assert docs[..|docs|] == docs;
  }

  /** `firstInst` records, for each term already seen in the current
      document, the position of that document's pair in the term's list. */
  ghost predicate FirstInstances(firstInst: map<string, nat>, iid: Index, seen: seq<string>)
  {
    && (forall t :: t in firstInst <==> t in seen)
    && (forall t :: t in firstInst ==> t in iid && |iid[t]| > 0 && firstInst[t] == |iid[t]| - 1)
  }

  /** Adds document number `msg`, token by token. */
  method IndexDocument(iid0: Index, ghost done: seq<seq<string>>, msg: nat, toks: seq<string>)
    returns (iid: Index)
    requires msg == |done| && iid0 == IndexOf(done)
    ensures iid == IndexOf(done + [toks])
  {
    iid := iid0;
    var firstInst: map<string, nat> := map[];
    assert toks[..0] == [];
    EmptyDocument(done);
    var j := 0;
    while j < |toks|
      invariant 0 <= j <= |toks|
      invariant iid == IndexOf(done + [toks[..j]])
      invariant FirstInstances(firstInst, iid, toks[..j])
    {
      assert toks[..j + 1] == toks[..j] + [toks[j]];
      iid, firstInst := IndexToken(iid, firstInst, done, toks[..j], msg, toks[j]);
      j := j + 1;
    }
    assert toks[..|toks|] == toks;
  }

  /** One token of document `msg`: a new term gets a fresh list, a term new
      to this document gets a new pair, and a term already seen in this
      document has the count of its pair incremented in place. */
  method IndexToken(iid0: Index, firstInst0: map<string, nat>, ghost done: seq<seq<string>>,
                    ghost seen: seq<string>, msg: nat, tok: string)
    returns (iid: Index, firstInst: map<string, nat>)
    requires msg == |done| && iid0 == IndexOf(done + [seen])
    requires FirstInstances(firstInst0, iid0, seen)
    ensures iid == IndexOf(done + [seen + [tok]])
    ensures FirstInstances(firstInst, iid, seen + [tok])
  {
    iid, firstInst := iid0, firstInst0;
    if tok !in iid {
      iid := iid[tok := [Posting(msg, 1)]];
      firstInst := firstInst[tok := 0];
      StepNewTerm(done, seen, tok, iid0, iid);
    } else if tok !in firstInst {
      iid := iid[tok := iid[tok] + [Posting(msg, 1)]];
      firstInst := firstInst[tok := |iid[tok]| - 1];
      StepNewDocument(done, seen, tok, iid0, iid);
    } else {
      var currCount := iid[tok][firstInst[tok]].tf;
      iid := iid[tok := iid[tok][firstInst[tok] := Posting(msg, currCount + 1)]];
      StepIncrement(done, seen, tok, iid0, iid);
    }
    FirstInstancesStep(firstInst, iid, seen, tok);
  }

  lemma FirstInstancesStep(firstInst: map<string, nat>, iid: Index, seen: seq<string>, tok: string)
    requires forall t :: t in firstInst <==> t in seen || t == tok
    requires forall t :: t in firstInst ==> t in iid && |iid[t]| > 0 && firstInst[t] == |iid[t]| - 1
    ensures FirstInstances(firstInst, iid, seen + [tok])
  {
  }

  // ---------------------------------------------------------------------
  // What the source's docstring promises about the index.

  /** A term is a key exactly when it occurs in some document. */
  lemma {:induction false} KeysAreOccurringTerms(docs: seq<seq<string>>, t: string)
    ensures t in IndexOf(docs) <==> exists d :: 0 <= d < |docs| && t in docs[d]
  {
    VocabularyMeansOccurs(docs, t);
  }

  ghost predicate Increasing(ps: seq<Posting>)
  {
    forall i, j :: 0 <= i < j < |ps| ==> ps[i].doc < ps[j].doc
  }

  ghost predicate DocsBelow(ps: seq<Posting>, n: nat)
  {
    forall i :: 0 <= i < |ps| ==> ps[i].doc < n
  }

  /** Pairs are in strictly increasing document order (so each document is
      listed at most once) and name existing documents. */
  lemma {:induction false} PostingsIncreasing(docs: seq<seq<string>>, t: string)
    ensures Increasing(PostingsOf(docs, t)) && DocsBelow(PostingsOf(docs, t), |docs|)
  {
    if docs != [] {
      var n := |docs| - 1;
      PostingsIncreasing(docs[..n], t);
      var qs := PostingsOf(docs[..n], t);
      var ps := PostingsOf(docs, t);
      if Count(docs[n], t) > 0 {
        assert ps == qs + [Posting(n, Count(docs[n], t))];
        assert forall i :: 0 <= i < |qs| ==> ps[i] == qs[i];
        assert ps[|qs|].doc == n;
      } else {
        assert ps == qs;
      }
    }
  }

  /** Each pair names an existing document and carries the exact, positive
      number of occurrences of `t` in it. */
  ghost predicate CountsExact(docs: seq<seq<string>>, t: string, ps: seq<Posting>)
  {
    forall i :: 0 <= i < |ps| ==>
      ps[i].doc < |docs| && ps[i].tf == Count(docs[ps[i].doc], t) && ps[i].tf >= 1
  }

  /** Every document holding `t` has a pair. */
  ghost predicate Complete(docs: seq<seq<string>>, t: string, ps: seq<Posting>)
  {
    forall d :: 0 <= d < |docs| && t in docs[d] ==> exists i :: 0 <= i < |ps| && ps[i].doc == d
  }

  lemma {:induction false} PostingsExact(docs: seq<seq<string>>, t: string)
    ensures CountsExact(docs, t, PostingsOf(docs, t))
    ensures Complete(docs, t, PostingsOf(docs, t))
  {
    if docs != [] {
      var n := |docs| - 1;
      var prefix := docs[..n];
      PostingsExact(prefix, t);
      CountPositive(docs[n], t);
      var ps := PostingsOf(docs, t);
      var qs := PostingsOf(prefix, t);
      assert ps == qs + (if Count(docs[n], t) > 0 then [Posting(n, Count(docs[n], t))] else []);
      forall i | 0 <= i < |qs|
        ensures ps[i] == qs[i] && qs[i].doc < n && prefix[qs[i].doc] == docs[qs[i].doc]
      {
      }
      forall d | 0 <= d < |docs| && t in docs[d] ensures exists i :: 0 <= i < |ps| && ps[i].doc == d {
        if d < n {
          assert t in prefix[d];
          var i :| 0 <= i < |qs| && qs[i].doc == d;
          assert ps[i].doc == d;
        } else {
          assert ps[|ps| - 1].doc == d;
        }
      }
    }
  }

  /** The example of the source's docstring. */
  lemma DocstringExample()
    ensures var idx := IndexOf([["to", "be", "or", "not", "to", "be"], ["do", "be", "do", "be", "do"]]);
      && "be" in idx && idx["be"] == [Posting(0, 2), Posting(1, 2)]
      && "not" in idx && idx["not"] == [Posting(0, 1)]
  {
    var d0: seq<string> := ["to", "be", "or", "not", "to", "be"];
    var d1: seq<string> := ["do", "be", "do", "be", "do"];
    ExampleCounts0();
    ExampleCounts1();
    assert [d0, d1] == [d0] + [d1] && [d0] == [] + [d0];
    PostingsAppend([], d0, "be");
    PostingsAppend([d0], d1, "be");
    PostingsAppend([], d0, "not");
    PostingsAppend([d0], d1, "not");
    VocabularyAppend([d0], d1);
    assert "be" in Terms(d0) && "not" in Terms(d0) by {
      assert d0[1] == "be" && d0[3] == "not";
    }
  }

  lemma ExampleCounts0()
    ensures var d0: seq<string> := ["to", "be", "or", "not", "to", "be"];
      Count(d0, "be") == 2 && Count(d0, "not") == 1
  {
    var d0: seq<string> := ["to", "be", "or", "not", "to", "be"];
    assert Count(d0[6..], "be") == 0 && Count(d0[6..], "not") == 0;
    assert Count(d0[5..], "be") == 1 && Count(d0[5..], "not") == 0;
    assert Count(d0[4..], "be") == 1 && Count(d0[4..], "not") == 0;
    assert Count(d0[3..], "be") == 1 && Count(d0[3..], "not") == 1;
    assert Count(d0[2..], "be") == 1 && Count(d0[2..], "not") == 1;
    assert Count(d0[1..], "be") == 2 && Count(d0[1..], "not") == 1;
  }

  lemma ExampleCounts1()
    ensures var d1: seq<string> := ["do", "be", "do", "be", "do"];
      Count(d1, "be") == 2 && Count(d1, "not") == 0
  {
    var d1: seq<string> := ["do", "be", "do", "be", "do"];
    assert Count(d1[5..], "be") == 0 && Count(d1[5..], "not") == 0;
    assert Count(d1[4..], "be") == 0 && Count(d1[4..], "not") == 0;
    assert Count(d1[3..], "be") == 1 && Count(d1[3..], "not") == 0;
    assert Count(d1[2..], "be") == 1 && Count(d1[2..], "not") == 0;
    assert Count(d1[1..], "be") == 2 && Count(d1[1..], "not") == 0;
  }

  // ---------------------------------------------------------------------
  // Sums over the pairs of one document, used by the norms and the scores.

  /** Sum of `f(tf)` over the pairs of `ps` that name document `d`. */
  function PostingSum(ps: seq<Posting>, d: nat, f: nat -> real): real
  {
    if ps == [] then 0.0
    else
      var p := ps[|ps| - 1];
      PostingSum(ps[..|ps| - 1], d, f) + (if p.doc == d then f(p.tf) else 0.0)
  }

  /** Whether some pair of `ps` names document `d`. */
  predicate Names(ps: seq<Posting>, d: nat)
  {
    exists i :: 0 <= i < |ps| && ps[i].doc == d
  }

  lemma {:induction false} PostingSumUnnamed(ps: seq<Posting>, d: nat, f: nat -> real)
    requires !Names(ps, d)
    ensures PostingSum(ps, d, f) == 0.0
  {
    if ps != [] {
      var n := |ps| - 1;
      forall i | 0 <= i < n ensures ps[..n][i].doc != d {
        assert ps[..n][i] == ps[i];
      }
      PostingSumUnnamed(ps[..n], d, f);
    }
  }

  /** On the index of a corpus, the pairs naming document `d` contribute
      `f` of the number of occurrences of `t` in `d`; documents past the
      corpus get nothing. */
  lemma {:induction false} PostingSumOfCorpus(docs: seq<seq<string>>, t: string, d: nat, f: nat -> real)
    requires f(0) == 0.0
    ensures PostingSum(PostingsOf(docs, t), d, f) == if d < |docs| then f(Count(docs[d], t)) else 0.0
  {
    if docs != [] {
      var n := |docs| - 1;
      var prefix := docs[..n];
      PostingSumOfCorpus(prefix, t, d, f);
      var c := Count(docs[n], t);
      var qs := PostingsOf(prefix, t);
      var ps := PostingsOf(docs, t);
      if c > 0 {
        assert ps == qs + [Posting(n, c)];
        assert ps[..|ps| - 1] == qs;
      } else {
        assert ps == qs;
        assert f(c) == 0.0;
      }
      assert PostingSum(ps, d, f) == PostingSum(qs, d, f) + (if n == d then f(c) else 0.0);
      if d < n {
        assert prefix[d] == docs[d];
      }
    }
  }
}
