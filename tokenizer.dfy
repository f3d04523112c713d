/** The tokenizer of backend/scratch.py: lowercase the text, take the maximal
    runs of ASCII letters (`re.findall("[A-Za-z]+", ...)`) and drop the
    stop words. The stop-word list is a parameter. */
module Tokenizer {
  import opened Text

  ghost predicate AllLetters(s: string)
  {
    forall i :: 0 <= i < |s| ==> IsLetter(s[i])
  }

  ghost predicate NoLetters(s: string)
  {
    forall i :: 0 <= i < |s| ==> !IsLetter(s[i])
  }

  /** Length of the longest prefix of `s` made of letters. */
  function LetterPrefix(s: string): (n: nat)
    ensures n <= |s|
    ensures forall i :: 0 <= i < n ==> IsLetter(s[i])
    ensures n < |s| ==> !IsLetter(s[n])
  {
    if s == [] || !IsLetter(s[0]) then 0 else 1 + LetterPrefix(s[1..])
  }

  /** Length of the longest prefix of `s` made of non-letters. */
  function GapPrefix(s: string): (n: nat)
    ensures n <= |s|
    ensures forall i :: 0 <= i < n ==> !IsLetter(s[i])
    ensures n < |s| ==> IsLetter(s[n])
  {
    if s == [] || IsLetter(s[0]) then 0 else 1 + GapPrefix(s[1..])
  }

  /** `re.findall("[A-Za-z]+", s)`: the letter runs of `s`, left to right. */
  function LetterRuns(s: string): seq<string>
    decreases |s|
  {
    if s == [] then []
    else if !IsLetter(s[0]) then LetterRuns(s[1..])
    else var n := LetterPrefix(s); [s[..n]] + LetterRuns(s[n..])
  }

  /** `gaps[0] + runs[0] + gaps[1] + ... + runs[k-1] + gaps[k]`. */
  function Weave(gaps: seq<string>, runs: seq<string>): string
    requires |gaps| == |runs| + 1
  {
    if runs == [] then gaps[0] else gaps[0] + runs[0] + Weave(gaps[1..], runs[1..])
  }

  /** `s` is cut into letter runs separated by letter-free gaps, and every gap
      between two runs is non-empty, so that no run can be extended. */
  ghost predicate MaximalRuns(s: string, gaps: seq<string>, runs: seq<string>)
  {
    && |gaps| == |runs| + 1
    && (forall k :: 0 <= k < |runs| ==> runs[k] != [] && AllLetters(runs[k]))
    && (forall k :: 0 <= k < |gaps| ==> NoLetters(gaps[k]))
    && (forall k :: 0 < k < |runs| ==> gaps[k] != [])
    && s == Weave(gaps, runs)
  }

  /** The gaps between the runs found by `LetterRuns`. */
  function Gaps(s: string): seq<string>
    decreases |s|
  {
    var n := GapPrefix(s);
    if n == |s| then [s]
    else
      var rest := s[n..];
      var m := LetterPrefix(rest);
      assert m > 0;
      [s[..n]] + Gaps(rest[m..])
  }

  lemma {:induction false} GapsHead(s: string)
    ensures Gaps(s) != [] && Gaps(s)[0] == s[..GapPrefix(s)]
  {
  }

  lemma TakeDrop(s: string, n: nat)
    requires n <= |s|
    ensures s == s[..n] + s[n..]
  {
  }

  lemma WeaveCons(g0: string, g: seq<string>, r0: string, r: seq<string>)
    requires |g| == |r| + 1
    ensures Weave([g0] + g, [r0] + r) == g0 + r0 + Weave(g, r)
  {
    assert ([g0] + g)[1..] == g;
    assert ([r0] + r)[1..] == r;
  }

  /** One more run in front of a maximal decomposition. */
  lemma MaximalRunsCons(s: string, gs: seq<string>, rs: seq<string>,
                        g0: string, t: string, r0: string, rest: string, g: seq<string>, r: seq<string>)
    requires gs == [g0] + g && rs == [r0] + r
    requires MaximalRuns(rest, g, r)
    requires NoLetters(g0) && r0 != [] && AllLetters(r0)
    requires r != [] ==> g[0] != []
    requires s == g0 + t && t == r0 + rest
    ensures MaximalRuns(s, gs, rs)
  {
    WeaveCons(g0, g, r0, r);
    assert g0 + (r0 + rest) == g0 + r0 + rest;
    forall k | 0 < k < |gs| ensures gs[k] == g[k - 1] { }
    forall k | 0 < k < |rs| ensures rs[k] == r[k - 1] { }
  }

  /** Skipping a letter-free prefix does not change the runs. */
  lemma {:induction false} RunsAfterGap(s: string, n: nat)
    requires n <= |s| && NoLetters(s[..n])
    ensures LetterRuns(s) == LetterRuns(s[n..])
    decreases n
  {
    if n > 0 {
      assert !IsLetter(s[..n][0]);
      assert s[..n][1..] == s[1..][..n - 1];
      RunsAfterGap(s[1..], n - 1);
      assert s[1..][n - 1..] == s[n..];
    }
  }

  lemma {:induction false} UnfoldGaps(s: string)
    requires GapPrefix(s) < |s|
    ensures var n := GapPrefix(s); Gaps(s) == [s[..n]] + Gaps(s[n..][LetterPrefix(s[n..])..])
  {
  }

  lemma {:induction false} UnfoldRun(t: string)
    requires t != [] && IsLetter(t[0])
    ensures var m := LetterPrefix(t);
      && 0 < m
      && LetterRuns(t) == [t[..m]] + LetterRuns(t[m..])
      && t == t[..m] + t[m..]
      && AllLetters(t[..m])
  {
    var m := LetterPrefix(t);
    forall i | 0 <= i < m ensures IsLetter(t[..m][i]) {
      assert t[..m][i] == t[i];
    }
  }

  /** Existence: `LetterRuns` cuts `s` into maximal runs. */
  lemma {:induction false} LetterRunsAreMaximal(s: string)
    ensures MaximalRuns(s, Gaps(s), LetterRuns(s))
    decreases |s|
  {
    var n := GapPrefix(s);
    if n < |s| {
      var m := LetterPrefix(s[n..]);
      LetterRunsAreMaximal(s[n..][m..]);
      MaximalStep(s, n, m);
    } else {
      MaximalNoRun(s);
    }
  }

  /** A gap, a run, then a string already cut into maximal runs. */
  lemma {:induction false} MaximalStep(s: string, n: nat, m: nat)
    requires n == GapPrefix(s) < |s| && m == LetterPrefix(s[n..])
    requires MaximalRuns(s[n..][m..], Gaps(s[n..][m..]), LetterRuns(s[n..][m..]))
    ensures MaximalRuns(s, Gaps(s), LetterRuns(s))
  {
    var rest := s[n..];
    var tail := rest[m..];
    var g0, r0 := s[..n], rest[..m];
    RunsAfterGap(s, n);
    UnfoldRun(rest);
    UnfoldGaps(s);
    assert LetterRuns(s) == [r0] + LetterRuns(tail);
    assert Gaps(s) == [g0] + Gaps(tail);
    TakeDrop(s, n);
    if LetterRuns(tail) != [] {
      GapsHead(tail);
      assert tail != [] && !IsLetter(tail[0]);
    }
    MaximalRunsCons(s, Gaps(s), LetterRuns(s), g0, rest, r0, tail, Gaps(tail), LetterRuns(tail));
  }

  /** A string without letters is one gap and no run. */
  lemma {:induction false} MaximalNoRun(s: string)
    requires GapPrefix(s) == |s|
    ensures MaximalRuns(s, Gaps(s), LetterRuns(s))
  {
    RunsAfterGap(s, |s|);
    assert s[..|s|] == s;
    assert s[|s|..] == [];
  }

  /** Uniqueness: any decomposition of a string into maximal runs is the one
      `LetterRuns` finds. With the lemma above, `findall("[A-Za-z]+", s)` is
      exactly the sequence of maximal letter runs of `s`. */
  lemma {:induction false} MaximalRunsAreLetterRuns(s: string, gaps: seq<string>, runs: seq<string>)
    requires MaximalRuns(s, gaps, runs)
    ensures LetterRuns(s) == runs
    decreases |runs|
  {
    RunsAfterGap(s, |gaps[0]|);
    assert s[..|gaps[0]|] == gaps[0];
    var t := s[|gaps[0]|..];
    if runs == [] {
      assert t == [];
    } else {
      var rest := Weave(gaps[1..], runs[1..]);
      assert t == runs[0] + rest;
      assert MaximalRuns(rest, gaps[1..], runs[1..]);
      MaximalRunsAreLetterRuns(rest, gaps[1..], runs[1..]);
      var n := |runs[0]|;
      assert LetterPrefix(t) == n by {
        LetterPrefixOf(t, n);
        if n < |t| {
          assert t[n] == rest[0];
          if |runs| > 1 {
            assert rest == gaps[1] + runs[1] + Weave(gaps[2..], runs[2..]);
            assert rest[0] == gaps[1][0];
          } else {
            assert rest == gaps[1];
          }
        }
      }
      assert t[0] == runs[0][0];
      assert t[..n] == runs[0] && t[n..] == rest;
    }
  }

  lemma {:induction false} LetterPrefixOf(t: string, n: nat)
    requires n <= |t|
    requires forall i :: 0 <= i < n ==> IsLetter(t[i])
    requires n < |t| ==> !IsLetter(t[n])
    ensures LetterPrefix(t) == n
    decreases n
  {
    if n > 0 {
      LetterPrefixOf(t[1..], n - 1);
    }
  }

  /** The loop of `tokenize`: keep the words that are not stop words. */
  function WithoutStopWords(words: seq<string>, stopWords: set<string>): seq<string>
  {
    if words == [] then []
    else (if words[0] in stopWords then [] else [words[0]]) + WithoutStopWords(words[1..], stopWords)
  }

  lemma {:induction false} WithoutStopWordsMembers(words: seq<string>, stopWords: set<string>)
    ensures forall w :: w in WithoutStopWords(words, stopWords) <==> w in words && w !in stopWords
  {
    if words != [] {
      WithoutStopWordsMembers(words[1..], stopWords);
      assert words == [words[0]] + words[1..];
    }
  }

  /** What `tokenize(text)` returns. */
  function Tokens(text: string, stopWords: set<string>): seq<string>
  {
    WithoutStopWords(LetterRuns(Lower(text)), stopWords)
  }

  method Tokenize(text: string, stopWords: set<string>) returns (tokenized: seq<string>)
    ensures tokenized == Tokens(text, stopWords)
  {
    var withStopWords := LetterRuns(Lower(text));
    tokenized := [];
    var k := 0;
    while k < |withStopWords|
      invariant 0 <= k <= |withStopWords|
      invariant tokenized + WithoutStopWords(withStopWords[k..], stopWords) == Tokens(text, stopWords)
    {
      var token := withStopWords[k];
      assert withStopWords[k..] == [token] + withStopWords[k + 1..];
      if token !in stopWords {
        tokenized := tokenized + [token];
      }
      k := k + 1;
    }
  }

  lemma {:induction false} LetterRunsAreWords(s: string)
    ensures forall w :: w in LetterRuns(s) ==> w != [] && AllLetters(w)
  {
    LetterRunsAreMaximal(s);
    forall w | w in LetterRuns(s) ensures w != [] && AllLetters(w) {
      var k :| 0 <= k < |LetterRuns(s)| && LetterRuns(s)[k] == w;
    }
  }

  /** The runs are made of characters of the text. */
  lemma {:induction false} LetterRunsFromText(s: string)
    ensures forall w, c :: w in LetterRuns(s) && c in w ==> c in s
    decreases |s|
  {
    if s != [] {
      if !IsLetter(s[0]) {
        LetterRunsFromText(s[1..]);
      } else {
        var n := LetterPrefix(s);
        LetterRunsFromText(s[n..]);
      }
    }
  }

  /** Every token is a non-empty word of lowercase ASCII letters that is not
      a stop word. */
  lemma {:induction false} TokensAreLowercaseWords(text: string, stopWords: set<string>)
    ensures forall w :: w in Tokens(text, stopWords) ==>
      w != [] && w !in stopWords && forall i :: 0 <= i < |w| ==> IsLower(w[i])
  {
    var s := Lower(text);
    WithoutStopWordsMembers(LetterRuns(s), stopWords);
    LetterRunsAreWords(s);
    LetterRunsFromText(s);
    forall w, i | w in Tokens(text, stopWords) && 0 <= i < |w| ensures IsLower(w[i]) {
      assert w in LetterRuns(s);
      assert IsLetter(w[i]);
      assert w[i] in w;
      var j :| 0 <= j < |s| && s[j] == w[i];
    }
  }

  /** Text without any ASCII letter has no tokens. */
  lemma {:induction false} NoLettersNoTokens(text: string, stopWords: set<string>)
    requires NoLetters(text)
    ensures Tokens(text, stopWords) == []
  {
    var s := Lower(text);
    assert NoLetters(s[..|s|]);
    RunsAfterGap(s, |s|);
    assert s[|s|..] == [];
  }
}
