/** The web application's title search: the per-key columns read out of the
    novel records, and the case-insensitive substring match of a query
    against the first title of every novel. */
module TitleSearch {
  import opened Text

  /** Reads one key out of every record, in record order. A record without
      the key is a lookup error in the application, hence the precondition. */
  method GetKeyInfo<V>(data: seq<map<string, V>>, key: string) returns (column: seq<V>)
    requires forall i :: 0 <= i < |data| ==> key in data[i]
    ensures |column| == |data|
    ensures forall i :: 0 <= i < |data| ==> column[i] == data[i][key]
  {
    column := [];
    for n := 0 to |data|
      invariant |column| == n
      invariant forall i :: 0 <= i < n ==> column[i] == data[i][key]
    {
      column := column + [data[n][key]];
    }
  }

  /** One search hit: the novel's list of titles and its description. */
  datatype Match = Match(title: seq<string>, descr: string)

  /** A novel matches when the lowered query occurs in its lowered first
      title and the query is not empty. */
  predicate TitleMatches(query: string, title: seq<string>)
    requires title != []
  {
    Contains(Lower(title[0]), Lower(query)) && query != ""
  }

  /** The indices among the first `n` novels that match, in ascending order. */
  function Selected(query: string, titles: seq<seq<string>>, n: nat): seq<nat>
    requires n <= |titles|
    requires forall i :: 0 <= i < |titles| ==> titles[i] != []
  {
    if n == 0 then []
    else Selected(query, titles, n - 1) + (if TitleMatches(query, titles[n - 1]) then [n - 1] else [])
  }

  /** Exactly the matching novels are selected, each below `n`. */
  lemma {:induction false} SelectedMembers(query: string, titles: seq<seq<string>>, n: nat)
    requires n <= |titles|
    requires forall i :: 0 <= i < |titles| ==> titles[i] != []
    ensures forall i: nat :: i in Selected(query, titles, n) <==> i < n && TitleMatches(query, titles[i])
  {
    if n > 0 {
      SelectedMembers(query, titles, n - 1);
    }
  }

  /** Selected indices are strictly increasing: the hits keep the order of the data. */
  lemma {:induction false} SelectedIncreasing(query: string, titles: seq<seq<string>>, n: nat)
    requires n <= |titles|
    requires forall i :: 0 <= i < |titles| ==> titles[i] != []
    ensures forall a, b :: 0 <= a < b < |Selected(query, titles, n)| ==>
      Selected(query, titles, n)[a] < Selected(query, titles, n)[b]
    ensures forall a :: 0 <= a < |Selected(query, titles, n)| ==> Selected(query, titles, n)[a] < n
  {
    if n > 0 {
      SelectedIncreasing(query, titles, n - 1);
    }
  }

  /** The empty query selects nothing, whatever the titles. */
  lemma {:induction false} EmptyQuerySelectsNothing(titles: seq<seq<string>>, n: nat)
    requires n <= |titles|
    requires forall i :: 0 <= i < |titles| ==> titles[i] != []
    ensures Selected("", titles, n) == []
  {
    if n > 0 {
      EmptyQuerySelectsNothing(titles, n - 1);
    }
  }

  /** A non-empty query equal to a first title up to case finds that novel. */
  lemma ExactTitleFound(query: string, titles: seq<seq<string>>, i: nat)
    requires i < |titles|
    requires forall k :: 0 <= k < |titles| ==> titles[k] != []
    requires query != "" && Lower(query) == Lower(titles[i][0])
    ensures i in Selected(query, titles, |titles|)
  {
    ContainsSelf(Lower(query));
    SelectedMembers(query, titles, |titles|);
  }

  /** The search over all novels: one `Match` per selected index, in index
      order. A matching novel must have a description; the application reads
      both columns from the same records, so they are equally long. */
  method JsonSearch(query: string, titles: seq<seq<string>>, descriptions: seq<string>)
      returns (matches: seq<Match>)
    requires forall i :: 0 <= i < |titles| ==> titles[i] != []
    requires forall i :: 0 <= i < |titles| && TitleMatches(query, titles[i]) ==> i < |descriptions|
    ensures |matches| == |Selected(query, titles, |titles|)|
    ensures forall k :: 0 <= k < |matches| ==>
      var i := Selected(query, titles, |titles|)[k];
      i < |titles| && i < |descriptions| && matches[k] == Match(titles[i], descriptions[i])
    ensures query == "" ==> matches == []
  {
    matches := [];
    for n := 0 to |titles|
      invariant |matches| == |Selected(query, titles, n)|
      invariant forall k :: 0 <= k < |matches| ==>
        var i := Selected(query, titles, n)[k];
        i < |titles| && i < |descriptions| && matches[k] == Match(titles[i], descriptions[i])
    {
      SelectedIncreasing(query, titles, n);
      if Contains(Lower(titles[n][0]), Lower(query)) && query != "" {
        matches := matches + [Match(titles[n], descriptions[n])];
      }
    }
    SelectedIncreasing(query, titles, |titles|);
    if query == "" {
      EmptyQuerySelectsNothing(titles, |titles|);
    }
  }
}
