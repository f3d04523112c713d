/** The edit-distance matcher of backend/scratch.py: the Wagner-Fischer table
    with the unit costs the file defines, the distance of two lowercased
    strings, and the search that scores every message and sorts the pairs by
    distance. */
module EditDistance {
  import opened Text
  import opened Sorting

  // ---------------------------------------------------------------------
  // Costs.

  /** Inserting any letter costs one. */
  function InsertionCost(message: string, j: nat): int { 1 }

  /** Deleting any letter costs one. */
  function DeletionCost(query: string, i: nat): int { 1 }

  /** Replacing the `i`-th letter of the query by the `j`-th of the message
      (both counted from one) is free exactly when they are equal. */
  function SubstitutionCost(query: string, message: string, i: nat, j: nat): (r: int)
    requires 1 <= i <= |query| && 1 <= j <= |message|
    ensures r == 0 <==> query[i - 1] == message[j - 1]
    ensures r == 0 || r == 1
  {
    if query[i - 1] == message[j - 1] then 0 else 1
  }

  /** `min(a, b, c)`. */
  function Min3(a: int, b: int, c: int): (r: int)
    ensures r <= a && r <= b && r <= c
    ensures r == a || r == b || r == c
  {
    if a <= b && a <= c then a else if b <= c then b else c
  }

  // ---------------------------------------------------------------------
  // The recurrence.

  /** Cell `(i, j)` of the edit matrix: the first column and row are prefix
      sums of deletion and insertion costs, every other cell the cheapest of
      the three moves into it. */
  function Cell(q: string, m: string, i: nat, j: nat): int
    requires i <= |q| && j <= |m|
    decreases i + j
  {
    if i == 0 && j == 0 then 0
    else if j == 0 then Cell(q, m, i - 1, 0) + DeletionCost(q, i)
    else if i == 0 then Cell(q, m, 0, j - 1) + InsertionCost(m, j)
    else Min3(Cell(q, m, i - 1, j) + DeletionCost(q, i),
              Cell(q, m, i, j - 1) + InsertionCost(m, j),
              Cell(q, m, i - 1, j - 1) + SubstitutionCost(q, m, i, j))
  }

  /** The edit distance of two strings: the last cell of their matrix. */
  function Distance(a: string, b: string): int
  {
    Cell(a, b, |a|, |b|)
  }

  /** Under unit costs the first column counts deletions and the first row
      insertions. */
  lemma {:induction false} CellEdges(q: string, m: string, i: nat, j: nat)
    requires i <= |q| && j <= |m|
    ensures Cell(q, m, i, 0) == i
    ensures Cell(q, m, 0, j) == j
    decreases i + j
  {
    if i > 0 {
      CellEdges(q, m, i - 1, j);
    }
    if j > 0 {
      CellEdges(q, m, i, j - 1);
    }
  }

  /** A cell lies between the difference and the larger of its two prefix
      lengths. */
  lemma {:induction false} CellBounds(q: string, m: string, i: nat, j: nat)
    requires i <= |q| && j <= |m|
    ensures i - j <= Cell(q, m, i, j) && j - i <= Cell(q, m, i, j)
    ensures Cell(q, m, i, j) <= (if i <= j then j else i)
    decreases i + j
  {
    CellEdges(q, m, i, j);
    if i > 0 && j > 0 {
      CellBounds(q, m, i - 1, j);
      CellBounds(q, m, i, j - 1);
      CellBounds(q, m, i - 1, j - 1);
    }
  }

  /** A cell depends only on the two prefixes it spans. */
  lemma {:induction false} CellPrefixes(q: string, m: string, q': string, m': string, i: nat, j: nat)
    requires i <= |q| && j <= |m| && i <= |q'| && j <= |m'|
    requires forall x :: 0 <= x < i ==> q[x] == q'[x]
    requires forall y :: 0 <= y < j ==> m[y] == m'[y]
    ensures Cell(q, m, i, j) == Cell(q', m', i, j)
    decreases i + j
  {
    if i > 0 && j > 0 {
      CellPrefixes(q, m, q', m', i - 1, j);
      CellPrefixes(q, m, q', m', i, j - 1);
      CellPrefixes(q, m, q', m', i - 1, j - 1);
      InteriorCongruent(q, m, q', m', i, j);
      assert q[i - 1] == q'[i - 1] && m[j - 1] == m'[j - 1];
    } else if i > 0 {
      CellPrefixes(q, m, q', m', i - 1, j);
    } else if j > 0 {
      CellPrefixes(q, m, q', m', i, j - 1);
    }
  }

  /** An interior cell is determined by its three predecessors and the two
      letters it compares. */
  lemma {:induction false} InteriorCongruent(q: string, m: string, q': string, m': string, i: nat, j: nat)
    requires 0 < i <= |q| && 0 < j <= |m| && i <= |q'| && j <= |m'|
    ensures q[i - 1] == q'[i - 1] && m[j - 1] == m'[j - 1] &&
            Cell(q, m, i - 1, j) == Cell(q', m', i - 1, j) &&
            Cell(q, m, i, j - 1) == Cell(q', m', i, j - 1) &&
            Cell(q, m, i - 1, j - 1) == Cell(q', m', i - 1, j - 1)
            ==> Cell(q, m, i, j) == Cell(q', m', i, j)
  {
    if q[i - 1] == q'[i - 1] && m[j - 1] == m'[j - 1] {
      assert SubstitutionCost(q, m, i, j) == SubstitutionCost(q', m', i, j);
    }
  }

  /** Cell `(i, j)` is the edit distance of the prefixes `q[..i]` and
      `m[..j]`. */
  lemma CellIsPrefixDistance(q: string, m: string, i: nat, j: nat)
    requires i <= |q| && j <= |m|
    ensures Cell(q, m, i, j) == Distance(q[..i], m[..j])
  {
    CellPrefixes(q, m, q[..i], m[..j], i, j);
  }

  /** Swapping the strings transposes the matrix. */
  lemma {:induction false} CellSymmetric(q: string, m: string, i: nat, j: nat)
    requires i <= |q| && j <= |m|
    ensures Cell(q, m, i, j) == Cell(m, q, j, i)
    decreases i + j
  {
    CellEdges(q, m, i, j);
    CellEdges(m, q, j, i);
    if i > 0 && j > 0 {
      CellSymmetric(q, m, i - 1, j);
      CellSymmetric(q, m, i, j - 1);
      CellSymmetric(q, m, i - 1, j - 1);
      InteriorSymmetric(q, m, i, j);
    }
  }

  /** An interior cell and its transpose agree when their predecessors do. */
  lemma {:induction false} InteriorSymmetric(q: string, m: string, i: nat, j: nat)
    requires 0 < i <= |q| && 0 < j <= |m|
    ensures Cell(q, m, i - 1, j) == Cell(m, q, j, i - 1) &&
            Cell(q, m, i, j - 1) == Cell(m, q, j - 1, i) &&
            Cell(q, m, i - 1, j - 1) == Cell(m, q, j - 1, i - 1)
            ==> Cell(q, m, i, j) == Cell(m, q, j, i)
  {
    assert SubstitutionCost(q, m, i, j) == SubstitutionCost(m, q, j, i);
  }

  /** A cell is zero exactly when it spans two equal prefixes. */
  lemma {:induction false} CellZero(q: string, m: string, i: nat, j: nat)
    requires i <= |q| && j <= |m|
    ensures Cell(q, m, i, j) == 0 <==> i == j && q[..i] == m[..j]
    decreases i + j
  {
    CellEdges(q, m, i, j);
    if i > 0 && j > 0 {
      CellBounds(q, m, i - 1, j);
      CellBounds(q, m, i, j - 1);
      CellBounds(q, m, i - 1, j - 1);
      InteriorZero(q, m, i, j);
      CellZero(q, m, i - 1, j - 1);
      PrefixesSnoc(q, m, i, j);
    }
  }

  /** With no negative predecessor, an interior cell is zero exactly when
      its diagonal predecessor is and the two letters are equal. */
  lemma {:induction false} InteriorZero(q: string, m: string, i: nat, j: nat)
    requires 0 < i <= |q| && 0 < j <= |m|
    ensures Cell(q, m, i - 1, j) >= 0 && Cell(q, m, i, j - 1) >= 0 && Cell(q, m, i - 1, j - 1) >= 0 ==>
      (Cell(q, m, i, j) == 0 <==> Cell(q, m, i - 1, j - 1) == 0 && q[i - 1] == m[j - 1])
  {
  }

  /** Two prefixes are equal exactly when they are one shorter and equal,
      and their last letters agree. */
  lemma PrefixesSnoc(q: string, m: string, i: nat, j: nat)
    requires 0 < i <= |q| && 0 < j <= |m|
    ensures (i == j && q[..i] == m[..j]) <==> (i - 1 == j - 1 && q[..i - 1] == m[..j - 1] && q[i - 1] == m[j - 1])
  {
    assert q[..i] == q[..i - 1] + [q[i - 1]];
    assert m[..j] == m[..j - 1] + [m[j - 1]];
    if i == j && q[..i] == m[..j] {
      assert q[..i - 1] == q[..i][..i - 1];
      assert m[..j - 1] == m[..j][..j - 1];
      assert q[i - 1] == q[..i][i - 1];
      assert m[j - 1] == m[..j][j - 1];
    }
  }

  /** Row `i` of the matrix is `row`. */
  ghost predicate RowIs(q: string, m: string, i: nat, row: seq<int>)
    requires i <= |q|
  {
    |row| == |m| + 1 && forall j :: 0 <= j <= |m| ==> Cell(q, m, i, j) == row[j]
  }

  /** The first `n + 1` entries of `row` are what the recurrence computes
      for row `i` from the row `prev` above. */
  predicate RowFollows(q: string, m: string, i: nat, prev: seq<int>, row: seq<int>, n: nat)
    requires 1 <= i <= |q| && |prev| == |m| + 1 && |row| == |m| + 1 && n <= |m|
  {
    if n == 0 then row[0] == i
    else
      && RowFollows(q, m, i, prev, row, n - 1)
      && row[n] == Min3(prev[n] + 1, row[n - 1] + 1, prev[n - 1] + SubstitutionCost(q, m, i, n))
  }

  /** The first row counts insertions. */
  lemma FirstRow(q: string, m: string)
    ensures RowIs(q, m, 0, seq(|m| + 1, j => j))
  {
    forall j | 0 <= j <= |m| ensures Cell(q, m, 0, j) == j {
      CellEdges(q, m, 0, j);
    }
  }

  /** A row computed by the recurrence from the correct row above is correct:
      the matrix can be filled one row at a time. */
  lemma RowStep(q: string, m: string, i: nat, prev: seq<int>, row: seq<int>)
    requires 1 <= i <= |q| && RowIs(q, m, i - 1, prev) && |row| == |m| + 1
    requires RowFollows(q, m, i, prev, row, |m|)
    ensures RowIs(q, m, i, row)
  {
    RowPrefix(q, m, i, prev, row, |m|);
  }

  lemma {:induction false} RowPrefix(q: string, m: string, i: nat, prev: seq<int>, row: seq<int>, n: nat)
    requires 1 <= i <= |q| && RowIs(q, m, i - 1, prev) && |row| == |m| + 1
    requires n <= |m| && RowFollows(q, m, i, prev, row, n)
    ensures forall j :: 0 <= j <= n ==> Cell(q, m, i, j) == row[j]
  {
    if n == 0 {
      CellEdges(q, m, i, 0);
    } else {
      RowPrefix(q, m, i, prev, row, n - 1);
      assert Cell(q, m, i, n) == Min3(prev[n] + 1, row[n - 1] + 1, prev[n - 1] + SubstitutionCost(q, m, i, n));
    }
  }

  /** Row 1 of the "kitten"/"sitting" matrix satisfies the recurrence on row 0. */
  lemma KittenFollows1()
    ensures RowFollows("kitten", "sitting", 1, [0, 1, 2, 3, 4, 5, 6, 7], [1, 1, 2, 3, 4, 5, 6, 7], 7)
  {
  }

  /** Row 1 of the "kitten"/"sitting" matrix follows from row 0. */
  lemma KittenRow1(q: string, m: string)
    requires q == "kitten" && m == "sitting"
    requires RowIs(q, m, 0, [0, 1, 2, 3, 4, 5, 6, 7])
    ensures RowIs(q, m, 1, [1, 1, 2, 3, 4, 5, 6, 7])
  {
    KittenFollows1();
    RowStep(q, m, 1, [0, 1, 2, 3, 4, 5, 6, 7], [1, 1, 2, 3, 4, 5, 6, 7]);
  }

  /** Row 2 of the "kitten"/"sitting" matrix satisfies the recurrence on row 1. */
  lemma KittenFollows2()
    ensures RowFollows("kitten", "sitting", 2, [1, 1, 2, 3, 4, 5, 6, 7], [2, 2, 1, 2, 3, 4, 5, 6], 7)
  {
  }

  /** Row 2 of the "kitten"/"sitting" matrix follows from row 1. */
  lemma KittenRow2(q: string, m: string)
    requires q == "kitten" && m == "sitting"
    requires RowIs(q, m, 1, [1, 1, 2, 3, 4, 5, 6, 7])
    ensures RowIs(q, m, 2, [2, 2, 1, 2, 3, 4, 5, 6])
  {
    KittenFollows2();
    RowStep(q, m, 2, [1, 1, 2, 3, 4, 5, 6, 7], [2, 2, 1, 2, 3, 4, 5, 6]);
  }

  /** Row 3 of the "kitten"/"sitting" matrix satisfies the recurrence on row 2. */
  lemma KittenFollows3()
    ensures RowFollows("kitten", "sitting", 3, [2, 2, 1, 2, 3, 4, 5, 6], [3, 3, 2, 1, 2, 3, 4, 5], 7)
  {
  }

  /** Row 3 of the "kitten"/"sitting" matrix follows from row 2. */
  lemma KittenRow3(q: string, m: string)
    requires q == "kitten" && m == "sitting"
    requires RowIs(q, m, 2, [2, 2, 1, 2, 3, 4, 5, 6])
    ensures RowIs(q, m, 3, [3, 3, 2, 1, 2, 3, 4, 5])
  {
    KittenFollows3();
    RowStep(q, m, 3, [2, 2, 1, 2, 3, 4, 5, 6], [3, 3, 2, 1, 2, 3, 4, 5]);
  }

  /** Row 4 of the "kitten"/"sitting" matrix satisfies the recurrence on row 3. */
  lemma KittenFollows4()
    ensures RowFollows("kitten", "sitting", 4, [3, 3, 2, 1, 2, 3, 4, 5], [4, 4, 3, 2, 1, 2, 3, 4], 7)
  {
  }

  /** Row 4 of the "kitten"/"sitting" matrix follows from row 3. */
  lemma KittenRow4(q: string, m: string)
    requires q == "kitten" && m == "sitting"
    requires RowIs(q, m, 3, [3, 3, 2, 1, 2, 3, 4, 5])
    ensures RowIs(q, m, 4, [4, 4, 3, 2, 1, 2, 3, 4])
  {
    KittenFollows4();
    RowStep(q, m, 4, [3, 3, 2, 1, 2, 3, 4, 5], [4, 4, 3, 2, 1, 2, 3, 4]);
  }

  /** Row 5 of the "kitten"/"sitting" matrix satisfies the recurrence on row 4. */
  lemma KittenFollows5()
    ensures RowFollows("kitten", "sitting", 5, [4, 4, 3, 2, 1, 2, 3, 4], [5, 5, 4, 3, 2, 2, 3, 4], 7)
  {
  }

  /** Row 5 of the "kitten"/"sitting" matrix follows from row 4. */
  lemma KittenRow5(q: string, m: string)
    requires q == "kitten" && m == "sitting"
    requires RowIs(q, m, 4, [4, 4, 3, 2, 1, 2, 3, 4])
    ensures RowIs(q, m, 5, [5, 5, 4, 3, 2, 2, 3, 4])
  {
    KittenFollows5();
    RowStep(q, m, 5, [4, 4, 3, 2, 1, 2, 3, 4], [5, 5, 4, 3, 2, 2, 3, 4]);
  }

  /** Row 6 of the "kitten"/"sitting" matrix satisfies the recurrence on row 5. */
  lemma KittenFollows6()
    ensures RowFollows("kitten", "sitting", 6, [5, 5, 4, 3, 2, 2, 3, 4], [6, 6, 5, 4, 3, 3, 2, 3], 7)
  {
  }

  /** Row 6 of the "kitten"/"sitting" matrix follows from row 5. */
  lemma KittenRow6(q: string, m: string)
    requires q == "kitten" && m == "sitting"
    requires RowIs(q, m, 5, [5, 5, 4, 3, 2, 2, 3, 4])
    ensures RowIs(q, m, 6, [6, 6, 5, 4, 3, 3, 2, 3])
  {
    KittenFollows6();
    RowStep(q, m, 6, [5, 5, 4, 3, 2, 2, 3, 4], [6, 6, 5, 4, 3, 3, 2, 3]);
  }

  /** The textbook example: "kitten" and "sitting" are three edits apart
      (two substitutions and one insertion). */
  lemma KittenSitting()
    ensures Distance("kitten", "sitting") == 3
  {
    var q, m := "kitten", "sitting";
    FirstRow(q, m);
    assert seq(|m| + 1, j => j) == [0, 1, 2, 3, 4, 5, 6, 7];
    KittenRow1(q, m);
    KittenRow2(q, m);
    KittenRow3(q, m);
    KittenRow4(q, m);
    KittenRow5(q, m);
    KittenRow6(q, m);
    assert Cell(q, m, 6, 7) == [6, 6, 5, 4, 3, 3, 2, 3][7];
  }

  lemma DistanceToSelf(s: string)
    ensures Distance(s, s) == 0
  {
    CellZero(s, s, |s|, |s|);
  }

  lemma DistanceFromEmpty(m: string)
    ensures Distance("", m) == |m|
    ensures Distance(m, "") == |m|
  {
    CellEdges("", m, 0, |m|);
    CellEdges(m, "", |m|, 0);
  }

  lemma DistanceSymmetric(a: string, b: string)
    ensures Distance(a, b) == Distance(b, a)
  {
    CellSymmetric(a, b, |a|, |b|);
  }

  lemma DistanceZero(a: string, b: string)
    ensures Distance(a, b) == 0 <==> a == b
  {
    CellZero(a, b, |a|, |b|);
    assert a[..|a|] == a && b[..|b|] == b;
  }

  lemma DistanceBounds(a: string, b: string)
    ensures |a| - |b| <= Distance(a, b) && |b| - |a| <= Distance(a, b)
    ensures Distance(a, b) <= (if |a| <= |b| then |b| else |a|)
  {
    CellBounds(a, b, |a|, |b|);
  }

  // ---------------------------------------------------------------------
  // The table.

  /** Every filled cell of `chart` lies in the matrix and holds its value. */
  ghost predicate Correct(chart: map<(nat, nat), int>, q: string, m: string)
  {
    forall k :: k in chart ==> k.0 <= |q| && k.1 <= |m| && chart[k] == Cell(q, m, k.0, k.1)
  }

  /** The cells filled before cell `(i, j)` of the interior, row by row. */
  predicate Before(k: (nat, nat), q: string, m: string, i: nat, j: nat)
  {
    k.0 <= |q| && k.1 <= |m| && (k.0 == 0 || k.1 == 0 || k.0 < i || (k.0 == i && k.1 < j))
  }

  /** The dictionary `chart` of `edit_matrix`: one entry per cell `(i, j)`
      with `i <= |query|` and `j <= |message|`, holding the recurrence. */
  method EditMatrix(query: string, message: string) returns (chart: map<(nat, nat), int>)
    ensures forall k :: k in chart <==> k.0 <= |query| && k.1 <= |message|
    ensures forall k :: k in chart ==> chart[k] == Cell(query, message, k.0, k.1)
  {
    var m := |query| + 1;
    var n := |message| + 1;
    chart := map[(0, 0) := 0];
    for i := 1 to m
      invariant Correct(chart, query, message)
      invariant forall k :: k in chart <==> k.1 == 0 && k.0 < i
    {
      chart := chart[(i, 0) := chart[(i - 1, 0)] + DeletionCost(query, i)];
    }
    for j := 1 to n
      invariant Correct(chart, query, message)
      invariant forall k :: k in chart <==> (k.1 == 0 && k.0 < m) || (k.0 == 0 && k.1 < j)
    {
      chart := chart[(0, j) := chart[(0, j - 1)] + InsertionCost(message, j)];
    }
    for i := 1 to m
      invariant Correct(chart, query, message)
      invariant forall k :: k in chart <==> Before(k, query, message, i, 1)
    {
      chart := FillRow(chart, query, message, i);
    }
  }

  /** The inner loop of `edit_matrix`: fills row `i` left to right. */
  method FillRow(chart0: map<(nat, nat), int>, query: string, message: string, i: nat)
    returns (chart: map<(nat, nat), int>)
    requires 1 <= i <= |query|
    requires Correct(chart0, query, message)
    requires forall k :: k in chart0 <==> Before(k, query, message, i, 1)
    ensures Correct(chart, query, message)
    ensures forall k :: k in chart <==> Before(k, query, message, i + 1, 1)
  {
    chart := chart0;
    for j := 1 to |message| + 1
      invariant Correct(chart, query, message)
      invariant forall k :: k in chart <==> Before(k, query, message, i, j)
    {
      assert Before((i - 1, j), query, message, i, j);
      assert Before((i, j - 1), query, message, i, j);
      assert Before((i - 1, j - 1), query, message, i, j);
      chart := chart[(i, j) := Min3(
        chart[(i - 1, j)] + DeletionCost(query, i),
        chart[(i, j - 1)] + InsertionCost(message, j),
        chart[(i - 1, j - 1)] + SubstitutionCost(query, message, i, j))];
    }
  }

  // ---------------------------------------------------------------------
  // Distance and search.

  /** `edit_distance`: the last cell of the matrix of the lowercased
      strings. */
  method EditDistanceOf(query: string, message: string) returns (d: int)
    ensures d == Distance(Lower(query), Lower(message))
    ensures d == 0 <==> Lower(query) == Lower(message)
    ensures query == "" ==> d == |message|
  {
    var q := Lower(query);
    var m := Lower(message);
    var editDMatrix := EditMatrix(q, m);
    d := editDMatrix[(|q|, |m|)];
    DistanceZero(q, m);
    DistanceFromEmpty(m);
  }

  /** A message record; only its `text` field is read. */
  datatype Message = Message(text: string)

  /** The sort key `tup[0]`. */
  function ByDistance(p: (int, string)): real { p.0 as real }

  /** The unsorted result list: the distance and text of every message, in
      input order. */
  function Scored(query: string, msgs: seq<Message>): (r: seq<(int, string)>)
    ensures |r| == |msgs|
    ensures forall i :: 0 <= i < |msgs| ==>
      r[i] == (Distance(Lower(query), Lower(msgs[i].text)), msgs[i].text)
  {
    seq(|msgs|, i requires 0 <= i < |msgs| => (Distance(Lower(query), Lower(msgs[i].text)), msgs[i].text))
  }

  /** `edit_distance_search`: every `(distance, text)` pair, one per message,
      sorted by distance, messages at equal distance in input order. */
  method EditDistanceSearch(query: string, msgs: seq<Message>) returns (result: seq<(int, string)>)
    ensures |result| == |msgs|
    ensures multiset(result) == multiset(Scored(query, msgs))
    ensures SortedBy(result, ByDistance)
    ensures forall k :: WithKey(result, ByDistance, k) == WithKey(Scored(query, msgs), ByDistance, k)
  {
    result := [];
    for i := 0 to |msgs|
      invariant |result| == i
      invariant forall x :: 0 <= x < i ==> result[x] == Scored(query, msgs)[x]
    {
      var msg := msgs[i];
      var dist := EditDistanceOf(query, msg.text);
      result := result + [(dist, msg.text)];
    }
    assert result == Scored(query, msgs);
    var unsorted := result;
    result := SortBy(unsorted, ByDistance);
    SortBySorted(unsorted, ByDistance);
    forall k ensures WithKey(result, ByDistance, k) == WithKey(unsorted, ByDistance, k) {
      SortByStable(unsorted, ByDistance, k);
    }
  }
}
