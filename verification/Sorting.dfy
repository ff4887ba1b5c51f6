/** Rows kept in order by insertion: what ORDER BY answers with. */
module Sorting {

  function Insert<T>(row: T, sorted: seq<T>, before: (T, T) -> bool): seq<T> {
    if sorted == [] || before(row, sorted[0]) then [row] + sorted
    else [sorted[0]] + Insert(row, sorted[1..], before)
  }

  ghost predicate Ordered<T>(rows: seq<T>, before: (T, T) -> bool) {
    forall i, j :: 0 <= i < j < |rows| ==> before(rows[i], rows[j])
  }

  ghost predicate Transitive<T(!new)>(before: (T, T) -> bool) {
    forall a, b, c :: before(a, b) && before(b, c) ==> before(a, c)
  }

  lemma {:induction false} InsertHolds<T>(row: T, sorted: seq<T>, before: (T, T) -> bool)
    ensures multiset(Insert(row, sorted, before)) == multiset(sorted) + multiset{row}
    ensures forall r :: r in Insert(row, sorted, before) <==> r in sorted || r == row
  {
    if sorted != [] {
      InsertHolds(row, sorted[1..], before);
      assert sorted == [sorted[0]] + sorted[1..];
    }
  }

  lemma {:induction false} InsertOrdered<T(!new)>(row: T, sorted: seq<T>, before: (T, T) -> bool)
    requires Transitive(before) && Ordered(sorted, before)
    requires forall k :: 0 <= k < |sorted| ==> before(row, sorted[k]) || before(sorted[k], row)
    ensures Ordered(Insert(row, sorted, before), before)
  {
    if sorted != [] && !before(row, sorted[0]) {
      var rest := Insert(row, sorted[1..], before);
      InsertOrdered(row, sorted[1..], before);
      InsertHolds(row, sorted[1..], before);
      forall k | 0 <= k < |rest| ensures before(sorted[0], rest[k]) {
        assert rest[k] in sorted[1..] || rest[k] == row;
      }
    }
  }

  /** A row keeps its position or moves back by one. */
  lemma {:induction false} InsertMovesBack<T>(row: T, sorted: seq<T>, before: (T, T) -> bool, i: nat)
    requires i < |sorted|
    ensures var inserted := Insert(row, sorted, before);
            |inserted| == |sorted| + 1 && (inserted[i] == sorted[i] || inserted[i + 1] == sorted[i])
  {
    if !before(row, sorted[0]) {
      if i > 0 {
        InsertMovesBack(row, sorted[1..], before, i - 1);
      } else {
        InsertGrows(row, sorted[1..], before);
      }
    }
  }

  lemma {:induction false} InsertGrows<T>(row: T, sorted: seq<T>, before: (T, T) -> bool)
    ensures |Insert(row, sorted, before)| == |sorted| + 1
  {
    if sorted != [] {
      InsertGrows(row, sorted[1..], before);
    }
  }
}
