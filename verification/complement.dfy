/** `get_others(df1, df2)`: the rows of `df1` that are not in `df2`, computed
    as `pd.concat([df1, df2, df2]).drop_duplicates(keep=False)`. */
module Complement {
  import opened Seqs
  import opened Table
  import opened Groups

  /** `drop_duplicates(keep=False)` on `all`: an element is kept when it occurs exactly once. */
  function Once(all: seq<Row>): Row -> bool {
    (x: Row) => multiset(all)[x] == 1
  }

  /** Occurs once in `a` and not at all in `b`. */
  function OnceAndAbsent(a: seq<Row>, b: seq<Row>): Row -> bool {
    (x: Row) => multiset(a)[x] == 1 && x !in b
  }

  function Outside(b: seq<Row>): Row -> bool {
    (x: Row) => x !in b
  }

  /** `get_others(df1, df2)`, whole-row equality (`row_num` included). Since
      every row of `df2` occurs at least twice in the concatenation, none of
      them survives; what is left are the rows that occur once in `df1` and
      not in `df2`, in `df1`'s order. */
  function GetOthers(a: seq<Row>, b: seq<Row>): (r: seq<Row>)
    ensures r == Filter(a, OnceAndAbsent(a, b))
    ensures forall x :: x in r <==> x in a && multiset(a)[x] == 1 && x !in b
  {
    var all := a + b + b;
    FilterConcat(a + b, b, Once(all));
    FilterConcat(a, b, Once(all));
    NoneSelected(a, b);
    FilterCongruent(a, Once(all), OnceAndAbsent(a, b));
    Filter(all, Once(all))
  }

  /** Every row of `b` occurs at least twice in `a + b + b`, so
      `drop_duplicates(keep=False)` keeps none of the copies of `b`. */
  lemma NoneSelected(a: seq<Row>, b: seq<Row>)
    ensures forall x :: x in b ==> multiset(a + b + b)[x] >= 2
    ensures Filter(b, Once(a + b + b)) == []
  {
    assert multiset(a + b + b) == multiset(a) + multiset(b) + multiset(b);
    forall x | x in b
      ensures multiset(a + b + b)[x] >= 2
    {
      assert x in multiset(b);
    }
    var r := Filter(b, Once(a + b + b));
    FilterCount(b, Once(a + b + b));
    assert multiset(r) == multiset{};
  }

  /** When the rows of `df1` are pairwise distinct (as `row_num` makes them),
      `get_others` is exactly the rows of `df1` not in `df2`, in `df1`'s order. */
  lemma {:induction false} OthersOfDistinct(a: seq<Row>, b: seq<Row>)
    requires Distinct(a)
    ensures GetOthers(a, b) == Filter(a, Outside(b))
  {
    forall x | x in a
      ensures OnceAndAbsent(a, b)(x) == Outside(b)(x)
    {
      DistinctOnce(a, x);
    }
    FilterCongruent(a, OnceAndAbsent(a, b), Outside(b));
  }

  /** A selection that takes each row of `rows` either wholly or not at all,
      together with its complement, gives back `rows`. */
  lemma Partition(rows: seq<Row>, d: seq<Row>)
    requires Distinct(rows)
    requires forall x :: multiset(d)[x] == 0 || multiset(d)[x] == multiset(rows)[x]
    ensures multiset(GetOthers(rows, d)) + multiset(d) == multiset(rows)
  {
    OthersOfDistinct(rows, d);
    FilterCount(rows, Outside(d));
    Members(d);
    assert forall x :: (multiset(GetOthers(rows, d)) + multiset(d))[x] == multiset(rows)[x];
  }

  /** The duplicate rows and the remaining records split the numbered table. */
  lemma DuplicatesPartition(rows: seq<Row>, cols: seq<nat>)
    requires HasColumns(rows, cols) && Distinct(rows)
    ensures multiset(GetOthers(rows, RowsOf(GetDuplicated(rows, cols)))) +
            multiset(RowsOf(GetDuplicated(rows, cols))) == multiset(rows)
  {
    Partition(rows, RowsOf(GetDuplicated(rows, cols)));
  }

  /** The group matches and the remaining records split the numbered table. */
  lemma GroupsPartition(rows: seq<Row>, labels: seq<string>)
    requires |labels| == |rows| && NumberedInOrder(rows)
    ensures multiset(GetOthers(rows, RowsOf(GetGroup(rows, labels)))) +
            multiset(RowsOf(GetGroup(rows, labels))) == multiset(rows)
  {
    assert Distinct(rows);
    Partition(rows, RowsOf(GetGroup(rows, labels)));
  }
}
