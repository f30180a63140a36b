/** The 'Starts with' and 'Contains' searches of `get_matches`, and the
    search view of `main` that skips the search for an empty query. */
module Search {
  import opened Text
  import opened Order
  import opened Sorting
  import opened Seqs
  import opened Table

  datatype Mode = StartsWith | Contains

  /** The mask of `get_matches`: the lowercased cell starts with, or contains,
      the lowercased query. */
  predicate Matches(value: string, query: string, mode: Mode)
    ensures Matches(value, query, mode) ==> IsInfix(Lower(query), Lower(value))
    ensures query == [] ==> Matches(value, query, mode)
  {
    match mode
    case StartsWith => IsPrefix(Lower(query), Lower(value))
    case Contains => IsInfix(Lower(query), Lower(value))
  }

  /** Row `x` has column `c` and its value there passes the mask. */
  predicate Selected(x: Row, c: nat, query: string, mode: Mode) {
    c < |x.cells| && Matches(x.cells[c], query, mode)
  }

  /** `sort_values(by=col)`: the column value alone is the key. */
  function ByColumn(c: nat): Row -> SortKey {
    (x: Row) => SortKey([CellAt(x, c)], 0)
  }

  /** `get_matches(df, col, input, option)` for the two exact modes: the rows
      whose value passes the mask, each as often as it occurs, sorted by the
      column's raw value. */
  function GetMatches(rows: seq<Row>, c: nat, query: string, mode: Mode): (r: seq<Row>)
    requires HasColumn(rows, c)
    ensures HasColumn(r, c)
    ensures forall x :: x in r <==> x in rows && Selected(x, c, query, mode)
    ensures forall x :: multiset(r)[x] == if Selected(x, c, query, mode) then multiset(rows)[x] else 0
    ensures forall i, j :: 0 <= i < j < |r| ==> StrLe(r[i].cells[c], r[j].cells[c])
  {
    var kept := Filter(rows, (x: Row) => Selected(x, c, query, mode));
    FilterCount(rows, (x: Row) => Selected(x, c, query, mode));
    var sorted := SortOn(kept, ByColumn(c));
    SameMembers(sorted, kept);
    SortedByColumn(sorted, c);
    sorted
  }

  /** Sorting on `ByColumn(c)` orders the rows by the string order of column `c`. */
  lemma SortedByColumn(s: seq<Row>, c: nat)
    requires HasColumn(s, c) && SortedOn(s, ByColumn(c))
    ensures forall i, j :: 0 <= i < j < |s| ==> StrLe(s[i].cells[c], s[j].cells[c])
  {
    forall i, j | 0 <= i < j < |s|
      ensures StrLe(s[i].cells[c], s[j].cells[c])
    {
      assert KeyLe(ByColumn(c)(s[i]), ByColumn(c)(s[j]));
      FieldsLeSingle(s[i].cells[c], s[j].cells[c]);
    }
  }

  /** 'Contains' keeps exactly the rows in whose lowercased value the
      lowercased query starts at some position. */
  lemma ContainsExact(rows: seq<Row>, c: nat, query: string, x: Row)
    requires HasColumn(rows, c)
    ensures x in GetMatches(rows, c, query, Contains) <==>
      x in rows && exists i :: OccursAt(Lower(query), Lower(x.cells[c]), i)
  {
    var r := GetMatches(rows, c, query, Contains);
    if x in rows {
      IsInfixAt(Lower(query), Lower(x.cells[c]));
      assert x in r <==> IsInfix(Lower(query), Lower(x.cells[c]));
    } else {
      assert x !in r;
    }
  }

  /** What the search section shows: the table as loaded when the query is
      empty, otherwise the matching rows of the numbered table. */
  datatype View = Whole(table: seq<seq<string>>) | Found(rows: seq<Row>)

  function SearchView(body: seq<seq<string>>, c: nat, query: string, mode: Mode): (v: View)
    requires forall i :: 0 <= i < |body| ==> c < |body[i]|
    ensures query == [] ==> v == Whole(body)
    ensures query != [] ==> v == Found(GetMatches(Number(body), c, query, mode))
    ensures query != [] ==> v.Found? &&
                            forall x :: x in v.rows <==> x in Number(body) && Matches(x.cells[c], query, mode)
  {
    if query == [] then Whole(body)
    else
      NumberSpec(body);
      Found(GetMatches(Number(body), c, query, mode))
  }
}
