/** `get_duplicated` and `get_group`: keep the rows whose key occurs at least
    twice, sort them by (key, `row_num`) and tag each with the dense rank
    `set` of its key. The two share one pipeline over rows paired with keys;
    they differ only in where the key comes from (the key columns, or the
    cluster label of the row). */
module Groups {
  import opened Order
  import opened Sorting
  import opened Seqs
  import opened Table

  /** A row with the key it is grouped by. */
  datatype Keyed = Keyed(key: seq<string>, row: Row)

  /** A row of the pipeline's result: its `set`, its key and the row. */
  datatype Ranked = Ranked(setId: int, key: seq<string>, row: Row)

  /** A row of `get_duplicated` / `get_group`'s result: `set` in front of the row. */
  datatype Tagged = Tagged(setId: int, row: Row)

  /** `x`'s key occurs at least twice among the keys of `ks`. */
  predicate Repeated(ks: seq<Keyed>, x: Keyed) {
    multiset(Keys(ks))[x.key] >= 2
  }

  /** `sort_values(by=key + ['row_num'])`. */
  function ByKeyThenNum(x: Keyed): SortKey {
    SortKey(x.key, x.row.num)
  }

  function Keys(ks: seq<Keyed>): (r: seq<seq<string>>)
    ensures |r| == |ks|
  {
    Map(ks, (x: Keyed) => x.key)
  }

  function Unrank(r: seq<Ranked>): (s: seq<Keyed>)
    ensures |s| == |r|
    ensures forall i :: 0 <= i < |r| ==> s[i] == Keyed(r[i].key, r[i].row)
  {
    Map(r, (y: Ranked) => Keyed(y.key, y.row))
  }

  /** `rank(method='dense')` as pandas defines it: one more than the number of
      distinct keys in `keys` strictly below `k`. */
  function DenseRankOf(keys: seq<seq<string>>, k: seq<string>): (rank: int)
    ensures rank >= 1
    ensures (forall j :: 0 <= j < |keys| ==> !FieldsLt(keys[j], k)) ==> rank == 1
  {
    |set j | 0 <= j < |keys| && FieldsLt(keys[j], k) :: keys[j]| + 1
  }

  /** The keys are in non-decreasing tuple order. */
  ghost predicate KeysSorted(keys: seq<seq<string>>) {
    forall i, j :: 0 <= i < j < |keys| ==> FieldsLe(keys[i], keys[j])
  }

  /** Tags a sequence sorted by key, left to right: the first row gets 1, a row
      with the key of its predecessor gets its predecessor's `set`, any other
      row the next number. */
  function DenseRank(ks: seq<Keyed>): (r: seq<Ranked>)
    ensures Unrank(r) == ks
    ensures |r| > 0 ==> r[0].setId == 1
    ensures forall i :: 0 < i < |r| ==>
      r[i].setId == if r[i].key == r[i - 1].key then r[i - 1].setId else r[i - 1].setId + 1
    decreases |ks|
  {
    if ks == [] then []
    else
      var prefix := DenseRank(ks[..|ks| - 1]);
      var last := ks[|ks| - 1];
      var id :=
        if prefix == [] then 1
        else if last.key == prefix[|prefix| - 1].key then prefix[|prefix| - 1].setId
        else prefix[|prefix| - 1].setId + 1;
      var r := prefix + [Ranked(id, last.key, last.row)];
      assert Unrank(r) == ks by {
        assert Unrank(prefix) == ks[..|ks| - 1];
        forall i | 0 <= i < |ks| ensures Unrank(r)[i] == ks[i] {
          if i < |ks| - 1 {
            assert Unrank(prefix)[i] == ks[i];
          }
        }
      }
      r
  }

  /** The distinct keys among the first `n` elements. */
  function KeysUpTo(keys: seq<seq<string>>, n: nat): set<seq<string>>
    requires n <= |keys|
  {
    set j | 0 <= j < n :: keys[j]
  }

  /** `ids` tags `keys` as `DenseRank` does: 1 first, the same number for the
      key of the predecessor, otherwise the next number. */
  ghost predicate TaggedLeftToRight(keys: seq<seq<string>>, ids: seq<int>) {
    && |ids| == |keys|
    && (|ids| > 0 ==> ids[0] == 1)
    && (forall i :: 0 < i < |ids| ==> ids[i] == if keys[i] == keys[i - 1] then ids[i - 1] else ids[i - 1] + 1)
  }

  /** On sorted keys the left-to-right tags count the distinct keys seen so far. */
  lemma {:induction false} TagsCountKeys(keys: seq<seq<string>>, ids: seq<int>, i: nat)
    requires KeysSorted(keys) && TaggedLeftToRight(keys, ids) && i < |keys|
    ensures ids[i] == |KeysUpTo(keys, i + 1)|
  {
    if i == 0 {
      assert KeysUpTo(keys, 1) == {keys[0]};
    } else {
      TagsCountKeys(keys, ids, i - 1);
      assert KeysUpTo(keys, i + 1) == KeysUpTo(keys, i) + {keys[i]};
      if keys[i] == keys[i - 1] {
        assert keys[i - 1] in KeysUpTo(keys, i);
        assert KeysUpTo(keys, i) + {keys[i]} == KeysUpTo(keys, i);
      } else {
        forall j | 0 <= j < i
          ensures keys[j] != keys[i]
        {
          if j < i - 1 && keys[j] == keys[i] {
            FieldsLeAntisym(keys[i - 1], keys[i]);
          }
        }
        assert keys[i] !in KeysUpTo(keys, i);
      }
    }
  }

  /** On sorted keys the left-to-right tags are pandas' dense rank. */
  lemma TagsAreDenseRank(keys: seq<seq<string>>, ids: seq<int>, i: nat)
    requires KeysSorted(keys) && TaggedLeftToRight(keys, ids) && i < |keys|
    ensures ids[i] == DenseRankOf(keys, keys[i])
  {
    TagsCountKeys(keys, ids, i);
    var below := set j | 0 <= j < |keys| && FieldsLt(keys[j], keys[i]) :: keys[j];
    assert below == KeysUpTo(keys, i + 1) - {keys[i]} by {
      forall k | k in below
        ensures k in KeysUpTo(keys, i + 1) - {keys[i]}
      {
        var j :| 0 <= j < |keys| && FieldsLt(keys[j], keys[i]) && keys[j] == k;
        if j > i {
          FieldsLeAntisym(keys[i], keys[j]);
        }
      }
      forall k | k in KeysUpTo(keys, i + 1) - {keys[i]}
        ensures k in below
      {
        var j :| 0 <= j < i + 1 && keys[j] == k;
        assert FieldsLt(keys[j], keys[i]);
      }
    }
    assert keys[i] in KeysUpTo(keys, i + 1);
  }

  function SetIds(r: seq<Ranked>): (ids: seq<int>)
    ensures |ids| == |r|
    ensures forall i :: 0 <= i < |r| ==> ids[i] == r[i].setId
  {
    Map(r, (y: Ranked) => y.setId)
  }

  /** Sorted by (key, `row_num`) means sorted by key. */
  lemma SortedKeys(s: seq<Keyed>)
    requires SortedOn(s, ByKeyThenNum)
    ensures KeysSorted(Keys(s))
  {
    forall i, j | 0 <= i < j < |s|
      ensures FieldsLe(Keys(s)[i], Keys(s)[j])
    {
      KeyLeFields(ByKeyThenNum(s[i]), ByKeyThenNum(s[j]));
    }
  }

  /** The shared pipeline: `filter` to the rows whose key occurs at least twice
      (every occurrence kept), `sort_values` by (key, `row_num`), then the dense
      rank `set` of the key. */
  function RepeatedGroups(ks: seq<Keyed>): (r: seq<Ranked>)
    ensures forall x :: multiset(Unrank(r))[x] == if Repeated(ks, x) then multiset(ks)[x] else 0
    ensures SortedOn(Unrank(r), ByKeyThenNum)
    ensures TaggedLeftToRight(Keys(Unrank(r)), SetIds(r))
    ensures forall i :: 0 <= i < |r| ==> r[i].setId == DenseRankOf(Keys(Unrank(r)), r[i].key)
  {
    var kept := Filter(ks, (x: Keyed) => Repeated(ks, x));
    FilterCount(ks, (x: Keyed) => Repeated(ks, x));
    var sorted := SortOn(kept, ByKeyThenNum);
    var r := DenseRank(sorted);
    SortedKeys(sorted);
    assert TaggedLeftToRight(Keys(sorted), SetIds(r));
    forall i | 0 <= i < |r|
      ensures r[i].setId == DenseRankOf(Keys(sorted), r[i].key)
    {
      TagsAreDenseRank(Keys(sorted), SetIds(r), i);
      assert Unrank(r)[i] == sorted[i];
    }
    r
  }

  /** `duplicated_df[dfn.columns]`-style view: the rows without their `set`. */
  function RowsOf(t: seq<Tagged>): (rows: seq<Row>)
    ensures |rows| == |t|
    ensures forall i :: 0 <= i < |t| ==> rows[i] == t[i].row
  {
    Map(t, (y: Tagged) => y.row)
  }

  function TagIds(t: seq<Tagged>): (ids: seq<int>)
    ensures |ids| == |t|
    ensures forall i :: 0 <= i < |t| ==> ids[i] == t[i].setId
  {
    Map(t, (y: Tagged) => y.setId)
  }

  /** Drops the key column, keeping `set` and the row. */
  function Strip(r: seq<Ranked>): (t: seq<Tagged>)
    ensures |t| == |r|
    ensures forall i :: 0 <= i < |r| ==> t[i] == Tagged(r[i].setId, r[i].row)
  {
    Map(r, (y: Ranked) => Tagged(y.setId, y.row))
  }

  function RowsOfKeyed(s: seq<Keyed>): (rows: seq<Row>)
    ensures |rows| == |s|
    ensures forall i :: 0 <= i < |s| ==> rows[i] == s[i].row
  {
    Map(s, (y: Keyed) => y.row)
  }

  /** The key `f` gives each row. */
  function KeysOfRows(rows: seq<Row>, f: Row -> seq<string>): (keys: seq<seq<string>>)
    ensures |keys| == |rows|
    ensures forall i :: 0 <= i < |rows| ==> keys[i] == f(rows[i])
  {
    Map(rows, f)
  }

  /** `ks` pairs each row of `rows`, in order, with the key `f` gives it. */
  ghost predicate PairsWith(ks: seq<Keyed>, rows: seq<Row>, f: Row -> seq<string>) {
    |ks| == |rows| && forall i :: 0 <= i < |ks| ==> ks[i] == Keyed(f(rows[i]), rows[i])
  }

  /** Every element's key is the one `f` gives its row. */
  ghost predicate KeyedBy(s: seq<Keyed>, f: Row -> seq<string>) {
    forall y :: y in s ==> y.key == f(y.row)
  }

  /** When the key is a function of the row, a row occurs among the rows as
      often as it occurs, paired with its key, among the pairs. */
  lemma {:induction false} RowCount(s: seq<Keyed>, f: Row -> seq<string>, x: Row)
    requires KeyedBy(s, f)
    ensures multiset(RowsOfKeyed(s))[x] == multiset(s)[Keyed(f(x), x)]
    decreases |s|
  {
    if s != [] {
      RowCount(s[1..], f, x);
      assert s == [s[0]] + s[1..];
      assert RowsOfKeyed(s) == [s[0].row] + RowsOfKeyed(s[1..]);
    }
  }

  /** Pairs each row with the key `f` gives it. */
  function PairUp(rows: seq<Row>, f: Row -> seq<string>): (ks: seq<Keyed>)
    ensures PairsWith(ks, rows, f)
  {
    Map(rows, (x: Row) => Keyed(f(x), x))
  }

  /** What the pipeline keeps comes from its input, so its keys are still given by `f`. */
  lemma PipelineKeyedBy(ks: seq<Keyed>, rows: seq<Row>, f: Row -> seq<string>)
    requires PairsWith(ks, rows, f)
    ensures KeyedBy(Unrank(RepeatedGroups(ks)), f)
  {
    var u := Unrank(RepeatedGroups(ks));
    forall y | y in u ensures y.key == f(y.row) {
      assert y in multiset(u);
      assert y in multiset(ks);
    }
  }

  /** The pipeline keeps each row whose key occurs at least twice as often as it occurs. */
  lemma PipelineRowCounts(ks: seq<Keyed>, rows: seq<Row>, f: Row -> seq<string>, x: Row)
    requires PairsWith(ks, rows, f)
    ensures multiset(RowsOfKeyed(Unrank(RepeatedGroups(ks))))[x] ==
            if multiset(KeysOfRows(rows, f))[f(x)] >= 2 then multiset(rows)[x] else 0
  {
    var u := Unrank(RepeatedGroups(ks));
    PipelineKeyedBy(ks, rows, f);
    assert Keys(ks) == KeysOfRows(rows, f);
    assert RowsOfKeyed(ks) == rows;
    RowCount(u, f, x);
    RowCount(ks, f, x);
  }

  /** Dropping the key column loses nothing when the key is a function of the row. */
  lemma StripKeepsKeys(g: seq<Ranked>, f: Row -> seq<string>)
    requires KeyedBy(Unrank(g), f)
    ensures RowsOf(Strip(g)) == RowsOfKeyed(Unrank(g))
    ensures KeysOfRows(RowsOf(Strip(g)), f) == Keys(Unrank(g))
    ensures TagIds(Strip(g)) == SetIds(g)
    ensures forall i :: 0 <= i < |g| ==> f(g[i].row) == g[i].key
  {
    forall i | 0 <= i < |g| ensures f(g[i].row) == g[i].key {
      assert Unrank(g)[i] in Unrank(g);
    }
  }

  /** `out` holds every row of `rows` whose key occurs at least twice among
      the keys of `rows`, as often as it occurs there, and no other row. */
  ghost predicate KeepsRepeated(rows: seq<Row>, f: Row -> seq<string>, out: seq<Row>) {
    forall x :: multiset(out)[x] == if multiset(KeysOfRows(rows, f))[f(x)] >= 2 then multiset(rows)[x] else 0
  }

  /** `out` is in non-decreasing (key, `row_num`) order. */
  ghost predicate SortedByKeyThenNum(out: seq<Row>, f: Row -> seq<string>) {
    forall i, j :: 0 <= i < j < |out| ==> KeyLe(SortKey(f(out[i]), out[i].num), SortKey(f(out[j]), out[j].num))
  }

  /** Each `set` is the dense rank of the row's key among the keys of `t`, and
      the tags go up by one exactly where the key changes. */
  ghost predicate DenseTags(t: seq<Tagged>, f: Row -> seq<string>) {
    && TaggedLeftToRight(KeysOfRows(RowsOf(t), f), TagIds(t))
    && forall i :: 0 <= i < |t| ==> t[i].setId == DenseRankOf(KeysOfRows(RowsOf(t), f), f(t[i].row))
  }

  /** The pipeline in terms of the rows and the key function. */
  function TagRepeated(rows: seq<Row>, f: Row -> seq<string>): (t: seq<Tagged>)
    ensures KeepsRepeated(rows, f, RowsOf(t))
    ensures SortedByKeyThenNum(RowsOf(t), f)
    ensures DenseTags(t, f)
  {
    var ks := PairUp(rows, f);
    var g := RepeatedGroups(ks);
    PipelineKeyedBy(ks, rows, f);
    StripKeepsKeys(g, f);
    forall x
      ensures multiset(RowsOf(Strip(g)))[x] ==
              if multiset(KeysOfRows(rows, f))[f(x)] >= 2 then multiset(rows)[x] else 0
    {
      PipelineRowCounts(ks, rows, f, x);
    }
    Strip(g)
  }

  /** No two rows share a `row_num`. */
  predicate NumsDistinct(rows: seq<Row>) {
    forall i, j :: 0 <= i < j < |rows| ==> rows[i].num != rows[j].num
  }

  /** `out` is in strictly increasing (key, `row_num`) order. */
  ghost predicate StrictlySortedByKeyThenNum(out: seq<Row>, f: Row -> seq<string>) {
    forall i, j :: 0 <= i < j < |out| ==>
                   KeyLe(SortKey(f(out[i]), out[i].num), SortKey(f(out[j]), out[j].num)) && out[i].num != out[j].num
  }

  /** When `row_num` identifies the rows of the input, no two rows of the result
      share a sort key, so the (key, `row_num`) order is strict and the result
      is fully determined. */
  lemma StrictlySorted(rows: seq<Row>, f: Row -> seq<string>, out: seq<Row>)
    requires NumsDistinct(rows) && KeepsRepeated(rows, f, out) && SortedByKeyThenNum(out, f)
    ensures StrictlySortedByKeyThenNum(out, f)
  {
    forall i, j | 0 <= i < j < |out|
      ensures out[i].num != out[j].num
    {
      assert Distinct(rows);
      DistinctOnce(rows, out[i]);
      if out[i] == out[j] {
        TwoOccurrences(out, i, j);
      }
      assert out[i] in multiset(out) && out[j] in multiset(out);
      assert out[i] in multiset(rows) && out[j] in multiset(rows);
      var p :| 0 <= p < |rows| && rows[p] == out[i];
      var q :| 0 <= q < |rows| && rows[q] == out[j];
      assert p != q;
    }
  }

  /** The key of `get_duplicated`: the tuple of the selected columns. */
  function ColumnsKey(cols: seq<nat>): Row -> seq<string> {
    (x: Row) => KeyOf(x, cols)
  }

  /** `get_duplicated(df, cols)`: the rows whose tuple of `cols` values occurs
      at least twice (`keep=False`: every occurrence), sorted by `cols` then
      `row_num`, each tagged with the dense rank `set` of its tuple. */
  function GetDuplicated(rows: seq<Row>, cols: seq<nat>): (t: seq<Tagged>)
    requires HasColumns(rows, cols)
    ensures forall x :: x in RowsOf(t) <==>
                        x in rows && multiset(KeysOfRows(rows, ColumnsKey(cols)))[KeyOf(x, cols)] >= 2
    ensures KeepsRepeated(rows, ColumnsKey(cols), RowsOf(t))
    ensures SortedByKeyThenNum(RowsOf(t), ColumnsKey(cols))
    ensures DenseTags(t, ColumnsKey(cols))
    ensures NumsDistinct(rows) ==> StrictlySortedByKeyThenNum(RowsOf(t), ColumnsKey(cols))
  {
    var t := TagRepeated(rows, ColumnsKey(cols));
    Members(RowsOf(t));
    Members(rows);
    if NumsDistinct(rows) then
      StrictlySorted(rows, ColumnsKey(cols), RowsOf(t));
      t
    else t
  }

  /** The cluster label of the row numbered `n` (labels are given in row order). */
  function LabelAt(labels: seq<string>, n: int): string {
    if 1 <= n <= |labels| then labels[n - 1] else ""
  }

  /** The key of `get_group`: the one-column tuple of the row's cluster label. */
  function LabelKey(labels: seq<string>): Row -> seq<string> {
    (x: Row) => [LabelAt(labels, x.num)]
  }

  /** `dfn['deduplicated'] = labels`: each row paired, by position, with its label. */
  function LabelBy(rows: seq<Row>, labels: seq<string>): (ks: seq<Keyed>)
    requires |labels| == |rows|
    ensures |ks| == |rows|
    ensures forall i :: 0 <= i < |rows| ==> ks[i] == Keyed([labels[i]], rows[i])
  {
    seq(|rows|, i requires 0 <= i < |rows| => Keyed([labels[i]], rows[i]))
  }

  /** A label occurs among the labels as often as its one-column tuple among the keys. */
  lemma {:induction false} LabelCount(rows: seq<Row>, labels: seq<string>, l: string)
    requires |labels| == |rows| && NumberedInOrder(rows)
    ensures multiset(KeysOfRows(rows, LabelKey(labels)))[[l]] == multiset(labels)[l]
  {
    var keys := KeysOfRows(rows, LabelKey(labels));
    assert forall i :: 0 <= i < |rows| ==> keys[i] == [labels[i]];
    SingletonCount(keys, labels, l);
  }

  lemma LabelCounts(rows: seq<Row>, labels: seq<string>)
    requires |labels| == |rows| && NumberedInOrder(rows)
    ensures forall l :: multiset(KeysOfRows(rows, LabelKey(labels)))[[l]] == multiset(labels)[l]
  {
    forall l ensures multiset(KeysOfRows(rows, LabelKey(labels)))[[l]] == multiset(labels)[l] {
      LabelCount(rows, labels, l);
    }
  }

  lemma {:induction false} SingletonCount(keys: seq<seq<string>>, labels: seq<string>, l: string)
    requires |keys| == |labels| && forall i :: 0 <= i < |keys| ==> keys[i] == [labels[i]]
    ensures multiset(keys)[[l]] == multiset(labels)[l]
    decreases |keys|
  {
    if keys != [] {
      SingletonCount(keys[1..], labels[1..], l);
      assert keys == [keys[0]] + keys[1..];
      assert labels == [labels[0]] + labels[1..];
    }
  }

  /** `get_group(df, col)` after the clustering: `labels` holds the cluster label
      of each row. Keeps the rows whose label is shared with another row, sorts
      them by (label, `row_num`), tags each with the dense rank `set` of its
      label and drops the label column. */
  function GetGroup(rows: seq<Row>, labels: seq<string>): (t: seq<Tagged>)
    requires |labels| == |rows|
    ensures NumberedInOrder(rows) ==>
              forall x :: x in RowsOf(t) <==> x in rows && multiset(labels)[LabelAt(labels, x.num)] >= 2
    ensures NumberedInOrder(rows) ==> KeepsRepeated(rows, LabelKey(labels), RowsOf(t))
    ensures NumberedInOrder(rows) ==> SortedByKeyThenNum(RowsOf(t), LabelKey(labels))
    ensures NumberedInOrder(rows) ==> DenseTags(t, LabelKey(labels))
    ensures NumberedInOrder(rows) ==> StrictlySortedByKeyThenNum(RowsOf(t), LabelKey(labels))
  {
    var t := Strip(RepeatedGroups(LabelBy(rows, labels)));
    if NumberedInOrder(rows) then
      GroupIsTagRepeated(rows, labels);
      LabelCounts(rows, labels);
      Members(RowsOf(t));
      Members(rows);
      StrictlySorted(rows, LabelKey(labels), RowsOf(t));
      t
    else t
  }

  /** On the numbered table, pairing by position is pairing by `row_num`. */
  lemma GroupIsTagRepeated(rows: seq<Row>, labels: seq<string>)
    requires |labels| == |rows| && NumberedInOrder(rows)
    ensures Strip(RepeatedGroups(LabelBy(rows, labels))) == TagRepeated(rows, LabelKey(labels))
  {
    assert LabelBy(rows, labels) == PairUp(rows, LabelKey(labels));
  }

}
