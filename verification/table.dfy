/** A loaded table: a header of column names and rows of string cells, and
    the numbered copy `dfn` in which every row carries its `row_num`. */
module Table {
  import opened Wrappers
  import opened Text
  import opened Seqs

  /** What `pd.read_csv` produced: column names and, per row, one cell per column. */
  datatype Frame = Frame(header: seq<string>, body: seq<seq<string>>)

  /** A row of the numbered table: its `row_num` and its cells, in header order. */
  datatype Row = Row(num: int, cells: seq<string>)

  /** The numbered table `dfn`: the header of the columns after `row_num`, and the rows. */
  datatype Numbered = Numbered(header: seq<string>, rows: seq<Row>)

  /** `load_data` after parsing: every column renamed by the formatter, cells untouched. */
  function LoadData(df: Frame): (r: Frame)
    ensures r.body == df.body && |r.header| == |df.header|
    ensures forall i :: 0 <= i < |r.header| ==> r.header[i] == NormaliseName(df.header[i])
  {
    Frame(NormaliseHeader(df.header), df.body)
  }

  /** Numbers `body` consecutively from `start`. */
  function NumberFrom(body: seq<seq<string>>, start: int): (r: seq<Row>)
    ensures |r| == |body|
    ensures forall i :: 0 <= i < |r| ==> r[i] == Row(start + i, body[i])
    decreases |body|
  {
    if body == [] then [] else [Row(start, body[0])] + NumberFrom(body[1..], start + 1)
  }

  /** The rows of `dfn`: the row at position i gets `row_num` i + 1. */
  function Number(body: seq<seq<string>>): (r: seq<Row>)
    ensures |r| == |body|
    ensures forall i :: 0 <= i < |r| ==> r[i].num == i + 1 && r[i].cells == body[i]
  {
    NumberFrom(body, 1)
  }

  /** `row_num` holds 1..n in order, so it is a unique identity of each row. */
  predicate NumberedInOrder(rows: seq<Row>) {
    forall i :: 0 <= i < |rows| ==> rows[i].num == i + 1
  }

  /** The cells of each row, without `row_num`. */
  function Cells(rows: seq<Row>): (r: seq<seq<string>>)
    ensures |r| == |rows|
  {
    Map(rows, (x: Row) => x.cells)
  }

  /** Numbering keeps the row count and every cell, gives the row at position i
      the number i + 1, and makes all rows distinct. */
  lemma NumberSpec(body: seq<seq<string>>)
    ensures |Number(body)| == |body|
    ensures NumberedInOrder(Number(body))
    ensures Cells(Number(body)) == body
    ensures Distinct(Number(body))
  {
  }

  /** `dfn.insert(loc=0, column='row_num', ...)` on a copy of `df`: pandas refuses
      to insert a column whose name is already taken. */
  function InsertRowNum(df: Frame): (r: Option<Numbered>)
    ensures r.None? <==> "row_num" in df.header
    ensures r.Some? ==> r.value.header == df.header && Cells(r.value.rows) == df.body
    ensures r.Some? ==> NumberedInOrder(r.value.rows)
  {
    if "row_num" in df.header then None
    else
      NumberSpec(df.body);
      Some(Numbered(df.header, Number(df.body)))
  }

  /** Column `c` exists in every row. */
  predicate HasColumn(rows: seq<Row>, c: nat) {
    forall x :: x in rows ==> c < |x.cells|
  }

  /** Every column of `cols` exists in every row. */
  predicate HasColumns(rows: seq<Row>, cols: seq<nat>) {
    forall x, j :: x in rows && 0 <= j < |cols| ==> cols[j] < |x.cells|
  }

  /** The value of column `c` in `x` (the empty string stands in for a cell
      the row does not have, which `HasColumn` rules out). */
  function CellAt(x: Row, c: nat): string {
    if c < |x.cells| then x.cells[c] else ""
  }

  /** The key tuple `x[cols]`. */
  function KeyOf(x: Row, cols: seq<nat>): (k: seq<string>)
    ensures |k| == |cols|
    ensures forall j :: 0 <= j < |cols| && cols[j] < |x.cells| ==> k[j] == x.cells[cols[j]]
  {
    seq(|cols|, j requires 0 <= j < |cols| => CellAt(x, cols[j]))
  }
}
