/** The order `sort_values(by=[...])` uses: key columns compared left to right
    as Python tuples of strings, then the integer `row_num`. */
module Order {
  import opened Text

  /** Python's `<=` on tuples of strings: the first differing field decides. */
  predicate FieldsLe(a: seq<string>, b: seq<string>)
    decreases |a|
  {
    if |a| == 0 then true
    else if |b| == 0 then false
    else if a[0] != b[0] then StrLt(a[0], b[0])
    else FieldsLe(a[1..], b[1..])
  }

  predicate FieldsLt(a: seq<string>, b: seq<string>) {
    FieldsLe(a, b) && a != b
  }

  lemma {:induction false} FieldsLeRefl(a: seq<string>)
    ensures FieldsLe(a, a)
    decreases |a|
  {
    if |a| > 0 {
      FieldsLeRefl(a[1..]);
    }
  }

  lemma {:induction false} FieldsLeTotal(a: seq<string>, b: seq<string>)
    ensures FieldsLe(a, b) || FieldsLe(b, a)
    decreases |a|
  {
    if |a| > 0 && |b| > 0 {
      if a[0] == b[0] {
        FieldsLeTotal(a[1..], b[1..]);
      } else {
        StrLeTotal(a[0], b[0]);
      }
    }
  }

  lemma {:induction false} FieldsLeAntisym(a: seq<string>, b: seq<string>)
    requires FieldsLe(a, b) && FieldsLe(b, a)
    ensures a == b
    decreases |a|
  {
    if |a| > 0 && |b| > 0 {
      if a[0] == b[0] {
        FieldsLeAntisym(a[1..], b[1..]);
        assert a == [a[0]] + a[1..] && b == [b[0]] + b[1..];
      } else {
        StrLeAntisym(a[0], b[0]);
      }
    }
  }

  lemma {:induction false} FieldsLeTrans(a: seq<string>, b: seq<string>, c: seq<string>)
    requires FieldsLe(a, b) && FieldsLe(b, c)
    ensures FieldsLe(a, c)
    decreases |a|
  {
    if |a| > 0 && |b| > 0 && |c| > 0 {
      if a[0] == b[0] && b[0] == c[0] {
        FieldsLeTrans(a[1..], b[1..], c[1..]);
      } else if a[0] == b[0] {
        // a[0] == b[0] < c[0]
      } else if b[0] == c[0] {
        // a[0] < b[0] == c[0]
      } else {
        StrLeTrans(a[0], b[0], c[0]);
        if a[0] == c[0] {
          StrLeAntisym(a[0], b[0]);
        }
      }
    }
  }

  /** For one-column keys the tuple order is the string order of that column. */
  lemma FieldsLeSingle(a: string, b: string)
    ensures FieldsLe([a], [b]) <==> StrLe(a, b)
  {
    if a == b {
      StrLeRefl(a);
      assert [a][1..] == [];
    }
  }

  /** A sort key: the values of the `by` columns, then the tie-breaking integer. */
  datatype SortKey = SortKey(fields: seq<string>, num: int)

  predicate KeyLe(x: SortKey, y: SortKey) {
    FieldsLt(x.fields, y.fields) || (x.fields == y.fields && x.num <= y.num)
  }

  /** `KeyLe` is a total order: total, antisymmetric and transitive. */
  lemma KeyLeTotal(x: SortKey, y: SortKey)
    ensures KeyLe(x, y) || KeyLe(y, x)
  {
    FieldsLeTotal(x.fields, y.fields);
  }

  lemma KeyLeAntisym(x: SortKey, y: SortKey)
    requires KeyLe(x, y) && KeyLe(y, x)
    ensures x == y
  {
    if x.fields != y.fields {
      FieldsLeAntisym(x.fields, y.fields);
    }
  }

  lemma KeyLeTrans(x: SortKey, y: SortKey, z: SortKey)
    requires KeyLe(x, y) && KeyLe(y, z)
    ensures KeyLe(x, z)
  {
    if x.fields != y.fields && y.fields != z.fields {
      FieldsLeTrans(x.fields, y.fields, z.fields);
      if x.fields == z.fields {
        FieldsLeAntisym(x.fields, y.fields);
      }
    }
  }

  /** Keys in order have their field tuples in order. */
  lemma KeyLeFields(x: SortKey, y: SortKey)
    requires KeyLe(x, y)
    ensures FieldsLe(x.fields, y.fields)
  {
    if x.fields == y.fields {
      FieldsLeRefl(x.fields);
    }
  }
}
