# string-search, modelled in Dafny

`string-search` is a small Streamlit application (`app.py`) that loads a CSV
file into a pandas data frame and offers three views of it: a **search** of one
column ('Starts with', 'Contains' or 'Most similar'), the **duplicates** on a
set of columns, and the **group matches** of one column (rows whose values a
string-clustering library puts in the same cluster). Duplicates and group
matches can each be complemented by the **remaining records**.

This project models the data logic behind those views as pure functions over
immutable values, and proves what each view contains, in what order, and with
which `set` numbers.

- `Text` (text.dfy): ASCII lowercasing, the column-name formatter of
  `load_data`, prefix and substring tests, and Python's string order.
- `Order` (order.dfy): Python's tuple order on tuples of strings, and the
  sort key `(fields, row_num)`.
- `Sorting` (sorting.dfy): one stable insertion sort on such keys, which stands for every
  `sort_values` in the program.
- `Seqs` (seqs.dfy): filtering (a boolean mask), mapping, and counting lemmas.
- `Table` (table.dfy): the loaded table, the renamed header, and the numbered
  copy `dfn` whose rows carry `row_num` 1..n.
- `Search` (search.dfy): `get_matches` for 'Starts with' and 'Contains', and
  the empty-query short-circuit of the search section.
- `Groups` (groups.dfy): `get_duplicated` and `get_group`, which share one
  pipeline: keep the rows whose key occurs at least twice, sort by
  (key, `row_num`), and tag each row with the dense rank `set` of its key.
- `Complement` (complement.dfy): `get_others` as
  `concat([df1, df2, df2]).drop_duplicates(keep=False)`, and the proof that
  a view and its remaining records split the numbered table.

A row of `dfn` is `Row(num, cells)`: `num` is `row_num` and `cells` holds the
values of the original columns in header order. Columns are addressed by their
position in the header. The model treats every cell as a string; pandas
compares the raw column types, which "## Left out" notes for numeric
columns. `duplicated(subset=cols)` in `get_duplicated` compares only the key
tuple of the selected columns (`KeyOf`). The whole-row equality of
`drop_duplicates` in `get_others` is equality of `Row` values, so `row_num`
takes part in it.

Three behaviours of the code that a reader may not expect:

- The search sorts its result by the selected column alone
  (`sort_values(by=col)`, app.py:141, 146). No `row_num` tie-break is used, and
  pandas' default sort is not stable. `GetMatches` therefore promises only the
  order on the column value, not an order among equal values.
- An empty query shows `df`, the table *without* `row_num` (app.py:71), not
  `dfn`. `SearchView` returns `Whole(body)` in that case.
- `get_others(dfn, ...)` compares whole rows including `row_num`
  (app.py:96, 117). Rows that are identical apart from `row_num` are therefore
  distinct rows of `dfn`. The complement is the plain difference of the
  numbered table (`OthersOfDistinct`).

## Model

| member | source | states |
|---|---|---|
| Text.LowerChar | app.py:130 | the result is never an ASCII capital; a capital maps to its small letter, every other character is kept |
| Text.NormaliseName | app.py:130 | the formatted name has the same length, contains no space and no capital, and each character is the lowercased original or `_` for a space |
| Text.NormaliseNameIdempotent | app.py:130 | formatting an already formatted name changes nothing |
| Text.NormaliseHeaderSpec | app.py:130-131 | after the rename no column name holds a space or a capital, and renaming again is the identity |
| Text.Lower | app.py:139 | `str.lower` on ASCII: the same length, each character lowercased, and no capital left |
| Text.IsPrefix | app.py:139 | `startswith` holds exactly when the query occurs at position 0; the empty query is a prefix of every value |
| Text.IsInfix | app.py:144 | every prefix is a substring, and a substring is never longer than the value |
| Text.IsInfixAt | app.py:144 | the recursive substring test holds exactly when the query occurs at some position of the value |
| Text.StrLeTotal | app.py:141 | Python's string order is total |
| Text.StrLeAntisym | app.py:141 | Python's string order is antisymmetric |
| Text.StrLeTrans | app.py:141 | Python's string order is transitive |
| Order.FieldsLeTotal | app.py:160 | the tuple order used by `sort_values(by=cols)` is total |
| Order.FieldsLeAntisym | app.py:160 | the tuple order is antisymmetric |
| Order.FieldsLeTrans | app.py:160 | the tuple order is transitive |
| Order.FieldsLeSingle | app.py:141 | on one-column tuples the tuple order is the string order |
| Order.KeyLeTotal | app.py:160 | the (key, `row_num`) order is total |
| Order.KeyLeAntisym | app.py:160 | the (key, `row_num`) order is antisymmetric |
| Order.KeyLeTrans | app.py:160 | the (key, `row_num`) order is transitive |
| Order.KeyLeFields | app.py:160 | sorting by (key, `row_num`) sorts by key |
| Sorting.SortOn | app.py:160 | the result is a permutation of the input (same multiset) and is sorted by the key |
| Sorting.InsertStable | app.py:160 | an inserted element comes first among the elements with its key, and the others keep their order |
| Sorting.SortOnStable | app.py:160 | the sort is stable: for every key, the elements with that key keep their input order |
| Table.LoadData | app.py:127-133 | the body is unchanged; each column name is replaced by its formatted name, position by position |
| Table.Number | app.py:54 | `dfn` has one row per row of `df`; the row at position i has `row_num` i + 1 and the cells of row i |
| Table.NumberFrom | app.py:54 | the row at position i gets number start + i and keeps its cells |
| Table.NumberSpec | app.py:53-54 | `dfn` has as many rows as `df`, its `row_num` is 1..n in order, its cells are `df`'s, and its rows are pairwise distinct |
| Table.InsertRowNum | app.py:53-54 | the insert fails exactly when a column `row_num` already exists; otherwise the header and every cell are kept and the rows are numbered 1..n |
| Table.KeyOf | app.py:160 | the key tuple has one entry per selected column, the row's value in that column |
| Search.Matches | app.py:139-144 | the mask: a value that passes contains the lowercased query; the empty query passes every value in both modes |
| Search.GetMatches | app.py:136-146 | a row is in the result iff it is in the input and its lowercased value starts with (or contains) the lowercased query; each such row is kept as often as it occurs and no other row appears; the result is ordered by the column value |
| Search.SortedByColumn | app.py:141 | a sequence sorted on the one-column key is ordered by the string order of that column |
| Search.ContainsExact | app.py:143-146 | 'Contains' keeps exactly the rows in whose lowercased value the lowercased query occurs at some position |
| Search.SearchView | app.py:66-71 | an empty query shows the loaded table unchanged; any other query shows `get_matches` on the numbered table, whose rows are exactly those whose value passes the mask |
| Groups.DenseRankOf | app.py:161 | `rank(method='dense')`: a rank is at least 1, and a key with no key below it has rank 1 |
| Groups.DenseRank | app.py:161 | tagging left to right keeps the rows and keys; the first tag is 1, and a tag repeats its predecessor's when the key repeats and is one more otherwise |
| Groups.TagsCountKeys | app.py:161 | on sorted keys the tag of position i is the number of distinct keys among positions 0..i |
| Groups.TagsAreDenseRank | app.py:161 | on sorted keys the left-to-right tag equals pandas' dense rank: one more than the number of distinct keys below |
| Groups.SortedKeys | app.py:160 | sorting on (key, `row_num`) leaves the keys in non-decreasing tuple order |
| Groups.RepeatedGroups | app.py:160-162 | the pipeline keeps every pair whose key occurs at least twice, as often as it occurs, and nothing else; sorts by (key, `row_num`); and tags each with the dense rank of its key |
| Groups.RowCount | app.py:160 | when the key is a function of the row, a row's count among rows equals its count among the keyed pairs |
| Groups.PipelineKeyedBy | app.py:160-162 | every pair the pipeline outputs still carries its row's own key |
| Groups.PipelineRowCounts | app.py:160 | the pipeline keeps a row as often as it occurs exactly when its key occurs at least twice |
| Groups.StripKeepsKeys | app.py:172-175 | dropping the key column keeps the rows, the tags and the keys recoverable from the rows |
| Groups.TagRepeated | app.py:160-162 | for any key function: the kept rows are those whose key occurs at least twice, with multiplicity; they are sorted by (key, `row_num`); the tags are the dense rank of the key |
| Groups.StrictlySorted | app.py:160 | when `row_num` identifies the input rows, the result's (key, `row_num`) order is strict, so the result is fully determined |
| Groups.GetDuplicated | app.py:158-164 | a row is in the result iff it is in the input and its tuple of selected values occurs at least twice; every occurrence is kept; the result is sorted by (tuple, `row_num`), strictly when `row_num` is unique; `set` is the dense rank of the tuple |
| Groups.LabelBy | app.py:170 | `dfn['deduplicated'] = labels`: one pair per row, the row at position i paired with the i-th label |
| Groups.LabelCount | app.py:170-172 | on the numbered table a label occurs among the rows' label tuples as often as among the labels |
| Groups.SingletonCount | app.py:172 | one-column tuples are counted as their single value |
| Groups.GetGroup | app.py:167-177 | on the numbered table: a row is kept iff its cluster label is shared with another row (`len(x) > 1`); the result is sorted strictly by (label, `row_num`); `set` is the dense rank of the label; the label column is dropped |
| Groups.GroupIsTagRepeated | app.py:169-172 | assigning labels by position is assigning by `row_num` on the numbered table, so `get_group` is the shared pipeline on the label key |
| Complement.GetOthers | app.py:181-183 | the result is `df1` filtered to the rows that occur exactly once in `df1` and not at all in `df2`, in `df1`'s order |
| Complement.NoneSelected | app.py:183 | every row of `df2` occurs at least twice in `df1 + df2 + df2`, so `drop_duplicates(keep=False)` keeps none of the copies of `df2` |
| Complement.OthersOfDistinct | app.py:183 | when the rows of `df1` are pairwise distinct, the result is exactly the rows of `df1` not in `df2`, in order |
| Complement.Partition | app.py:183 | a selection taking each row wholly or not at all, plus its remaining records, is the whole table (as multisets) |
| Complement.DuplicatesPartition | app.py:94-98 | the duplicates view and its remaining records together are exactly the numbered table |
| Complement.GroupsPartition | app.py:115-119 | the group-matches view and its remaining records together are exactly the numbered table |

## Left out

- The Streamlit user interface (sidebar, expanders, select boxes, check boxes, `write_footer`) is not modelled: it is presentation only.
- Reading files (`listdir`, the uploader, `pd.read_csv`) is not modelled; the parsed table is an input (`Frame`).
- `download_file` and its base64 link are not modelled: they are output formatting only.
- `@st.cache` is not modelled: it memoises and does not change results.
- The 'Most similar' search (app.py:148-153) and `string_grouper` are not modelled. They are calls into a library whose source is not part of this model. `Mode` has only the two exact modes.
- Group labels from `group_similar_strings` (app.py:170) are an input of `GetGroup`, one label per row in row order.
- Missing values (NaN) and `astype(str)` conversion are not modelled: every cell is already a string.
- Numeric columns are compared as strings. pandas would sort a numeric column by number, and the model sorts by the string order.
- Text.Lower: lowercases ASCII capitals only, not the whole of Unicode as Python's `str.lower` does.
- Search.ContainsExact: treats the query as a literal substring; `str.contains` would read it as a regular expression.
- Search.GetMatches: promises no order among rows with equal values in the column, because pandas' default sort is not stable; the model's sort is stable (`SortOnStable`), but the contract does not pass that on.
- Table.LoadData: the model assumes the formatted column names are distinct. The formatter can map two names to one ("First Name" and "first name" both become `first_name`); pandas keeps both columns, so `df[col]` is then a two-column frame, the search's `.str` access fails, and in `get_duplicated` the key picks up both columns and `sort_values(by=cols+['row_num'])` (app.py:160) then fails on the non-unique label, so no result is returned.
- Groups.GetDuplicated: the name-to-position column lookup and its `KeyError` are not modelled; the selected columns are positions that every row has.
- Groups.GetDuplicated: the `ValueError` when a `set` column already exists is not modelled; `set` is kept beside the row rather than inserted into it.
- Groups.GetGroup: its contract is stated for the numbered table, where `row_num` is 1..n in order. The code pairs labels with rows by index, and on the numbered table index and `row_num` agree.
- Groups.GetGroup: the `ValueError` when a `set` column already exists (app.py:174) is not modelled; `set` is kept beside the row rather than inserted into it.
- Groups.GetGroup: overwriting an existing `deduplicated` column is not modelled.
- Complement.GetOthers: the order of the result is the order of `df1`. The index labels pandas keeps are not modelled.
