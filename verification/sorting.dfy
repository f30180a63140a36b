/** A stable sort of a sequence by a `SortKey`, standing for `sort_values`. */
module Sorting {
  import opened Order
  import opened Seqs

  /** `s` is in non-decreasing order of `key`. */
  ghost predicate SortedOn<T>(s: seq<T>, key: T -> SortKey) {
    forall i, j :: 0 <= i < j < |s| ==> KeyLe(key(s[i]), key(s[j]))
  }

  /** Puts `x` in front of the first element whose key is not below it. */
  function Insert<T>(x: T, s: seq<T>, key: T -> SortKey): (r: seq<T>)
    requires SortedOn(s, key)
    ensures multiset(r) == multiset(s) + multiset{x}
    ensures SortedOn(r, key)
  {
    if s == [] then [x]
    else if KeyLe(key(x), key(s[0])) then
      assert forall j :: 0 < j < |s| ==> KeyLe(key(x), key(s[j])) by {
        forall j | 0 < j < |s| ensures KeyLe(key(x), key(s[j])) {
          KeyLeTrans(key(x), key(s[0]), key(s[j]));
        }
      }
      [x] + s
    else
      var rest := Insert(x, s[1..], key);
      assert s == [s[0]] + s[1..];
      assert forall y :: y in rest ==> KeyLe(key(s[0]), key(y)) by {
        KeyLeTotal(key(x), key(s[0]));
        forall y | y in rest ensures KeyLe(key(s[0]), key(y)) {
          assert y in multiset(rest);
          if y != x {
            assert y in multiset(s[1..]);
            var j :| 0 <= j < |s[1..]| && s[1..][j] == y;
            assert s[j + 1] == y;
          }
        }
      }
      [s[0]] + rest
  }

  /** Insertion sort: a permutation of `s` in non-decreasing key order. Equal
      keys keep their relative order (`SortOnStable`). */
  function SortOn<T>(s: seq<T>, key: T -> SortKey): (r: seq<T>)
    ensures multiset(r) == multiset(s)
    ensures SortedOn(r, key)
  {
    if s == [] then []
    else
      assert s == [s[0]] + s[1..];
      Insert(s[0], SortOn(s[1..], key), key)
  }

  /** The elements whose key is `k`. */
  function WithKey<T>(key: T -> SortKey, k: SortKey): T -> bool {
    (y: T) => key(y) == k
  }

  /** `x` goes after every element whose key is below its own and in front of
      the others, so among the elements with key `k` it comes first. */
  lemma {:induction false} InsertStable<T(!new)>(x: T, s: seq<T>, key: T -> SortKey, k: SortKey)
    requires SortedOn(s, key)
    ensures Filter(Insert(x, s, key), WithKey(key, k)) ==
            (if key(x) == k then [x] else []) + Filter(s, WithKey(key, k))
    decreases |s|
  {
    var p := WithKey(key, k);
    if s == [] {
      assert Insert(x, s, key) == [x];
    } else {
      FilterFirst(s, p);
      if KeyLe(key(x), key(s[0])) {
        assert Insert(x, s, key) == [x] + s;
        FilterFirst([x] + s, p);
        assert ([x] + s)[1..] == s;
      } else {
        var rest := Insert(x, s[1..], key);
        assert Insert(x, s, key) == [s[0]] + rest;
        assert SortedOn(s[1..], key);
        InsertStable(x, s[1..], key, k);
        KeyLeTotal(key(x), key(x));
        FilterSwap(s[0], x, rest, Filter(s[1..], p), p);
      }
    }
  }

  /** Filtering `[y] + rest`, where `rest` filters to `x` (when selected)
      before `t`, and `y` is not selected when `x` is. */
  lemma FilterSwap<T(!new)>(y: T, x: T, rest: seq<T>, t: seq<T>, p: T -> bool)
    requires Filter(rest, p) == (if p(x) then [x] else []) + t
    requires p(x) ==> !p(y)
    ensures Filter([y] + rest, p) == (if p(x) then [x] else []) + ((if p(y) then [y] else []) + t)
  {
    FilterFirst([y] + rest, p);
    assert ([y] + rest)[1..] == rest;
  }

  /** One step of `Filter`. */
  lemma FilterFirst<T(!new)>(s: seq<T>, p: T -> bool)
    requires s != []
    ensures Filter(s, p) == (if p(s[0]) then [s[0]] else []) + Filter(s[1..], p)
  {
  }

  /** The sort is stable: for every key, the elements with that key appear in
      the result in the order they have in the input. */
  lemma {:induction false} SortOnStable<T(!new)>(s: seq<T>, key: T -> SortKey, k: SortKey)
    ensures Filter(SortOn(s, key), WithKey(key, k)) == Filter(s, WithKey(key, k))
    decreases |s|
  {
    if s != [] {
      SortOnStable(s[1..], key, k);
      InsertStable(s[0], SortOn(s[1..], key), key, k);
    }
  }
}
