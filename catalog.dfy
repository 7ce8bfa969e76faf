/**
 The `product` table the products service reads and writes: one record per integer
 `id`, each with a soft-delete flag `available` and an opaque set of domain fields.
 The table is a map from `id` to record; everything here is a pure function of it.
 */
module Catalog {

  /** Domain fields of a product (name, price, ...): field name to an opaque value. */
  type Fields<V> = map<string, V>

  /** One row of the `product` table. */
  datatype Product<V> = Product(id: int, available: bool, payload: Fields<V>)

  /** The `product` table, keyed by primary key. */
  type Table<V> = map<int, Product<V>>

  /** Every row is stored under its own primary key. */
  ghost predicate WellFormed<V>(t: Table<V>) {
    forall id :: id in t ==> t[id].id == id
  }

  /** The elements of a sequence, as a set. */
  function Elements(s: seq<int>): set<int> {
    set x | x in s
  }

  predicate Distinct(s: seq<int>) {
    forall i, j :: 0 <= i < j < |s| ==> s[i] != s[j]
  }

  predicate StrictlyIncreasing(s: seq<int>) {
    forall i, j :: 0 <= i < j < |s| ==> s[i] < s[j]
  }

  /** A set that is not empty has an element. */
  lemma HasElement(s: set<int>)
    ensures s == {} || exists y :: y in s
  {
    if forall y :: y !in s {
      assert s == {};
    }
  }

  lemma {:induction false} MinExists(s: set<int>)
    requires s != {}
    ensures exists m :: m in s && forall x :: x in s ==> m <= x
  {
    HasElement(s);
    var y :| y in s;
    if s == {y} {
      assert forall x :: x in s ==> x == y;
    } else {
      MinExists(s - {y});
      var m :| m in s - {y} && forall x :: x in s - {y} ==> m <= x;
      var least := if y < m then y else m;
      forall x | x in s ensures least <= x {
        if x != y { assert x in s - {y}; }
      }
      assert least in s;
    }
  }

  /** Putting the least element of `s` in front of the sorted rest of `s` sorts `s`. */
  lemma PrependLeast(m: int, rest: seq<int>, s: set<int>)
    requires m in s && forall x :: x in s ==> m <= x
    requires |rest| == |s - {m}| && Elements(rest) == s - {m} && StrictlyIncreasing(rest)
    ensures |[m] + rest| == |s| && Elements([m] + rest) == s && StrictlyIncreasing([m] + rest)
  {
    forall i | 0 <= i < |rest| ensures m < rest[i] {
      assert rest[i] in Elements(rest);
    }
    forall x ensures x in Elements([m] + rest) <==> x in s {
      if x != m {
        assert x in Elements([m] + rest) <==> x in Elements(rest);
      }
    }
  }

  /** The ids of a finite set in ascending order: the order in which this model
      lets the table hand out rows that a query matches. */
  function SortedIds(s: set<int>): (r: seq<int>)
    ensures |r| == |s|
    ensures Elements(r) == s
    ensures StrictlyIncreasing(r)
    decreases |s|
  {
    if s == {} then []
    else
      MinExists(s);
      var m :| m in s && forall x :: x in s ==> m <= x;
      var rest := SortedIds(s - {m});
      PrependLeast(m, rest, s);
      [m] + rest
  }

  /** The rows stored under `ids`, in the order of `ids`. */
  function Rows<V>(t: Table<V>, ids: seq<int>): (r: seq<Product<V>>)
    requires forall i :: 0 <= i < |ids| ==> ids[i] in t
    ensures |r| == |ids|
    ensures forall i :: 0 <= i < |ids| ==> r[i] == t[ids[i]]
  {
    seq(|ids|, i requires 0 <= i < |ids| => t[ids[i]])
  }

  /** Primary keys of the rows with `available = true` (the soft-delete filter). */
  function AvailableIds<V>(t: Table<V>): set<int> {
    set id | id in t && t[id].available
  }

  /** Writing row `q` under `id` changes the available ids at `id` only. */
  lemma AvailableIdsAfterWrite<V>(t: Table<V>, id: int, q: Product<V>)
    ensures AvailableIds(t[id := q]) == (AvailableIds(t) - {id}) + (if q.available then {id} else {})
  {
    var t' := t[id := q];
    forall k ensures k in AvailableIds(t') <==> k in (AvailableIds(t) - {id}) + (if q.available then {id} else {}) {
      if k != id && k in t {
        assert t'[k] == t[k];
      }
    }
  }

  /** Primary keys of the available rows, in ascending order. */
  function VisibleIds<V>(t: Table<V>): (r: seq<int>)
    ensures |r| == |AvailableIds(t)|
    ensures StrictlyIncreasing(r)
    ensures forall id :: id in r <==> id in t && t[id].available
  {
    var r := SortedIds(AvailableIds(t));
    assert forall id :: id in r <==> id in Elements(r);
    r
  }

  /** The available rows, ascending by primary key. */
  function Visible<V>(t: Table<V>): (r: seq<Product<V>>)
    ensures |r| == |AvailableIds(t)|
    ensures forall i :: 0 <= i < |r| ==> VisibleIds(t)[i] in t && r[i] == t[VisibleIds(t)[i]] && r[i].available
  {
    Rows(t, VisibleIds(t))
  }

  /** Rows in strictly ascending `id` order (so no row occurs twice). */
  predicate IdsAscending<V>(s: seq<Product<V>>) {
    forall i, j :: 0 <= i < j < |s| ==> s[i].id < s[j].id
  }

  /** In a well-formed table the listing is ascending by `id`. */
  lemma VisibleAscending<V>(t: Table<V>)
    requires WellFormed(t)
    ensures IdsAscending(Visible(t))
  {
    var rows, ids := Visible(t), VisibleIds(t);
    forall i, j | 0 <= i < j < |rows| ensures rows[i].id < rows[j].id {
      assert rows[i] == t[ids[i]] && rows[j] == t[ids[j]];
    }
  }

  /** Appending an id not yet present keeps a sequence free of duplicates. */
  lemma AppendFresh(prefix: seq<int>, last: int)
    requires Distinct(prefix) && last !in Elements(prefix)
    ensures Distinct(prefix + [last])
    ensures Elements(prefix + [last]) == Elements(prefix) + {last}
  {
    var r := prefix + [last];
    forall i, j | 0 <= i < j < |r| ensures r[i] != r[j] {
      if j == |r| - 1 {
        assert r[i] == prefix[i] && prefix[i] in Elements(prefix);
      }
    }
  }

  /** `Array.from(new Set(ids))`: each distinct id once. */
  function Dedupe(s: seq<int>): (r: seq<int>)
    ensures Distinct(r)
    ensures Elements(r) == Elements(s)
    ensures |r| == |Elements(s)|
    decreases |s|
  {
    if s == [] then []
    else
      var init := s[..|s| - 1];
      var last := s[|s| - 1];
      var prefix := Dedupe(init);
      assert Elements(s) == Elements(init) + {last} by {
        assert s == init + [last];
      }
      if last in init then
        assert last in Elements(init);
        prefix
      else
        assert last !in Elements(prefix);
        AppendFresh(prefix, last);
        prefix + [last]
  }
}
