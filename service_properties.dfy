/**
 Properties that relate several products-service operations to one another:
 listing against lookup, writes against the listing, and the bulk check
 against soft delete and duplicate ids.
 */
module ServiceProperties {
  import opened Rpc
  import opened Pagination
  import opened Catalog
  import opened ProductsService

  // ---- findAll ----

  /** The rows `findAll` counts and lists are exactly the stored rows with
      `available = true`. */
  lemma ListingIsAvailableRows<V>(t: Table<V>, page: int, limit: int)
    requires page >= 1 && limit >= 1
    ensures forall id :: id in t ==> (t[id] in Visible(t) <==> t[id].available)
    ensures forall p :: p in Visible(t) ==> p in t.Values && p.available
    ensures FindAll(t, page, limit).metadata.total == |Visible(t)|
  {
    var rows, ids := Visible(t), VisibleIds(t);
    forall id | id in t && t[id].available ensures t[id] in rows {
      var i :| 0 <= i < |ids| && ids[i] == id;
      assert rows[i] == t[id];
    }
    forall p | p in rows ensures p in t.Values && p.available {
      var i :| 0 <= i < |rows| && rows[i] == p;
      assert ids[i] in t && p == t[ids[i]];
    }
  }

  /** Every available row is on some page: row `i` of the listing is row
      `i % limit` of page `i / limit + 1`, and that page is not past `lastPage`. */
  lemma EveryAvailableRowIsListed<V>(t: Table<V>, limit: int, i: nat)
    requires limit >= 1 && i < |Visible(t)|
    ensures var r := FindAll(t, i / limit + 1, limit);
            && i / limit + 1 <= r.metadata.lastPage
            && i % limit < |r.data|
            && r.data[i % limit] == Visible(t)[i]
  {
    var page := i / limit + 1;
    PageOfRecord(|Visible(t)|, limit, i);
    var r := FindAll(t, page, limit);
    assert Offset(page, limit) + i % limit == i;
  }

  /** A window over rows in ascending `id` order is in ascending `id` order. */
  lemma WindowKeepsOrder<V>(s: seq<Product<V>>, skip: nat, take: nat)
    requires IdsAscending(s)
    ensures IdsAscending(Window(s, skip, take))
  {
    var w := Window(s, skip, take);
    forall i, j | 0 <= i < j < |w| ensures w[i].id < w[j].id {
      assert w[i] == s[skip + i] && w[j] == s[skip + j];
    }
  }

  /** A page lists its rows in ascending id order, so no row appears twice on it. */
  lemma PageIsAscending<V>(t: Table<V>, page: int, limit: int)
    requires WellFormed(t) && page >= 1 && limit >= 1
    ensures IdsAscending(FindAll(t, page, limit).data)
  {
    VisibleAscending(t);
    WindowKeepsOrder(Visible(t), Offset(page, limit), limit);
  }

  // ---- findOne ----

  /** `findOne` finds exactly the rows `findAll` can list. */
  lemma FindOneAgreesWithListing<V>(t: Table<V>, id: int)
    requires WellFormed(t)
    ensures FindOne(t, id).Ok? <==> exists i :: 0 <= i < |Visible(t)| && Visible(t)[i].id == id
    ensures FindOne(t, id).Ok? ==> FindOne(t, id).value in Visible(t)
  {
    var rows, ids := Visible(t), VisibleIds(t);
    if FindOne(t, id).Ok? {
      assert id in ids;
      var i :| 0 <= i < |ids| && ids[i] == id;
      assert rows[i] == t[id] && rows[i].id == id;
    }
    forall i | 0 <= i < |rows| && rows[i].id == id ensures FindOne(t, id).Ok? {
      assert ids[i] in t && rows[i] == t[ids[i]];
    }
  }

  // ---- update ----

  /** `update` adds no row, deletes none and does not touch `available`, so the
      listing keeps its size and page count. */
  lemma UpdateKeepsListingShape<V>(t: Table<V>, id: int, patch: Fields<V>, page: int, limit: int)
    requires page >= 1 && limit >= 1
    ensures var t' := UpdateStep(t, id, patch).table;
            && AvailableIds(t') == AvailableIds(t)
            && FindAll(t', page, limit).metadata == FindAll(t, page, limit).metadata
  {
    var s := UpdateStep(t, id, patch);
    if s.result.Ok? {
      AvailableIdsAfterWrite(t, id, s.result.value);
      assert s.table == t[id := s.result.value];
    }
  }

  /** What `update` returns is what a `findOne` reads afterwards. */
  lemma UpdateThenFindOne<V>(t: Table<V>, id: int, patch: Fields<V>)
    ensures var s := UpdateStep(t, id, patch);
            FindOne(s.table, id) == s.result
  {
  }

  // ---- remove ----

  /** After a successful `remove`, the row is still stored but reads as missing,
      and the listing has one row fewer. */
  lemma RemoveHidesRow<V>(t: Table<V>, id: int)
    requires FindOne(t, id).Ok?
    ensures var t' := RemoveStep(t, id).table;
            && id in t'
            && FindOne(t', id) == Err(NotFound(id))
            && AvailableIds(t') == AvailableIds(t) - {id}
            && |AvailableIds(t')| == |AvailableIds(t)| - 1
  {
    var s := RemoveStep(t, id);
    AvailableIdsAfterWrite(t, id, s.result.value);
    assert s.table == t[id := s.result.value];
  }

  /** `remove` is not idempotent: a second `remove` of the same id fails with
      NotFound and changes nothing, whether or not the first one succeeded. */
  lemma {:induction false} SecondRemoveFails<V>(t: Table<V>, id: int)
    ensures var t1 := RemoveStep(t, id).table;
            RemoveStep(t1, id) == Step(t1, Err(NotFound(id)))
  {
    var t1 := RemoveStep(t, id).table;
    assert FindOne(t1, id).Err?;
  }

  /** Bulk validation checks existence, not visibility: a soft-deleted row still
      passes it, while `findOne` no longer sees it. */
  lemma RemovedRowStillValidates<V>(t: Table<V>, id: int, ids: seq<int>)
    ensures ValidateProducts(RemoveStep(t, id).table, ids).Ok? == ValidateProducts(t, ids).Ok?
    ensures FindOne(t, id).Ok? ==>
              var t' := RemoveStep(t, id).table;
              FindOne(t', id).Err? && ValidateProducts(t', [id]).Ok? && t'[id] in ValidateProducts(t', [id]).value
  {
    var t' := RemoveStep(t, id).table;
    assert t'.Keys == t.Keys;
    if FindOne(t, id).Ok? {
      var single: seq<int> := [id];
      assert single[0] in t';
    }
  }

  // ---- create ----

  /** A created row (fresh id, `available = true`) is visible to `findOne`, and
      the listing grows by exactly that row. */
  lemma CreatedRowIsVisible<V>(t: Table<V>, p: Product<V>)
    requires p.id !in t && p.available
    ensures var t' := t[p.id := p];
            && FindOne(t', p.id) == Ok(p)
            && AvailableIds(t') == AvailableIds(t) + {p.id}
            && |AvailableIds(t')| == |AvailableIds(t)| + 1
  {
    AvailableIdsAfterWrite(t, p.id, p);
  }

  /** A created row also passes the bulk existence check. */
  lemma CreatedRowValidates<V>(t: Table<V>, p: Product<V>)
    requires p.id !in t
    ensures ValidateProducts(t[p.id := p], [p.id]) == Ok([p])
  {
    var t' := t[p.id := p];
    var single: seq<int> := [p.id];
    assert single[0] in t';
    var v := ValidateProducts(t', single).value;
    assert |v| == 1 by {
      assert Elements(single) == {p.id};
    }
    assert t'[p.id] in v;
    assert v == [p];
  }

  // ---- validateProducts ----

  /** Only the set of requested ids matters: order and repetitions do not, so
      `[3, 3, 5]`, `[5, 3]` and `[3, 5]` get the same reply. */
  lemma ValidateDependsOnlyOnIdSet<V>(t: Table<V>, a: seq<int>, b: seq<int>)
    requires Elements(a) == Elements(b)
    ensures ValidateProducts(t, a) == ValidateProducts(t, b)
  {
    var da, db := Dedupe(a), Dedupe(b);
    assert (set x | x in da && x in t) == (set x | x in db && x in t) by {
      forall x ensures x in da <==> x in db {
        assert x in da <==> x in Elements(da);
        assert x in db <==> x in Elements(db);
      }
    }
  }

  /** On success the reply holds exactly one row per distinct requested id. */
  lemma ValidateOneRowPerId<V>(t: Table<V>, ids: seq<int>, v: seq<Product<V>>)
    requires WellFormed(t) && ValidateProducts(t, ids) == Ok(v)
    ensures forall k :: 0 <= k < |ids| ==>
              exists i :: 0 <= i < |v| && v[i] == t[ids[k]] && forall j :: 0 <= j < |v| && v[j].id == ids[k] ==> j == i
  {
    forall k | 0 <= k < |ids|
      ensures exists i :: 0 <= i < |v| && v[i] == t[ids[k]] && forall j :: 0 <= j < |v| && v[j].id == ids[k] ==> j == i
    {
      var x := ids[k];
      assert t[x] in v;
      var i :| 0 <= i < |v| && v[i] == t[x];
      UniqueId(v, i);
    }
  }

  /** In rows ascending by `id`, no other row has the `id` of row `i`. */
  lemma UniqueId<V>(v: seq<Product<V>>, i: int)
    requires IdsAscending(v) && 0 <= i < |v|
    ensures forall j :: 0 <= j < |v| && v[j].id == v[i].id ==> j == i
  {
  }
}
