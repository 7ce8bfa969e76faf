/**
 The products service: listing with pagination, single lookup, field update,
 soft delete and bulk existence validation over the `product` table.

 Queries (`FindAll`, `FindOne`, `ValidateProducts`) are functions of the table, so
 they cannot change it. The writes (`Create`, `Update`, `Remove`) are methods of
 `Service`, which holds the table; `UpdateStep` and `RemoveStep` say, as functions
 of the old table, what the new table and the reply of a write are.
 */
module ProductsService {
  import opened Rpc
  import opened Pagination
  import opened Catalog

  datatype Metadata = Metadata(total: nat, page: int, lastPage: nat)

  /** The reply of `findAll`: the page, and the listing's size and shape. */
  datatype Listing<V> = Listing(data: seq<Product<V>>, metadata: Metadata)

  /** The rows `findMany({skip, take: limit, where: {available: true}})` returns for page `page`. */
  lemma PageRows<V>(t: Table<V>, page: int, limit: int)
    requires page >= 1 && limit >= 1
    ensures var total, off := |AvailableIds(t)|, Offset(page, limit);
            var d := Window(Visible(t), off, limit);
            && |d| <= limit
            && |d| == Min(limit, if off <= total then total - off else 0)
            && (forall i :: 0 <= i < |d| ==> off + i < |Visible(t)| && d[i] == Visible(t)[off + i])
            && (forall p :: p in d ==> p.available && p in t.Values)
            && (page > LastPage(total, limit) ==> d == [])
  {
    var total, off := |AvailableIds(t)|, Offset(page, limit);
    WindowOfVisible(t, off, limit);
    if page > LastPage(total, limit) {
      BeyondLastPage(total, page, limit);
    }
  }

  /** `findAll({page, limit})`: page `page` of the available rows, `limit` rows a page. */
  function FindAll<V(==)>(t: Table<V>, page: int, limit: int): (r: Listing<V>)
    requires page >= 1 && limit >= 1
    ensures r.metadata.total == |AvailableIds(t)|
    ensures r.metadata.page == page
    ensures r.metadata.lastPage == LastPage(r.metadata.total, limit)
    ensures |r.data| <= limit
    ensures |r.data| == Min(limit, if Offset(page, limit) <= r.metadata.total then r.metadata.total - Offset(page, limit) else 0)
    ensures forall i :: 0 <= i < |r.data| ==>
              Offset(page, limit) + i < |Visible(t)| && r.data[i] == Visible(t)[Offset(page, limit) + i]
    ensures forall p :: p in r.data ==> p.available && p in t.Values
    ensures page > r.metadata.lastPage ==> r.data == []
  {
    var total := |AvailableIds(t)|;
    var lastPage := LastPage(total, limit);
    PageRows(t, page, limit);
    Listing(Window(Visible(t), Offset(page, limit), limit), Metadata(total, page, lastPage))
  }

  /** Every row of a window over the listing is an available row of the table. */
  lemma WindowOfVisible<V>(t: Table<V>, skip: nat, take: nat)
    ensures forall p :: p in Window(Visible(t), skip, take) ==> p.available && p in t.Values
  {
    var rows, ids := Visible(t), VisibleIds(t);
    var data := Window(rows, skip, take);
    forall i | 0 <= i < |data| ensures data[i].available && data[i] in t.Values {
      var k := skip + i;
      assert data[i] == rows[k];
      assert ids[k] in t && rows[k] == t[ids[k]];
    }
  }

  /** `findOne(id)`: the row `id` when it is present and available. A missing row
      and a soft-deleted one give the same error. */
  function FindOne<V>(t: Table<V>, id: int): (r: Result<Product<V>>)
    ensures r.Ok? <==> id in t && t[id].available
    ensures r.Ok? ==> r.value == t[id]
    ensures r.Err? ==> r.error == NotFound(id)
  {
    if id in t && t[id].available then Ok(t[id]) else Err(NotFound(id))
  }

  /** Prisma's `update({where: {id}, data: patch})` on one row: the patched fields
      take their new values and every other field keeps its value. */
  function Patch<V>(p: Product<V>, patch: Fields<V>): (q: Product<V>)
    ensures q.id == p.id && q.available == p.available
    ensures q.payload.Keys == p.payload.Keys + patch.Keys
    ensures forall f :: f in patch ==> q.payload[f] == patch[f]
    ensures forall f :: f in p.payload && f !in patch ==> q.payload[f] == p.payload[f]
  {
    p.(payload := p.payload + patch)
  }

  /** The table after a write, and the reply the write gives. */
  datatype Step<V> = Step(table: Table<V>, result: Result<Product<V>>)

  /** `update(id, patch)`: the `findOne` check, then the write. */
  function UpdateStep<V>(t: Table<V>, id: int, patch: Fields<V>): (s: Step<V>)
    ensures s.result.Ok? <==> FindOne(t, id).Ok?
    ensures s.result.Err? ==> s.result == Err(NotFound(id)) && s.table == t
    ensures s.result.Ok? ==>
              s.table.Keys == t.Keys && s.result.value == Patch(t[id], patch) && s.table[id] == s.result.value
    ensures forall k :: k in t && k != id ==> s.table[k] == t[k]
  {
    match FindOne(t, id)
    case Err(e) => Step(t, Err(e))
    case Ok(_) =>
      var q := Patch(t[id], patch);
      Step(t[id := q], Ok(q))
  }

  /** `remove(id)`: the `findOne` check, then `available := false` on that row. */
  function RemoveStep<V>(t: Table<V>, id: int): (s: Step<V>)
    ensures s.result.Ok? <==> FindOne(t, id).Ok?
    ensures s.result.Err? ==> s.result == Err(NotFound(id)) && s.table == t
    ensures s.result.Ok? ==>
              && s.table.Keys == t.Keys
              && s.table[id] == s.result.value
              && s.result.value == Product(t[id].id, false, t[id].payload)
    ensures forall k :: k in t && k != id ==> s.table[k] == t[k]
  {
    match FindOne(t, id)
    case Err(e) => Step(t, Err(e))
    case Ok(_) =>
      var q := t[id].(available := false);
      Step(t[id := q], Ok(q))
  }

  /** The rows stored under the sorted `keys` of those `ids` the table has. */
  lemma RowsOfSortedKeys<V>(t: Table<V>, ids: seq<int>, keys: seq<int>)
    requires keys == SortedIds(set x | x in ids && x in t)
    ensures forall i :: 0 <= i < |keys| ==> keys[i] in t && keys[i] in ids
    ensures var r := Rows(t, keys);
            && (forall p :: p in r ==> p in t.Values)
            && (forall x :: x in ids && x in t ==> t[x] in r)
            && (WellFormed(t) ==> forall i :: 0 <= i < |r| ==> r[i].id == keys[i])
  {
    forall i | 0 <= i < |keys| ensures keys[i] in t && keys[i] in ids {
      assert keys[i] in Elements(keys);
    }
    var r := Rows(t, keys);
    forall p | p in r ensures p in t.Values {
      var i :| 0 <= i < |r| && r[i] == p;
      assert r[i] == t[keys[i]];
    }
    forall x | x in ids && x in t ensures t[x] in r {
      assert x in Elements(keys);
      var j :| 0 <= j < |keys| && keys[j] == x;
      assert r[j] == t[x];
    }
  }

  /** Prisma's `findMany({where: {id: {in: ids}}})`: the rows whose id is listed,
      available or not, each once, ascending by id. */
  function FindMany<V(==)>(t: Table<V>, ids: seq<int>): (r: seq<Product<V>>)
    ensures |r| == |set x | x in ids && x in t|
    ensures forall p :: p in r ==> p in t.Values
    ensures forall x :: x in ids && x in t ==> t[x] in r
    ensures WellFormed(t) ==> forall i :: 0 <= i < |r| ==> r[i].id in ids
    ensures WellFormed(t) ==> IdsAscending(r)
  {
    var keys := SortedIds(set x | x in ids && x in t);
    RowsOfSortedKeys(t, ids, keys);
    Rows(t, keys)
  }

  /** A subset of a finite set that misses one of its elements is smaller. */
  lemma ProperSubsetSmaller(s: set<int>, e: set<int>, x: int)
    requires s <= e && x in e && x !in s
    ensures |s| < |e|
  {
    assert e == s + (e - s);
    assert s * (e - s) == {};
    assert x in e - s;
  }

  /** The dedupe-then-count test of `validateProducts`: the rows found for the
      distinct ids are as many as the distinct ids exactly when every id has a row. */
  lemma CountMatchesIffAllPresent<V>(t: Table<V>, ids: seq<int>)
    ensures |FindMany(t, Dedupe(ids))| == |Dedupe(ids)| <==> forall i :: 0 <= i < |ids| ==> ids[i] in t
  {
    var purged := Dedupe(ids);
    var present := set x | x in purged && x in t;
    assert present <= Elements(purged);
    if forall i :: 0 <= i < |ids| ==> ids[i] in t {
      assert present == Elements(ids);
    } else {
      var i :| 0 <= i < |ids| && ids[i] !in t;
      assert ids[i] in Elements(ids);
      ProperSubsetSmaller(present, Elements(ids), ids[i]);
    }
  }

  /** `validateProducts(ids)`: succeed, with one row per distinct id, exactly when
      every id has a row, whether or not that row is available. */
  function ValidateProducts<V(==)>(t: Table<V>, ids: seq<int>): (r: Result<seq<Product<V>>>)
    ensures r.Ok? <==> forall i :: 0 <= i < |ids| ==> ids[i] in t
    ensures r.Err? ==> r.error == ValidationError
    ensures r.Ok? ==> |r.value| == |Elements(ids)| && forall p :: p in r.value ==> p in t.Values
    ensures r.Ok? ==> forall i :: 0 <= i < |ids| ==> t[ids[i]] in r.value
    ensures r.Ok? && WellFormed(t) ==> forall i :: 0 <= i < |r.value| ==> r.value[i].id in ids
    ensures r.Ok? && WellFormed(t) ==> IdsAscending(r.value)
  {
    var purged := Dedupe(ids);
    var found := FindMany(t, purged);
    CountMatchesIffAllPresent(t, ids);
    assert forall i :: 0 <= i < |ids| ==> ids[i] in Elements(purged);
    assert forall x :: x in purged <==> x in ids by {
      assert Elements(purged) == Elements(ids);
      forall x ensures x in purged <==> x in ids {
        assert x in purged <==> x in Elements(purged);
        assert x in ids <==> x in Elements(ids);
      }
    }
    if |found| != |purged| then Err(ValidationError) else Ok(found)
  }

  /** The ORM table behind the service, with the sequence that hands out ids. */
  class Service<V> {
    var rows: Table<V>
    var nextId: int

    ghost predicate Valid()
      reads this
    {
      WellFormed(rows) && forall id :: id in rows ==> id < nextId
    }

    /** The service over a table as it stands, and the next id its sequence gives. */
    constructor (initial: Table<V>, next: int)
      requires WellFormed(initial) && forall id :: id in initial ==> id < next
      ensures Valid() && rows == initial && nextId == next
    {
      rows := initial;
      nextId := next;
    }

    /** `create(fields)`: insert a new available row under a fresh id. */
    method Create(fields: Fields<V>) returns (p: Product<V>)
      requires Valid()
      modifies this
      ensures Valid()
      ensures p == Product(old(nextId), true, fields) && p.id !in old(rows)
      ensures rows == old(rows)[p.id := p] && nextId == old(nextId) + 1
    {
      p := Product(nextId, true, fields);
      rows := rows[nextId := p];
      nextId := nextId + 1;
    }

    method Update(id: int, patch: Fields<V>) returns (r: Result<Product<V>>)
      requires Valid()
      modifies this
      ensures Valid() && nextId == old(nextId)
      ensures rows == UpdateStep(old(rows), id, patch).table
      ensures r == UpdateStep(old(rows), id, patch).result
    {
      var found := FindOne(rows, id);
      if found.Err? {
        return Err(found.error);
      }
      var updated := Patch(rows[id], patch);
      rows := rows[id := updated];
      r := Ok(updated);
    }

    method Remove(id: int) returns (r: Result<Product<V>>)
      requires Valid()
      modifies this
      ensures Valid() && nextId == old(nextId)
      ensures rows == RemoveStep(old(rows), id).table
      ensures r == RemoveStep(old(rows), id).result
    {
      var found := FindOne(rows, id);
      if found.Err? {
        return Err(found.error);
      }
      var removed := rows[id].(available := false);
      rows := rows[id := removed];
      r := Ok(removed);
    }
  }

  /** Two `remove(id)` calls in a row: whatever the first does, the second fails. */
  method RemoveTwice<V>(s: Service<V>, id: int) returns (first: Result<Product<V>>, second: Result<Product<V>>)
    requires s.Valid()
    modifies s
    ensures s.Valid()
    ensures first.Ok? <==> FindOne(old(s.rows), id).Ok?
    ensures second == Err(NotFound(id))
    ensures FindOne(s.rows, id) == Err(NotFound(id))
  {
    first := s.Remove(id);
    second := s.Remove(id);
  }
}
