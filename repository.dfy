/** The repository helpers: reconciling a has-many relation with a list of
    desired children (`syncHasManyByKey`), replacing a relation's children
    (`replaceHasMany`), bulk insertion that skips rows colliding with a
    unique index (`insertOrIgnore`), and two numeric clamps.

    A relation is the map from child id to stored record; ids come from an
    auto-increment allocator. The reconciliation is first defined on values
    (`Visit`, `Walk`, `Reconcile`) and the class methods are proved to do
    what those functions say. */
module Repository {
  import opened Php
  import opened Chunking

  /** The default arguments: the chunk size of `syncHasManyByKey` and of
      `insertOrIgnore`, that of `replaceHasMany`, and the default minimum of
      `normalizeNumber`. */
  const SyncChunkSize := 30
  const InsertChunkSize := 30
  const ReplaceChunkSize := 50
  const NormalizeDefault := 0

  /** A stored row: column name to value. */
  type Record = map<string, Scalar>

  /** One element of `$items`: field name to value. */
  type Item = map<string, Scalar>

  /** `array_diff_assoc($item, $attributes)` is non-empty: some field of the
      item is missing from the stored attributes or prints differently. */
  predicate Differs(item: Item, attrs: Record) {
    exists f :: f in item && (f !in attrs || !Loosely(item[f], attrs[f]))
  }

  /** The stored record after `$model->fill($item)->save()`: the item's fields
      overwrite the stored ones, except that the key column keeps the stored
      id (the item's key names that same id). */
  function Filled(attrs: Record, item: Item, key: string): Record {
    map f | f in attrs.Keys + item.Keys :: if f in item && (f != key || f !in attrs) then item[f] else attrs[f]
  }

  /** The record `$relation->create($item)` stores under the fresh id. */
  function Created(item: Item, key: string, id: int): Record {
    item[key := Int(id)]
  }

  /** After `$model->fill($item)`, `array_diff_assoc($item, $attributes)`
      is empty (when the item's key agrees with the stored id), the key
      column keeps the stored id, every column the item does not mention
      keeps its value, and no column is lost. */
  lemma FilledSettles(attrs: Record, item: Item, key: string)
    requires key in item && key in attrs ==> Loosely(item[key], attrs[key])
    ensures !Differs(item, Filled(attrs, item, key))
    ensures Filled(attrs, item, key).Keys == attrs.Keys + item.Keys
    ensures forall f :: f in attrs && f !in item ==> Filled(attrs, item, key)[f] == attrs[f]
    ensures key in attrs ==> Filled(attrs, item, key)[key] == attrs[key]
  {
  }

  /** `$relation->create($item)` stores the item's fields and the fresh id
      in the key column. */
  lemma CreatedFields(item: Item, key: string, id: int)
    ensures Created(item, key, id).Keys == item.Keys + {key}
    ensures Created(item, key, id)[key] == Int(id)
    ensures forall f :: f in item && f != key ==> Created(item, key, id)[f] == item[f]
  {
  }

  /** The item's key is non-empty and names the integer id (PHP array-key
      semantics, as `$existing->has($item[$key])` uses them). */
  predicate Names(item: Item, key: string, id: int) {
    !Empty(Field(item, key)) && ArrayKey(Field(item, key)) == Some(id)
  }

  /** The item's key is absent or empty, so the item is created. */
  predicate IsNew(item: Item, key: string) {
    Empty(Field(item, key))
  }

  /** Every stored row carries its own id in the key column, and every id is
      below the allocator's next id. */
  predicate Keyed(rows: map<int, Record>, nextId: int, key: string) {
    forall id {:trigger rows[id]} :: id in rows ==> id < nextId && key in rows[id] && rows[id][key] == Int(id)
  }

  /** The state of the foreach over `$items`: the relation's rows, the id
      allocator, `$syncedIds`, and the ids saved and created so far. */
  datatype Pass = Pass(rows: map<int, Record>, nextId: int, synced: seq<int>, saved: seq<int>, created: seq<int>)

  function Start(rows: map<int, Record>, nextId: int): Pass {
    Pass(rows, nextId, [], [], [])
  }

  /** One iteration of the foreach, with `existing` the ids the relation held
      when the reconciliation began. */
  function Visit(existing: set<int>, key: string, p: Pass, item: Item): (r: Pass)
    requires existing <= p.rows.Keys
    ensures p.nextId <= r.nextId <= p.nextId + 1
    ensures |p.synced| <= |r.synced| <= |p.synced| + 1
  {
    var k := Field(item, key);
    if !Empty(k) && ArrayKey(k).Some? && ArrayKey(k).value in existing then
      var id := ArrayKey(k).value;
      if Differs(item, p.rows[id]) then
        p.(rows := p.rows[id := Filled(p.rows[id], item, key)], synced := p.synced + [id], saved := p.saved + [id])
      else
        p.(synced := p.synced + [id])
    else if Empty(k) then
      p.(rows := p.rows[p.nextId := Created(item, key, p.nextId)], nextId := p.nextId + 1,
         synced := p.synced + [p.nextId], created := p.created + [p.nextId])
    else
      p
  }

  /** The whole foreach over `items`, in order. */
  function Walk(existing: set<int>, key: string, p: Pass, items: seq<Item>): (r: Pass)
    requires existing <= p.rows.Keys
    ensures existing <= r.rows.Keys
    ensures p.nextId <= r.nextId <= p.nextId + |items|
    ensures |p.synced| <= |r.synced| <= |p.synced| + |items|
    decreases |items|
  {
    if items == [] then p
    else Visit(existing, key, Walk(existing, key, p, items[..|items| - 1]), items[|items| - 1])
  }

  function Elements(s: seq<int>): set<int> {
    set x | x in s
  }

  /** What a reconciliation leaves behind: the rows and the allocator, the
      ids saved and created (in order) and the ids deleted. */
  datatype Reconciled = Reconciled(rows: map<int, Record>, nextId: int, saved: seq<int>, created: seq<int>, deleted: set<int>)

  /** `syncHasManyByKey` on values: walk the items, then delete every
      existing id not retained. `Collection::chunk` yields no chunk for a
      size below 1, so then nothing is deleted. */
  function Reconcile(rows: map<int, Record>, nextId: int, key: string, items: seq<Item>, chunkSize: int): (r: Reconciled)
    ensures r.deleted <= rows.Keys
    ensures chunkSize <= 0 ==> r.deleted == {}
    ensures nextId <= r.nextId <= nextId + |items|
  {
    var p := Walk(rows.Keys, key, Start(rows, nextId), items);
    var deleted := if chunkSize > 0 then rows.Keys - Elements(p.synced) else {};
    Reconciled(p.rows - deleted, p.nextId, p.saved, p.created, deleted)
  }

  /** The foreach keeps every row keyed by its own id below the allocator,
      never removes a row and never lowers the allocator. */
  lemma {:induction false} WalkKeepsKeyed(existing: set<int>, key: string, p: Pass, items: seq<Item>)
    requires existing <= p.rows.Keys
    requires Keyed(p.rows, p.nextId, key)
    ensures var r := Walk(existing, key, p, items);
            Keyed(r.rows, r.nextId, key) && p.rows.Keys <= r.rows.Keys && p.nextId <= r.nextId
    decreases |items|
  {
    if items != [] {
      WalkKeepsKeyed(existing, key, p, items[..|items| - 1]);
    }
  }

  /** The ids first .. first + count - 1, in order. */
  function Fresh(first: int, count: nat): (r: seq<int>)
    ensures |r| == count && forall k :: 0 <= k < count ==> r[k] == first + k
  {
    if count == 0 then [] else Fresh(first, count - 1) + [first + count - 1]
  }

  lemma FreshElements(first: int, m: nat)
    ensures Elements(Fresh(first, m + 1)) == Elements(Fresh(first, m)) + {first + m}
  {
  }

  lemma FreshAppend(first: int, m: nat, n: nat)
    ensures Fresh(first, m) + Fresh(first + m, n) == Fresh(first, m + n)
  {
  }

  /** The children `replaceHasMany` leaves: one fresh id per item, in order. */
  function Replacement(nextId: int, key: string, items: seq<Item>): (r: map<int, Record>)
    ensures forall id :: id in r ==> nextId <= id < nextId + |items|
    decreases |items|
  {
    if items == [] then map[]
    else
      var n := |items| - 1;
      Replacement(nextId, key, items[..n])[nextId + n := Created(items[n], key, nextId + n)]
  }

  /** Replacing with a + b creates the children of a, then those of b under
      the ids that follow. */
  lemma {:induction false} ReplacementAppend(nextId: int, key: string, a: seq<Item>, b: seq<Item>)
    ensures Replacement(nextId, key, a + b) == Replacement(nextId, key, a) + Replacement(nextId + |a|, key, b)
    decreases |b|
  {
    if b == [] {
      assert a + b == a;
    } else {
      var n := |b| - 1;
      assert (a + b)[..|a + b| - 1] == a + b[..n];
      assert (a + b)[|a + b| - 1] == b[n];
      ReplacementAppend(nextId, key, a, b[..n]);
      UnionUpdate(Replacement(nextId, key, a), Replacement(nextId + |a|, key, b[..n]),
                  nextId + |a| + n, Created(b[n], key, nextId + |a| + n));
    }
  }

  /** One more `createMany`, on the next chunk under the ids that follow,
      extends the replacement and the created ids by that chunk's. */
  lemma ChunkCreated(rows0: map<int, Record>, next0: int, key: string, chunks: seq<seq<Item>>, j: nat, done: seq<Item>,
                     before: map<int, Record>, after: map<int, Record>, created: seq<int>, ids: seq<int>)
    requires j < |chunks| && done == Flatten(chunks[..j])
    requires before == rows0 + Replacement(next0, key, done)
    requires after == before + Replacement(next0 + |done|, key, chunks[j])
    requires created == Fresh(next0, |done|) && ids == Fresh(next0 + |done|, |chunks[j]|)
    ensures done + chunks[j] == Flatten(chunks[..j + 1])
    ensures after == rows0 + Replacement(next0, key, done + chunks[j])
    ensures created + ids == Fresh(next0, |done + chunks[j]|)
  {
    FlattenSnoc(chunks[..j], chunks[j]);
    assert chunks[..j + 1] == chunks[..j] + [chunks[j]];
    ReplacementAppend(next0, key, done, chunks[j]);
    UnionAssociates(rows0, Replacement(next0, key, done), Replacement(next0 + |done|, key, chunks[j]));
    FreshAppend(next0, |done|, |chunks[j]|);
  }

  /** One more create, under the next id, extends the replacement by the
      next item and the created ids by that id. */
  lemma CreateStep(rows0: map<int, Record>, nextId: int, key: string, chunk: seq<Item>, t: nat, rows: map<int, Record>, ids: seq<int>)
    requires t < |chunk|
    requires rows == rows0 + Replacement(nextId, key, chunk[..t])
    requires ids == Fresh(nextId, t)
    ensures rows[nextId + t := Created(chunk[t], key, nextId + t)] == rows0 + Replacement(nextId, key, chunk[..t + 1])
    ensures ids + [nextId + t] == Fresh(nextId, t + 1)
  {
    assert chunk[..t + 1][..t] == chunk[..t];
    UnionUpdate(rows0, Replacement(nextId, key, chunk[..t]), nextId + t, Created(chunk[t], key, nextId + t));
  }

  lemma UnionAssociates<K, V>(a: map<K, V>, b: map<K, V>, c: map<K, V>)
    ensures (a + b) + c == a + (b + c)
  {
  }

  lemma UnionUpdate<K, V>(a: map<K, V>, b: map<K, V>, k: K, v: V)
    ensures (a + b)[k := v] == a + b[k := v]
  {
  }

  /** Every stored id is below the allocator's next id. */
  lemma KeyedBelow(rows: map<int, Record>, nextId: int, key: string)
    requires Keyed(rows, nextId, key)
    ensures forall id :: id in rows ==> id < nextId
  {
    forall id | id in rows ensures id < nextId {
      assert rows[id][key] == Int(id);
    }
  }

  /** Creating a child under the allocator's next id keeps the rows keyed. */
  lemma KeyedCreate(rows: map<int, Record>, nextId: int, key: string, item: Item)
    requires Keyed(rows, nextId, key)
    ensures Keyed(rows[nextId := Created(item, key, nextId)], nextId + 1, key)
  {
  }

  /** Creating one child per item under consecutive fresh ids keeps the
      rows keyed. */
  lemma {:induction false} KeyedReplacement(rows: map<int, Record>, nextId: int, key: string, items: seq<Item>)
    requires Keyed(rows, nextId, key)
    ensures Keyed(rows + Replacement(nextId, key, items), nextId + |items|, key)
    decreases |items|
  {
    if items != [] {
      var n := |items| - 1;
      var before := rows + Replacement(nextId, key, items[..n]);
      KeyedReplacement(rows, nextId, key, items[..n]);
      KeyedCreate(before, nextId + n, key, items[n]);
      assert rows + Replacement(nextId, key, items) == before[nextId + n := Created(items[n], key, nextId + n)];
    }
  }

  /** Deleting children keeps the rest keyed. */
  lemma KeyedRemove(rows: map<int, Record>, nextId: int, key: string, doomed: set<int>)
    requires Keyed(rows, nextId, key)
    ensures Keyed(rows - doomed, nextId, key)
  {
    forall id | id in rows - doomed
      ensures id < nextId && key in (rows - doomed)[id] && (rows - doomed)[id][key] == Int(id)
    {
      assert (rows - doomed)[id] == rows[id];
    }
  }

  /** The unique column of two rows holds the same non-null value (SQL lets
      any number of NULLs coexist in a unique index). */
  predicate Collides(a: Record, b: Record, uniqueKey: string) {
    Field(a, uniqueKey) != Null && Field(b, uniqueKey) != Null && Loosely(Field(a, uniqueKey), Field(b, uniqueKey))
  }

  predicate Clashes(rows: seq<Record>, item: Item, uniqueKey: string) {
    exists r :: r in rows && Collides(r, item, uniqueKey)
  }

  predicate UniqueKeys(rows: seq<Record>, uniqueKey: string) {
    forall i, j :: 0 <= i < j < |rows| ==> !Collides(rows[i], rows[j], uniqueKey)
  }

  /** Inserting `items` one after another, skipping any that collides with a
      row already there (including one inserted earlier in the same call). */
  function InsertIgnoring(rows: seq<Record>, items: seq<Item>, uniqueKey: string): (r: seq<Record>)
    ensures |rows| <= |r| <= |rows| + |items| && r[..|rows|] == rows
    decreases |items|
  {
    if items == [] then rows
    else
      var before := InsertIgnoring(rows, items[..|items| - 1], uniqueKey);
      var item := items[|items| - 1];
      if Clashes(before, item, uniqueKey) then before else before + [item]
  }

  /** Inserting two lists one after the other is inserting their
      concatenation, so splitting the items into chunks changes nothing. */
  lemma {:induction false} InsertIgnoringAppend(rows: seq<Record>, a: seq<Item>, b: seq<Item>, uniqueKey: string)
    ensures InsertIgnoring(rows, a + b, uniqueKey) == InsertIgnoring(InsertIgnoring(rows, a, uniqueKey), b, uniqueKey)
    decreases |b|
  {
    if b == [] {
      assert a + b == a;
    } else {
      assert (a + b)[..|a + b| - 1] == a + b[..|b| - 1];
      InsertIgnoringAppend(rows, a, b[..|b| - 1], uniqueKey);
    }
  }

  /** Insert-ignore never breaks the unique index. */
  lemma {:induction false} InsertIgnoringKeepsUnique(rows: seq<Record>, items: seq<Item>, uniqueKey: string)
    requires UniqueKeys(rows, uniqueKey)
    ensures UniqueKeys(InsertIgnoring(rows, items, uniqueKey), uniqueKey)
    decreases |items|
  {
    if items != [] {
      InsertIgnoringKeepsUnique(rows, items[..|items| - 1], uniqueKey);
      var before := InsertIgnoring(rows, items[..|items| - 1], uniqueKey);
      var item := items[|items| - 1];
      if !Clashes(before, item, uniqueKey) {
        var after := before + [item];
        forall i, j | 0 <= i < j < |after|
          ensures !Collides(after[i], after[j], uniqueKey)
        {
          if j == |before| {
            assert after[i] in before;
          }
        }
      }
    }
  }

  /** `normalizeNumber` on integers: `value` is None for null or any other
      non-numeric input. */
  function NormalizeNumber(value: Option<int>, default: int): (r: int)
    ensures r == default || (value == Some(r) && r > 0)
    ensures (value.Some? && value.value > 0) ==> r == value.value
  {
    if value.Some? && value.value > 0 then value.value else default
  }

  /** `getValueOrZero` on integers and null: never negative, and the value
      itself whenever it is positive. */
  function GetValueOrZero(value: Option<int>): (r: int)
    ensures r >= 0
    ensures r > 0 <==> value.Some? && value.value > 0
    ensures r > 0 ==> value == Some(r)
  {
    if value.Some? && value.value > 0 then value.value else 0
  }

  /** The id batches of the delete statements for the ids `deleted`: as
      many as `Collection::chunk` makes, each of 1 to chunkSize ids, together
      naming every id of `deleted` exactly once. */
  ghost predicate DeletesInBatches(batches: seq<seq<int>>, deleted: set<int>, chunkSize: int) {
    && (chunkSize > 0 ==> |batches| == CeilDiv(|deleted|, chunkSize))
    && (forall b :: b in batches ==> 1 <= |b| <= chunkSize)
    && (forall id :: id in Flatten(batches) <==> id in deleted)
    && (forall i, j :: 0 <= i < j < |Flatten(batches)| ==> Flatten(batches)[i] != Flatten(batches)[j])
  }

  /** `Collection::chunk` of the listed ids batches every one of them for a
      positive chunk size, and none at all for a chunk size below 1. */
  lemma ChunkedIds(doomed: set<int>, order: seq<int>, chunkSize: int)
    requires |order| == |doomed| && forall x :: x in order <==> x in doomed
    requires forall i, j :: 0 <= i < j < |order| ==> order[i] != order[j]
    ensures chunkSize <= 0 ==> CollectionChunk(order, chunkSize) == []
    ensures Elements(Flatten(CollectionChunk(order, chunkSize))) == if chunkSize > 0 then doomed else {}
    ensures DeletesInBatches(CollectionChunk(order, chunkSize), if chunkSize > 0 then doomed else {}, chunkSize)
  {
    forall x ensures x in Elements(order) <==> x in doomed {
      assert x in order <==> x in doomed;
    }
    assert Elements(order) == doomed;
    if chunkSize > 0 {
      var batches := CollectionChunk(order, chunkSize);
      ChunkCount(order, chunkSize);
      assert Flatten(batches) == order;
      assert |batches| == CeilDiv(|doomed|, chunkSize);
      assert forall b :: b in batches ==> 1 <= |b| <= chunkSize;
      assert forall id :: id in Flatten(batches) <==> id in doomed;
      assert forall i, j :: 0 <= i < j < |Flatten(batches)| ==> Flatten(batches)[i] != Flatten(batches)[j];
      assert DeletesInBatches(batches, doomed, chunkSize);
    } else {
      assert CollectionChunk(order, chunkSize) == [];
      assert Flatten(CollectionChunk(order, chunkSize)) == [];
    }
  }

  /** Deleting one more batch removes its ids as well. */
  lemma DeleteStep(rows0: map<int, Record>, batches: seq<seq<int>>, batch: seq<int>)
    ensures rows0 - Elements(Flatten(batches + [batch])) == (rows0 - Elements(Flatten(batches))) - Elements(batch)
  {
    FlattenSnoc(batches, batch);
    assert Elements(Flatten(batches + [batch])) == Elements(Flatten(batches)) + Elements(batch);
  }

  /** Lists a set of ids, each once, in no particular order (the order in
      which the relation's query returned them). */
  method ListIds(s: set<int>) returns (xs: seq<int>)
    ensures |xs| == |s|
    ensures forall x :: x in xs <==> x in s
    ensures forall i, j :: 0 <= i < j < |xs| ==> xs[i] != xs[j]
  {
    xs := [];
    var rest := s;
    while rest != {}
      invariant rest <= s
      invariant forall x :: x in xs <==> x in s && x !in rest
      invariant forall i, j :: 0 <= i < j < |xs| ==> xs[i] != xs[j]
      invariant |xs| + |rest| == |s|
      decreases rest
    {
      if forall y :: y !in rest {
        assert false;
      }
      var x :| x in rest;
      xs := xs + [x];
      rest := rest - {x};
    }
  }

  /** A parent's has-many relation: the children stored for it, by id. */
  class HasMany {
    const key: string
    var rows: map<int, Record>
    var nextId: int

    ghost predicate Valid()
      reads this
    {
      Keyed(rows, nextId, key)
    }

    constructor (key: string)
      ensures Valid() && this.key == key && rows == map[] && nextId == 1
    {
      this.key := key;
      rows := map[];
      nextId := 1;
    }

    /** `syncHasManyByKey($relation, $items, $chunkSize)` with the relation's
        primary key as `$key`. Returns the ids saved and created, in order,
        and the id batches of the delete statements. */
    method SyncHasManyByKey(items: seq<Item>, chunkSize: int) returns (saved: seq<int>, created: seq<int>, batches: seq<seq<int>>)
      requires Valid()
      modifies this
      ensures Valid()
      ensures var r := Reconcile(old(rows), old(nextId), key, items, chunkSize);
              && rows == r.rows && nextId == r.nextId && saved == r.saved && created == r.created
              && DeletesInBatches(batches, r.deleted, chunkSize)
    {
      var existing := rows.Keys;
      var synced;
      synced, saved, created := UpdateOrCreate(existing, items);
      var doomed := existing - Elements(synced);
      batches := [];
      if doomed != {} {
        batches := DeleteInChunks(doomed, chunkSize);
      }
    }

    /** The foreach over `$items` (lines 57-70): update a named existing
        child when a field differs, create a child for an item without key,
        and collect `$syncedIds`. */
    method UpdateOrCreate(existing: set<int>, items: seq<Item>) returns (synced: seq<int>, saved: seq<int>, created: seq<int>)
      requires Valid() && existing <= rows.Keys
      modifies this
      ensures Valid()
      ensures Pass(rows, nextId, synced, saved, created) == Walk(existing, key, Start(old(rows), old(nextId)), items)
    {
      var r, n := rows, nextId;
      ghost var start := Start(r, n);
      synced, saved, created := [], [], [];
      var i := 0;
      while i < |items|
        invariant 0 <= i <= |items|
        invariant Pass(r, n, synced, saved, created) == Walk(existing, key, start, items[..i])
      {
        assert items[..i + 1][..i] == items[..i];
        var item := items[i];
        var k := Field(item, key);
        if !Empty(k) && ArrayKey(k).Some? && ArrayKey(k).value in existing {
          var id := ArrayKey(k).value;
          if Differs(item, r[id]) {
            r := r[id := Filled(r[id], item, key)];
            saved := saved + [id];
          }
          synced := synced + [id];
        } else if Empty(k) {
          var id := n;
          r := r[id := Created(item, key, id)];
          n := n + 1;
          synced := synced + [id];
          created := created + [id];
        }
        i := i + 1;
      }
      assert items[..|items|] == items;
      WalkKeepsKeyed(existing, key, start, items);
      rows, nextId := r, n;
    }

    /** The delete statements (lines 72-77): `$idsToDelete->chunk($chunkSize)`
        and one `whereIn(...)->delete()` per chunk. A chunk size below 1
        yields no chunk, so nothing is deleted. */
    method DeleteInChunks(doomed: set<int>, chunkSize: int) returns (batches: seq<seq<int>>)
      requires Valid()
      modifies this
      ensures Valid() && nextId == old(nextId)
      ensures rows == old(rows) - (if chunkSize > 0 then doomed else {})
      ensures DeletesInBatches(batches, if chunkSize > 0 then doomed else {}, chunkSize)
    {
      ghost var rows0 := rows;
      var order := ListIds(doomed);
      var chunks := CollectionChunk(order, chunkSize);
      ChunkedIds(doomed, order, chunkSize);
      var r := rows;
      batches := [];
      var j := 0;
      while j < |chunks|
        invariant 0 <= j <= |chunks|
        invariant batches == chunks[..j]
        invariant r == rows0 - Elements(Flatten(batches))
        invariant unchanged(this)
      {
        DeleteStep(rows0, batches, chunks[j]);
        TakeSnoc(chunks, j);
        r := r - Elements(chunks[j]);
        batches := batches + [chunks[j]];
        j := j + 1;
      }
      assert batches == chunks;
      KeyedRemove(rows0, nextId, key, Elements(Flatten(batches)));
      rows := r;
    }

    /** `replaceHasMany($relation, $items, $chunkSize)`. Returns false where
        `array_chunk` rejects the chunk size: the transaction is then rolled
        back and the relation is as before. */
    method ReplaceHasMany(items: seq<Item>, chunkSize: int) returns (ok: bool, created: seq<int>)
      requires Valid()
      modifies this
      ensures Valid()
      ensures ok == (chunkSize > 0)
      ensures !ok ==> rows == old(rows) && nextId == old(nextId) && created == []
      ensures ok ==> && rows == Replacement(old(nextId), key, items)
                     && nextId == old(nextId) + |items|
                     && created == Fresh(old(nextId), |items|)
    {
      if chunkSize <= 0 {
        return false, [];
      }
      ok := true;
      // chunkById walks every child in id order and deletes it.
      rows := map[];
      created := CreateInChunks(items, chunkSize);
      assert map[] + Replacement(old(nextId), key, items) == Replacement(old(nextId), key, items);
    }

    /** The inserting half of `replaceHasMany`: `createMany` per chunk of
        `array_chunk($items, $chunkSize)`. */
    method CreateInChunks(items: seq<Item>, chunkSize: int) returns (created: seq<int>)
      requires Valid() && chunkSize > 0
      modifies this
      ensures Valid()
      ensures rows == old(rows) + Replacement(old(nextId), key, items)
      ensures nextId == old(nextId) + |items|
      ensures created == Fresh(old(nextId), |items|)
    {
      ghost var rows0, next0 := rows, nextId;
      var chunks := Chunk(items, chunkSize);
      created := [];
      ghost var done: seq<Item> := [];
      var j := 0;
      while j < |chunks|
        invariant 0 <= j <= |chunks|
        invariant done == Flatten(chunks[..j])
        invariant rows == rows0 + Replacement(next0, key, done)
        invariant nextId == next0 + |done|
        invariant created == Fresh(next0, |done|)
      {
        KeyedReplacement(rows0, next0, key, done);
        ghost var before := rows;
        var ids := CreateMany(chunks[j]);
        ChunkCreated(rows0, next0, key, chunks, j, done, before, rows, created, ids);
        created := created + ids;
        done := done + chunks[j];
        j := j + 1;
      }
      assert chunks[..j] == chunks;
      KeyedReplacement(rows0, next0, key, done);
    }

    /** `$relation->createMany($chunk)`: one create per item, each under the
        next fresh id. */
    method CreateMany(chunk: seq<Item>) returns (ids: seq<int>)
      requires Valid()
      modifies this
      ensures Valid()
      ensures rows == old(rows) + Replacement(old(nextId), key, chunk)
      ensures nextId == old(nextId) + |chunk|
      ensures ids == Fresh(old(nextId), |chunk|)
    {
      var r, n := rows, nextId;
      ids := [];
      var t := 0;
      while t < |chunk|
        invariant 0 <= t <= |chunk|
        invariant r == old(rows) + Replacement(old(nextId), key, chunk[..t])
        invariant n == old(nextId) + t
        invariant ids == Fresh(old(nextId), t)
      {
        CreateStep(old(rows), old(nextId), key, chunk, t, r, ids);
        r := r[n := Created(chunk[t], key, n)];
        ids := ids + [n];
        n := n + 1;
        t := t + 1;
      }
      assert chunk[..t] == chunk;
      KeyedReplacement(old(rows), old(nextId), key, chunk);
      rows, nextId := r, n;
    }
  }

  /** The table behind an Eloquent model, with one unique column. */
  class Table {
    const uniqueKey: string
    var rows: seq<Record>

    ghost predicate Valid()
      reads this
    {
      UniqueKeys(rows, uniqueKey)
    }

    constructor (uniqueKey: string)
      ensures Valid() && this.uniqueKey == uniqueKey && rows == []
    {
      this.uniqueKey := uniqueKey;
      rows := [];
    }

    /** `insertOrIgnore($items, $model, $chunkSize)`. Returns false where
        `array_chunk` rejects the chunk size, and the statements issued, one
        per chunk. */
    method InsertOrIgnore(items: seq<Item>, chunkSize: int) returns (ok: bool, batches: seq<seq<Item>>)
      requires Valid()
      modifies this
      ensures Valid()
      ensures items == [] ==> ok && batches == [] && rows == old(rows)
      ensures items != [] && chunkSize <= 0 ==> !ok && batches == [] && rows == old(rows)
      ensures items != [] && chunkSize > 0 ==>
                ok && batches == Chunk(items, chunkSize) && rows == InsertIgnoring(old(rows), items, uniqueKey)
    {
      if items == [] {
        return true, [];
      }
      if chunkSize <= 0 {
        return false, [];
      }
      var chunks := Chunk(items, chunkSize);
      batches := [];
      var j := 0;
      while j < |chunks|
        invariant 0 <= j <= |chunks|
        invariant batches == chunks[..j]
        invariant rows == InsertIgnoring(old(rows), Flatten(batches), uniqueKey)
        invariant Valid()
      {
        FlattenSnoc(batches, chunks[j]);
        InsertIgnoringAppend(old(rows), Flatten(batches), chunks[j], uniqueKey);
        InsertIgnoringKeepsUnique(rows, chunks[j], uniqueKey);
        assert chunks[..j + 1] == batches + [chunks[j]];
        rows := InsertIgnoring(rows, chunks[j], uniqueKey);
        batches := batches + [chunks[j]];
        j := j + 1;
      }
      assert batches == chunks;
      ok := true;
    }
  }
}
