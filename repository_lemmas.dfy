/** What `syncHasManyByKey`, `replaceHasMany` and `insertOrIgnore` promise,
    proved about the value-level definitions the class methods are tied to. */
module RepositoryLemmas {
  import opened Php
  import opened Chunking
  import opened Repository

  /** The items whose key is absent or empty, in order: the ones created. */
  function NewItems(items: seq<Item>, key: string): seq<Item>
    decreases |items|
  {
    if items == [] then []
    else
      var n := |items| - 1;
      NewItems(items[..n], key) + (if IsNew(items[n], key) then [items[n]] else [])
  }

  /** The existing ids some item names: the ones the reconciliation keeps. */
  ghost function Named(rows: map<int, Record>, key: string, items: seq<Item>): set<int> {
    set id | id in rows && exists i :: 0 <= i < |items| && Names(items[i], key, id)
  }

  /** The existing ids one item names: none, or the one its key holds. */
  ghost function NamedBy(existing: set<int>, key: string, item: Item): set<int> {
    set id | id in existing && Names(item, key, id)
  }

  lemma NamedSnoc(rows: map<int, Record>, key: string, items: seq<Item>)
    requires items != []
    ensures Named(rows, key, items) == Named(rows, key, items[..|items| - 1]) + NamedBy(rows.Keys, key, items[|items| - 1])
  {
    var n := |items| - 1;
    forall id | id in Named(rows, key, items) && !Names(items[n], key, id)
      ensures id in Named(rows, key, items[..n])
    {
      var i :| 0 <= i < |items| && Names(items[i], key, id);
      assert items[..n][i] == items[i];
    }
    forall id | id in Named(rows, key, items[..n])
      ensures id in Named(rows, key, items)
    {
      var i :| 0 <= i < n && Names(items[..n][i], key, id);
      assert items[i] == items[..n][i];
    }
  }

  lemma {:induction false} WalkAppend(existing: set<int>, key: string, p: Pass, a: seq<Item>, b: seq<Item>)
    requires existing <= p.rows.Keys
    ensures Walk(existing, key, p, a + b) == Walk(existing, key, Walk(existing, key, p, a), b)
    decreases |b|
  {
    if b == [] {
      assert a + b == a;
    } else {
      assert (a + b)[..|a + b| - 1] == a + b[..|b| - 1];
      WalkAppend(existing, key, p, a, b[..|b| - 1]);
    }
  }

  /** One iteration takes the next id exactly when the item has no key,
      and adds no row under any other id. */
  lemma VisitAllocates(existing: set<int>, key: string, w: Pass, item: Item)
    requires existing <= w.rows.Keys
    ensures Visit(existing, key, w, item).nextId == w.nextId + (if IsNew(item, key) then 1 else 0)
    ensures Visit(existing, key, w, item).created == w.created + (if IsNew(item, key) then [w.nextId] else [])
    ensures Visit(existing, key, w, item).rows.Keys == w.rows.Keys + (if IsNew(item, key) then {w.nextId} else {})
  {
  }

  /** The foreach takes one fresh id per item without key, consecutively,
      and adds no other id. */
  lemma {:induction false} WalkAllocates(rows: map<int, Record>, nextId: int, key: string, items: seq<Item>)
    ensures Walk(rows.Keys, key, Start(rows, nextId), items).nextId == nextId + |NewItems(items, key)|
    ensures Walk(rows.Keys, key, Start(rows, nextId), items).created == Fresh(nextId, |NewItems(items, key)|)
    ensures Walk(rows.Keys, key, Start(rows, nextId), items).rows.Keys
              == rows.Keys + Elements(Fresh(nextId, |NewItems(items, key)|))
    decreases |items|
  {
    if items != [] {
      var n := |items| - 1;
      WalkAllocates(rows, nextId, key, items[..n]);
      var w := Walk(rows.Keys, key, Start(rows, nextId), items[..n]);
      VisitAllocates(rows.Keys, key, w, items[n]);
      var v := Visit(rows.Keys, key, w, items[n]);
      assert Walk(rows.Keys, key, Start(rows, nextId), items) == v;
      var m := |NewItems(items[..n], key)|;
      if IsNew(items[n], key) {
        assert |NewItems(items, key)| == m + 1;
        assert w.nextId == nextId + m && w.created == Fresh(nextId, m);
        assert v.created == w.created + [w.nextId];
        assert Fresh(nextId, m + 1) == Fresh(nextId, m) + [nextId + m];
        FreshElements(nextId, m);
      } else {
        assert |NewItems(items, key)| == m;
      }
    }
  }

  /** Each item without key is stored under its fresh id, with the key
      column set to that id. */
  lemma {:induction false} WalkCreates(rows: map<int, Record>, nextId: int, key: string, items: seq<Item>, k: int)
    requires Keyed(rows, nextId, key)
    requires 0 <= k < |NewItems(items, key)|
    ensures nextId + k in Walk(rows.Keys, key, Start(rows, nextId), items).rows
    ensures Walk(rows.Keys, key, Start(rows, nextId), items).rows[nextId + k] == Created(NewItems(items, key)[k], key, nextId + k)
    decreases |items|
  {
    var n := |items| - 1;
    var made := NewItems(items[..n], key);
    WalkAllocates(rows, nextId, key, items[..n]);
    var w := Walk(rows.Keys, key, Start(rows, nextId), items[..n]);
    if k < |made| {
      WalkCreates(rows, nextId, key, items[..n], k);
      assert NewItems(items, key)[k] == made[k];
      var f := Field(items[n], key);
      if !Empty(f) && ArrayKey(f).Some? && ArrayKey(f).value in rows.Keys {
        assert ArrayKey(f).value < nextId;
      }
    }
  }

  /** One iteration adds to `$syncedIds` the existing id the item names, if
      any, and the id it creates, if any; it saves only the named id. */
  lemma VisitSynced(existing: set<int>, key: string, w: Pass, item: Item)
    requires existing <= w.rows.Keys
    ensures Elements(Visit(existing, key, w, item).synced)
              == Elements(w.synced) + NamedBy(existing, key, item) + (if IsNew(item, key) then {w.nextId} else {})
    ensures Elements(Visit(existing, key, w, item).created)
              == Elements(w.created) + (if IsNew(item, key) then {w.nextId} else {})
    ensures Elements(Visit(existing, key, w, item).saved) <= Elements(w.saved) + NamedBy(existing, key, item)
  {
    var v := Visit(existing, key, w, item);
    var k := Field(item, key);
    if !Empty(k) && ArrayKey(k).Some? && ArrayKey(k).value in existing {
      var id := ArrayKey(k).value;
      assert NamedBy(existing, key, item) == {id};
      assert Elements(v.synced) == Elements(w.synced) + {id};
      assert Elements(v.saved) <= Elements(w.saved) + {id};
    } else if Empty(k) {
      assert NamedBy(existing, key, item) == {};
      assert Elements(v.synced) == Elements(w.synced) + {w.nextId};
      assert Elements(v.created) == Elements(w.created) + {w.nextId};
    } else {
      assert NamedBy(existing, key, item) == {};
    }
  }

  /** `$syncedIds` holds exactly the named existing ids and the created ids;
      only named ids are saved. */
  lemma {:induction false} WalkSynced(rows: map<int, Record>, nextId: int, key: string, items: seq<Item>)
    requires Keyed(rows, nextId, key)
    ensures var w := Walk(rows.Keys, key, Start(rows, nextId), items);
            && Elements(w.synced) == Named(rows, key, items) + Elements(w.created)
            && Elements(w.saved) <= Named(rows, key, items)
    decreases |items|
  {
    if items != [] {
      var n := |items| - 1;
      WalkSynced(rows, nextId, key, items[..n]);
      NamedSnoc(rows, key, items);
      var w := Walk(rows.Keys, key, Start(rows, nextId), items[..n]);
      VisitSynced(rows.Keys, key, w, items[n]);
      assert Visit(rows.Keys, key, w, items[n]) == Walk(rows.Keys, key, Start(rows, nextId), items);
    }
  }

  /** A row that is not saved keeps its stored record. */
  lemma {:induction false} WalkUnsaved(rows: map<int, Record>, nextId: int, key: string, items: seq<Item>)
    requires Keyed(rows, nextId, key)
    ensures var w := Walk(rows.Keys, key, Start(rows, nextId), items);
            forall id :: id in rows && id !in w.saved ==> id in w.rows && w.rows[id] == rows[id]
    decreases |items|
  {
    if items != [] {
      var n := |items| - 1;
      WalkUnsaved(rows, nextId, key, items[..n]);
      WalkKeepsKeyed(rows.Keys, key, Start(rows, nextId), items[..n]);
    }
  }

  /** Items that name no given id leave that id's row alone. */
  lemma {:induction false} WalkLeavesUnnamed(existing: set<int>, key: string, p: Pass, items: seq<Item>, id: int)
    requires existing <= p.rows.Keys && Keyed(p.rows, p.nextId, key) && id in p.rows
    requires forall j :: 0 <= j < |items| ==> !Names(items[j], key, id)
    ensures var w := Walk(existing, key, p, items);
            id in w.rows && w.rows[id] == p.rows[id]
    decreases |items|
  {
    if items != [] {
      var n := |items| - 1;
      WalkLeavesUnnamed(existing, key, p, items[..n], id);
      WalkKeepsKeyed(existing, key, p, items[..n]);
      assert !Names(items[n], key, id);
    }
  }

  /** After the reconciliation the relation holds exactly the existing ids
      some item names and the ids just created; every other existing id is
      deleted. A chunk size below 1 deletes nothing. */
  lemma RetainsExactlyNamedAndCreated(rows: map<int, Record>, nextId: int, key: string, items: seq<Item>, chunkSize: int)
    requires Keyed(rows, nextId, key)
    ensures var r := Reconcile(rows, nextId, key, items, chunkSize);
            && r.deleted == (if chunkSize > 0 then rows.Keys - Named(rows, key, items) else {})
            && r.rows.Keys == (rows.Keys - r.deleted) + Elements(r.created)
            && Keyed(r.rows, r.nextId, key)
  {
    var w := Walk(rows.Keys, key, Start(rows, nextId), items);
    var r := Reconcile(rows, nextId, key, items, chunkSize);
    var doomed := if chunkSize > 0 then rows.Keys - Elements(w.synced) else {};
    assert r.rows == w.rows - doomed && r.deleted == doomed;
    assert doomed == (if chunkSize > 0 then rows.Keys - Named(rows, key, items) else {}) by {
      WalkSynced(rows, nextId, key, items);
      CreatedAreNew(rows, nextId, key, items);
    }
    assert r.rows.Keys == (rows.Keys - doomed) + Elements(r.created) by {
      WalkAllocates(rows, nextId, key, items);
      CreatedAreNew(rows, nextId, key, items);
    }
    assert Keyed(r.rows, r.nextId, key) by {
      WalkKeepsKeyed(rows.Keys, key, Start(rows, nextId), items);
      KeyedRemove(w.rows, w.nextId, key, doomed);
    }
  }

  /** The ids the foreach creates are not ids the relation already held. */
  lemma CreatedAreNew(rows: map<int, Record>, nextId: int, key: string, items: seq<Item>)
    requires Keyed(rows, nextId, key)
    ensures Elements(Walk(rows.Keys, key, Start(rows, nextId), items).created) !! rows.Keys
  {
    WalkAllocates(rows, nextId, key, items);
    KeyedBelow(rows, nextId, key);
    var created := Walk(rows.Keys, key, Start(rows, nextId), items).created;
    forall id | id in Elements(created) ensures id !in rows {
      var k :| 0 <= k < |created| && created[k] == id;
    }
  }


  /** An existing child named by an item (and by no later item) survives,
      and afterwards every field of that item reads back the same as the
      item gives it. */
  lemma NamedChildTakesItemFields(rows: map<int, Record>, nextId: int, key: string, items: seq<Item>, chunkSize: int, i: int, id: int)
    requires Keyed(rows, nextId, key)
    requires 0 <= i < |items| && id in rows && Names(items[i], key, id)
    requires forall j :: i < j < |items| ==> !Names(items[j], key, id)
    ensures var r := Reconcile(rows, nextId, key, items, chunkSize);
            && id in r.rows && id !in r.deleted
            && forall f :: f in items[i] ==> f in r.rows[id] && Loosely(r.rows[id][f], items[i][f])
  {
    var existing := rows.Keys;
    var p0 := Start(rows, nextId);
    var head, tail := items[..i + 1], items[i + 1..];
    assert items == head + tail;
    WalkAppend(existing, key, p0, head, tail);
    assert head[..i] == items[..i];
    var before := Walk(existing, key, p0, items[..i]);
    WalkKeepsKeyed(existing, key, p0, items[..i]);
    var item := items[i];
    var after := Visit(existing, key, before, item);
    assert after == Walk(existing, key, p0, head);
    WalkKeepsKeyed(existing, key, p0, head);
    ArrayKeyPrintsAsKey(Field(item, key));
    forall f | f in item ensures f in after.rows[id] && Loosely(after.rows[id][f], item[f]) {
      if Differs(item, before.rows[id]) && f == key {
        assert after.rows[id][key] == Int(id);
      }
    }
    WalkLeavesUnnamed(existing, key, after, tail, id);
    WalkSynced(rows, nextId, key, items);
    assert id in Named(rows, key, items);
  }

  /** A child that is not saved keeps its record; only named children are
      ever saved. */
  lemma UnsavedChildUntouched(rows: map<int, Record>, nextId: int, key: string, items: seq<Item>, chunkSize: int)
    requires Keyed(rows, nextId, key)
    ensures var r := Reconcile(rows, nextId, key, items, chunkSize);
            && Elements(r.saved) <= Named(rows, key, items)
            && forall id :: id in rows && id in r.rows && id !in r.saved ==> r.rows[id] == rows[id]
  {
    WalkUnsaved(rows, nextId, key, items);
    WalkSynced(rows, nextId, key, items);
  }

  /** Each item without key creates exactly one child, under the next made
      id, holding the item's fields; the created children are never deleted. */
  lemma CreatesOnePerNewItem(rows: map<int, Record>, nextId: int, key: string, items: seq<Item>, chunkSize: int)
    requires Keyed(rows, nextId, key)
    ensures var r := Reconcile(rows, nextId, key, items, chunkSize);
            var made := NewItems(items, key);
            && |r.created| == |made|
            && r.nextId == nextId + |made|
            && forall k :: 0 <= k < |made| ==>
                 && r.created[k] == nextId + k
                 && r.created[k] !in rows
                 && r.created[k] in r.rows
                 && r.rows[r.created[k]] == Created(made[k], key, r.created[k])
  {
    WalkAllocates(rows, nextId, key, items);
    var r := Reconcile(rows, nextId, key, items, chunkSize);
    var made := NewItems(items, key);
    forall k | 0 <= k < |made|
      ensures r.created[k] !in rows && r.created[k] in r.rows
      ensures r.rows[r.created[k]] == Created(made[k], key, r.created[k])
    {
      CreatedSurvives(rows, nextId, key, items, chunkSize, k);
    }
  }

  /** A row the foreach adds under an id the relation did not hold is not
      deleted, and the reconciliation reports the foreach's created ids. */
  lemma ReconcileKeepsAdded(rows: map<int, Record>, nextId: int, key: string, items: seq<Item>, chunkSize: int, id: int)
    requires id !in rows
    requires id in Walk(rows.Keys, key, Start(rows, nextId), items).rows
    ensures var r := Reconcile(rows, nextId, key, items, chunkSize);
            && id in r.rows && r.rows[id] == Walk(rows.Keys, key, Start(rows, nextId), items).rows[id]
            && r.created == Walk(rows.Keys, key, Start(rows, nextId), items).created
  {
  }

  /** The k-th created child is new and survives the deletions. */
  lemma CreatedSurvives(rows: map<int, Record>, nextId: int, key: string, items: seq<Item>, chunkSize: int, k: int)
    requires Keyed(rows, nextId, key)
    requires 0 <= k < |NewItems(items, key)|
    ensures var r := Reconcile(rows, nextId, key, items, chunkSize);
            && k < |r.created| && r.created[k] == nextId + k
            && r.created[k] !in rows && r.created[k] in r.rows
            && r.rows[r.created[k]] == Created(NewItems(items, key)[k], key, r.created[k])
  {
    var id := nextId + k;
    assert id !in rows by {
      KeyedBelow(rows, nextId, key);
    }
    var w := Walk(rows.Keys, key, Start(rows, nextId), items);
    assert k < |w.created| && w.created[k] == id by {
      WalkAllocates(rows, nextId, key, items);
    }
    assert id in w.rows && w.rows[id] == Created(NewItems(items, key)[k], key, id) by {
      WalkCreates(rows, nextId, key, items, k);
    }
    ReconcileKeepsAdded(rows, nextId, key, items, chunkSize, id);
  }

  /** An item whose non-empty key names no existing child is dropped: the
      reconciliation comes out the same without it. */
  lemma UnknownKeyDropped(rows: map<int, Record>, nextId: int, key: string, items: seq<Item>, chunkSize: int, i: int)
    requires 0 <= i < |items|
    requires !IsNew(items[i], key)
    requires forall id :: id in rows ==> !Names(items[i], key, id)
    ensures Reconcile(rows, nextId, key, items, chunkSize) == Reconcile(rows, nextId, key, items[..i] + items[i + 1..], chunkSize)
  {
    var existing := rows.Keys;
    var p0 := Start(rows, nextId);
    var a, b := items[..i], items[i + 1..];
    assert items == (a + [items[i]]) + b;
    WalkAppend(existing, key, p0, a + [items[i]], b);
    WalkAppend(existing, key, p0, a, [items[i]]);
    WalkAppend(existing, key, p0, a, b);
    var pa := Walk(existing, key, p0, a);
    assert [items[i]][..0] == items[..0];
    assert Walk(existing, key, pa, [items[i]]) == pa;
  }

  /** With every item keyed, no item differing from the record it names
      means no save, no create and no change. */
  lemma {:induction false} NoDifferenceNoWrites(rows: map<int, Record>, nextId: int, key: string, items: seq<Item>)
    requires forall i :: 0 <= i < |items| ==> !IsNew(items[i], key)
    requires forall i, id :: 0 <= i < |items| && id in rows && Names(items[i], key, id) ==> !Differs(items[i], rows[id])
    ensures var w := Walk(rows.Keys, key, Start(rows, nextId), items);
            w.rows == rows && w.nextId == nextId && w.saved == [] && w.created == []
    decreases |items|
  {
    if items != [] {
      var n := |items| - 1;
      NoDifferenceNoWrites(rows, nextId, key, items[..n]);
      assert !IsNew(items[n], key);
      var k := Field(items[n], key);
      if ArrayKey(k).Some? && ArrayKey(k).value in rows {
        assert Names(items[n], key, ArrayKey(k).value);
      }
    }
  }

  /** Per child: a stored child that no item naming it differs from is never
      saved and keeps its record through the foreach, whatever the other
      items do. */
  lemma {:induction false} WalkSavesOnlyOnDifference(rows: map<int, Record>, nextId: int, key: string, items: seq<Item>, id: int)
    requires Keyed(rows, nextId, key) && id in rows
    requires forall i :: 0 <= i < |items| && Names(items[i], key, id) ==> !Differs(items[i], rows[id])
    ensures var w := Walk(rows.Keys, key, Start(rows, nextId), items);
            id !in w.saved && id in w.rows && w.rows[id] == rows[id]
    decreases |items|
  {
    if items != [] {
      var n := |items| - 1;
      WalkSavesOnlyOnDifference(rows, nextId, key, items[..n], id);
      WalkKeepsKeyed(rows.Keys, key, Start(rows, nextId), items[..n]);
      var w := Walk(rows.Keys, key, Start(rows, nextId), items[..n]);
      assert w.rows[id][key] == Int(id);
      var k := Field(items[n], key);
      if !Empty(k) && ArrayKey(k).Some? && ArrayKey(k).value == id {
        assert Names(items[n], key, id);
      }
    }
  }

  /** The per-child rule on the whole reconciliation: a child that no item
      naming it differs from is not saved, and if it survives it keeps its
      record. */
  lemma SavesOnlyOnDifference(rows: map<int, Record>, nextId: int, key: string, items: seq<Item>, chunkSize: int, id: int)
    requires Keyed(rows, nextId, key) && id in rows
    requires forall i :: 0 <= i < |items| && Names(items[i], key, id) ==> !Differs(items[i], rows[id])
    ensures var r := Reconcile(rows, nextId, key, items, chunkSize);
            id !in r.saved && (id in r.rows ==> r.rows[id] == rows[id])
  {
    WalkSavesOnlyOnDifference(rows, nextId, key, items, id);
  }

  /** Keyed items, no two naming the same id. */
  predicate DistinctKeys(items: seq<Item>, key: string) {
    forall i, j :: 0 <= i < j < |items| && ArrayKey(Field(items[i], key)).Some? ==>
      ArrayKey(Field(items[i], key)) != ArrayKey(Field(items[j], key))
  }

  /** After one reconciliation, no item differs from the child it names. */
  lemma FirstPassSettles(rows: map<int, Record>, nextId: int, key: string, items: seq<Item>, chunkSize: int)
    requires Keyed(rows, nextId, key)
    requires forall i :: 0 <= i < |items| ==> !IsNew(items[i], key)
    requires DistinctKeys(items, key)
    ensures var r1 := Reconcile(rows, nextId, key, items, chunkSize);
            && r1.created == [] && r1.nextId == nextId
            && r1.rows.Keys <= Named(rows, key, items) + (rows.Keys - r1.deleted)
            && forall i, id :: 0 <= i < |items| && id in r1.rows && Names(items[i], key, id) ==> !Differs(items[i], r1.rows[id])
  {
    var r1 := Reconcile(rows, nextId, key, items, chunkSize);
    RetainsExactlyNamedAndCreated(rows, nextId, key, items, chunkSize);
    CreatesOnePerNewItem(rows, nextId, key, items, chunkSize);
    NoNewItems(items, key);
    forall i, id | 0 <= i < |items| && id in r1.rows && Names(items[i], key, id)
      ensures !Differs(items[i], r1.rows[id])
    {
      NamedChildTakesItemFields(rows, nextId, key, items, chunkSize, i, id);
    }
  }

  /** Running the reconciliation a second time with the same keyed items,
      each naming a different id, writes nothing: no save, no create, no
      delete. */
  lemma ReconcileIdempotent(rows: map<int, Record>, nextId: int, key: string, items: seq<Item>, chunkSize: int)
    requires Keyed(rows, nextId, key)
    requires forall i :: 0 <= i < |items| ==> !IsNew(items[i], key)
    requires DistinctKeys(items, key)
    ensures var r1 := Reconcile(rows, nextId, key, items, chunkSize);
            var r2 := Reconcile(r1.rows, r1.nextId, key, items, chunkSize);
            && r1.created == []
            && r2.saved == [] && r2.created == [] && r2.deleted == {}
            && r2.rows == r1.rows && r2.nextId == r1.nextId
  {
    var r1 := Reconcile(rows, nextId, key, items, chunkSize);
    FirstPassSettles(rows, nextId, key, items, chunkSize);
    RetainsExactlyNamedAndCreated(rows, nextId, key, items, chunkSize);
    if chunkSize > 0 {
      NamedStillNamed(rows, r1.rows, key, items);
    }
    SecondPassIdle(r1.rows, r1.nextId, key, items, chunkSize);
  }

  /** Ids some item names among the old rows are named among the new rows
      too, as long as they are still there. */
  lemma NamedStillNamed(rows: map<int, Record>, rows': map<int, Record>, key: string, items: seq<Item>)
    requires rows'.Keys <= Named(rows, key, items)
    ensures rows'.Keys <= Named(rows', key, items)
  {
    forall id | id in rows' ensures id in Named(rows', key, items) {
      assert id in Named(rows, key, items);
    }
  }

  /** A reconciliation over keyed items that differ from nothing they name,
      and that name every child (when deletes happen at all), writes
      nothing. */
  lemma SecondPassIdle(rows: map<int, Record>, nextId: int, key: string, items: seq<Item>, chunkSize: int)
    requires Keyed(rows, nextId, key)
    requires forall i :: 0 <= i < |items| ==> !IsNew(items[i], key)
    requires forall i, id :: 0 <= i < |items| && id in rows && Names(items[i], key, id) ==> !Differs(items[i], rows[id])
    requires chunkSize > 0 ==> rows.Keys <= Named(rows, key, items)
    ensures Reconcile(rows, nextId, key, items, chunkSize).saved == []
    ensures Reconcile(rows, nextId, key, items, chunkSize).created == []
    ensures Reconcile(rows, nextId, key, items, chunkSize).deleted == {}
    ensures Reconcile(rows, nextId, key, items, chunkSize).rows == rows
    ensures Reconcile(rows, nextId, key, items, chunkSize).nextId == nextId
  {
    NoDifferenceNoWrites(rows, nextId, key, items);
    RetainsExactlyNamedAndCreated(rows, nextId, key, items, chunkSize);
  }

  lemma {:induction false} NoNewItems(items: seq<Item>, key: string)
    requires forall i :: 0 <= i < |items| ==> !IsNew(items[i], key)
    ensures NewItems(items, key) == []
    decreases |items|
  {
    if items != [] {
      NoNewItems(items[..|items| - 1], key);
    }
  }

  /** Insert-ignore keeps the rows already there, in front, adds only given
      items, and every item ends up either inserted or colliding with a row
      of the table. */
  lemma {:induction false} InsertIgnoringShape(rows: seq<Record>, items: seq<Item>, uniqueKey: string)
    ensures var r := InsertIgnoring(rows, items, uniqueKey);
            && |rows| <= |r| <= |rows| + |items|
            && r[..|rows|] == rows
            && (forall x :: x in r[|rows|..] ==> x in items)
            && (forall i :: 0 <= i < |items| ==> items[i] in r || Clashes(r, items[i], uniqueKey))
    decreases |items|
  {
    if items != [] {
      var n := |items| - 1;
      InsertIgnoringShape(rows, items[..n], uniqueKey);
      var before := InsertIgnoring(rows, items[..n], uniqueKey);
      var r := InsertIgnoring(rows, items, uniqueKey);
      assert r[..|before|] == before;
      forall x | x in r[|rows|..] ensures x in items {
        if x !in before[|rows|..] {
          assert x == items[n];
        }
      }
      forall i | 0 <= i < |items| ensures items[i] in r || Clashes(r, items[i], uniqueKey) {
        if i < n {
          assert items[..n][i] == items[i];
          if Clashes(before, items[i], uniqueKey) {
            var w :| w in before && Collides(w, items[i], uniqueKey);
            assert w in r;
          } else {
            assert items[i] in before;
          }
        }
      }
    }
  }

  /** Two items sharing a unique value, inserted into an empty table, leave
      one row: the second is skipped. */
  lemma InsertIgnoringDuplicatePair(uniqueKey: string, a: Item, b: Item)
    requires Field(a, uniqueKey) != Null && Field(b, uniqueKey) != Null
    requires Loosely(Field(a, uniqueKey), Field(b, uniqueKey))
    ensures InsertIgnoring([], [a, b], uniqueKey) == [a]
  {
    assert [a, b][..1] == [a];
    assert [a][..0] == [];
    assert InsertIgnoring([], [a], uniqueKey) == [a];
    assert Clashes([a], b, uniqueKey) by {
      assert a in [a] && Collides(a, b, uniqueKey);
    }
  }

  /** The children `replaceHasMany` leaves are exactly the items, in order,
      under the ids nextId .. nextId + |items| - 1. */
  lemma {:induction false} ReplacementHoldsExactlyItems(nextId: int, key: string, items: seq<Item>)
    ensures forall id :: id in Replacement(nextId, key, items) <==> nextId <= id < nextId + |items|
    ensures forall id :: id in Replacement(nextId, key, items) ==>
              Replacement(nextId, key, items)[id] == Created(items[id - nextId], key, id)
    decreases |items|
  {
    if items != [] {
      var n := |items| - 1;
      ReplacementHoldsExactlyItems(nextId, key, items[..n]);
      var before := Replacement(nextId, key, items[..n]);
      assert forall id :: id in before ==> nextId <= id < nextId + n;
      assert Replacement(nextId, key, items) == before[nextId + n := Created(items[n], key, nextId + n)];
      forall id | id in Replacement(nextId, key, items)
        ensures Replacement(nextId, key, items)[id] == Created(items[id - nextId], key, id)
      {
        if id != nextId + n {
          assert items[..n][id - nextId] == items[id - nextId];
        }
      }
    }
  }

  /** Deleting 75 ids with a chunk size of 50 takes two statements, of 50
      and 25 ids. */
  lemma SeventyFiveInBatchesOfFifty(ids: seq<int>)
    requires |ids| == 75
    ensures var b := CollectionChunk(ids, 50);
            |b| == 2 && |b[0]| == 50 && |b[1]| == 25
  {
    var b := Chunk(ids, 50);
    ChunkCount(ids, 50);
    assert CeilDiv(75, 50) == 2;
    assert b == [b[0], b[1]];
    assert Flatten(b) == b[0] + Flatten([b[1]]);
    assert Flatten([b[1]]) == b[1] + Flatten([]);
  }

  /** With the default chunk size, `insertOrIgnore` sends 75 rows in three
      statements of 30, 30 and 15 rows. */
  lemma InsertDefaultStatements<T>(items: seq<T>)
    requires |items| == 75
    ensures var b := Chunk(items, InsertChunkSize);
            |b| == 3 && |b[0]| == 30 && |b[1]| == 30 && |b[2]| == 15
  {
    var b := Chunk(items, InsertChunkSize);
    ChunkCount(items, InsertChunkSize);
    assert CeilDiv(15, 30) == 1;
    assert CeilDiv(45, 30) == 2;
    assert CeilDiv(75, 30) == 3;
    assert b == [b[0], b[1], b[2]];
    assert Flatten(b) == b[0] + Flatten([b[1], b[2]]);
    assert Flatten([b[1], b[2]]) == b[1] + Flatten([b[2]]);
    assert Flatten([b[2]]) == b[2] + Flatten([]);
  }

  /** With the default chunk size, `replaceHasMany` creates 75 children in
      two `createMany` calls of 50 and 25 items. */
  lemma ReplaceDefaultBatches<T>(items: seq<T>)
    requires |items| == 75
    ensures var b := Chunk(items, ReplaceChunkSize);
            |b| == 2 && |b[0]| == 50 && |b[1]| == 25
  {
    var b := Chunk(items, ReplaceChunkSize);
    ChunkCount(items, ReplaceChunkSize);
    assert CeilDiv(75, 50) == 2;
    assert b == [b[0], b[1]];
    assert Flatten(b) == b[0] + Flatten([b[1]]);
    assert Flatten([b[1]]) == b[1] + Flatten([]);
  }

  /** `getValueOrZero` is `normalizeNumber` with default 0. */
  lemma ValueOrZeroIsNormalizedToZero(value: Option<int>)
    ensures GetValueOrZero(value) == NormalizeNumber(value, NormalizeDefault)
  {
  }

  lemma WalkOne(existing: set<int>, key: string, p: Pass, item: Item)
    requires existing <= p.rows.Keys
    ensures Walk(existing, key, p, [item]) == Visit(existing, key, p, item)
  {
    assert [item][..0] == [];
  }

  /** Children 1 "A" and 2 "B", items [id 1 "A2", "C"]. */
  const ChildA: Record := map["id" := Int(1), "name" := Str("A")]
  const ChildB: Record := map["id" := Int(2), "name" := Str("B")]
  const ItemA2: Item := map["id" := Int(1), "name" := Str("A2")]
  const ItemC: Item := map["name" := Str("C")]
  const CreatedC: Record := map["name" := Str("C"), "id" := Int(3)]

  lemma ExampleUpdate()
    ensures Visit({1, 2}, "id", Start(map[1 := ChildA, 2 := ChildB], 3), ItemA2)
            == Pass(map[1 := ItemA2, 2 := ChildB], 3, [1], [1], [])
  {
    assert Differs(ItemA2, ChildA) by {
      assert "name" in ItemA2 && StringForm(ItemA2["name"]) != StringForm(ChildA["name"]);
    }
    assert Filled(ChildA, ItemA2, "id") == ItemA2;
  }

  lemma ExampleCreate()
    ensures Visit({1, 2}, "id", Pass(map[1 := ItemA2, 2 := ChildB], 3, [1], [1], []), ItemC)
            == Pass(map[1 := ItemA2, 2 := ChildB, 3 := CreatedC], 4, [1, 3], [1], [3])
  {
    assert Field(ItemC, "id") == Null;
    assert Created(ItemC, "id", 3) == CreatedC;
  }

  lemma ExampleWalk()
    ensures Walk({1, 2}, "id", Start(map[1 := ChildA, 2 := ChildB], 3), [ItemA2, ItemC])
            == Pass(map[1 := ItemA2, 2 := ChildB, 3 := CreatedC], 4, [1, 3], [1], [3])
  {
    var p0 := Start(map[1 := ChildA, 2 := ChildB], 3);
    var p1 := Pass(map[1 := ItemA2, 2 := ChildB], 3, [1], [1], []);
    ExampleUpdate();
    WalkOne({1, 2}, "id", p0, ItemA2);
    ExampleCreate();
    WalkAppend({1, 2}, "id", p0, [ItemA2], [ItemC]);
    WalkOne({1, 2}, "id", p1, ItemC);
    assert [ItemA2] + [ItemC] == [ItemA2, ItemC];
  }

  /** Child 1 is updated to "A2", child 3 is created for "C", and child 2
      is deleted. */
  lemma UpdateCreateDeleteExample()
    ensures var r := Reconcile(map[1 := ChildA, 2 := ChildB], 3, "id", [ItemA2, ItemC], SyncChunkSize);
            && r.rows == map[1 := ItemA2, 3 := CreatedC]
            && r.saved == [1] && r.created == [3] && r.deleted == {2}
  {
    var rows := map[1 := ChildA, 2 := ChildB];
    assert rows.Keys == {1, 2};
    ExampleWalk();
    assert rows.Keys - Elements([1, 3]) == {2} by {
      assert Elements([1, 3]) == {1, 3};
    }
    DropMiddle(ItemA2, ChildB, CreatedC);
  }

  lemma DropMiddle<V>(a: V, b: V, c: V)
    ensures map[1 := a, 2 := b, 3 := c] - {2} == map[1 := a, 3 := c]
  {
  }
}
