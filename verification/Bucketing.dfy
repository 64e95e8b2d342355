/** A mutable map from keys to mutable id sets, as the hash and the B-tree index
    keep it, and the items that queries make of ids. */
module Bucketing {
  import opened Updates
  import opened Leaves
  import opened IdMaps

  class Buckets<V(==, !new)> {
    var ix: map<V, IdSet>
    /** The same with plain sets. */
    ghost var buckets: map<V, set<Id>>
    ghost var Repr: set<object>

    ghost predicate Valid()
      reads this, Repr
    {
      && this in Repr
      && buckets.Keys == ix.Keys
      && (forall k | k in ix :: ix[k].inner in Repr && ix[k].Valid() && ix[k].Ids() == buckets[k])
      && (forall j, k | j in ix && k in ix && j != k :: ix[j].inner != ix[k].inner)
    }

    constructor ()
      ensures Valid() && fresh(Repr) && buckets == map[]
    {
      ix, buckets := map[], map[];
      Repr := {this};
    }

    method Add(id: Id, value: V)
      requires Valid()
      modifies Repr
      ensures Valid() && fresh(Repr - old(Repr))
      ensures buckets == BucketAdd(old(buckets), id, value)
    {
      if value in ix {
        AddTo(id, value);
      } else {
        AddNew(id, value);
      }
    }

    method AddNew(id: Id, value: V)
      requires Valid() && value !in ix
      modifies this
      ensures Valid() && fresh(Repr - old(Repr)) && Repr >= old(Repr)
      ensures buckets == old(buckets)[value := {id}]
    {
      var s := new IdSet.Singleton(id);
      ix, buckets := ix[value := s], buckets[value := {id}];
      Repr := Repr + {s.inner};
    }

    method AddTo(id: Id, value: V)
      requires Valid() && value in ix
      modifies Repr
      ensures Valid() && Repr == old(Repr)
      ensures buckets == old(buckets)[value := old(buckets)[value] + {id}]
    {
      ix[value].Set(id);
      buckets := buckets[value := buckets[value] + {id}];
    }

    method RemoveFrom(id: Id, value: V)
      requires Valid() && value in ix
      modifies Repr
      ensures Valid() && Repr == old(Repr)
      ensures buckets == old(buckets)[value := old(buckets)[value] - {id}]
    {
      ix[value].Delete(id);
      buckets := buckets[value := buckets[value] - {id}];
    }

    method IsEmpty(value: V) returns (empty: bool)
      requires Valid() && value in ix
      ensures empty <==> buckets[value] == {}
    {
      empty := ix[value].Empty();
    }

    method Drop(value: V)
      requires Valid() && value in ix
      modifies this
      ensures Valid() && Repr == old(Repr)
      ensures buckets == old(buckets) - {value}
    {
      ix := map k | k in ix && k != value :: ix[k];
      buckets := buckets - {value};
    }

    /** Fails, with nothing changed, when there is no bucket to remove from. */
    method Remove(id: Id, oldValue: V) returns (found: bool)
      requires Valid()
      modifies Repr
      ensures Valid() && Repr == old(Repr)
      ensures found <==> oldValue in old(buckets)
      ensures buckets == BTreeRemove(old(buckets), id, oldValue)
    {
      found := oldValue in ix;
      if found {
        BucketDrop(buckets, id, oldValue);
        RemoveFrom(id, oldValue);
        var empty := IsEmpty(oldValue);
        if empty {
          Drop(oldValue);
        }
      }
    }

    method Count() returns (n: nat)
      requires Valid()
      ensures n == |buckets|
    {
      assert |buckets| == |buckets.Keys| == |ix.Keys|;
      n := |ix|;
    }

    /** The items of one bucket, each once, with the values the store holds. */
    method Items(ctx: IdMap<V>, value: V) returns (items: seq<Item<V>>)
      requires Valid() && ctx.Valid()
      ensures ListsItems(items, if value in buckets then buckets[value] else {}, ctx.contents)
    {
      if value in ix {
        var ids := ix[value].Values();
        items := MakeItems(ids, ctx);
        ItemsList(ids, ix[value].Ids(), ctx.contents, items);
      } else {
        items := [];
      }
    }
  }

  lemma BucketDrop<V>(buckets: map<V, set<Id>>, id: Id, value: V)
    requires value in buckets
    ensures var shrunk := buckets[value := buckets[value] - {id}];
            BucketRemove(buckets, id, value) == if shrunk[value] == {} then shrunk - {value} else shrunk
  {
  }

  /** What a query returns: the id and what the collection now holds under it. */
  datatype Item<+V> = Item(id: Id, value: Option<V>)

  /** `Index.item`, given what `_indexContext.get` answers. */
  function ItemOf<V>(store: map<Id, V>, id: Id): Item<V> {
    Item(id, if id in store then Some(store[id]) else None)
  }

  method MakeItems<V>(ids: seq<Id>, ctx: IdMap<V>) returns (items: seq<Item<V>>)
    requires ctx.Valid()
    ensures |items| == |ids|
    ensures forall i | 0 <= i < |ids| :: items[i] == ItemOf(ctx.contents, ids[i])
  {
    items := [];
    for n := 0 to |ids|
      invariant |items| == n
      invariant forall i | 0 <= i < n :: items[i] == ItemOf(ctx.contents, ids[i])
    {
      var value := ctx.Get(ids[n]);
      items := items + [Item(ids[n], value)];
    }
  }

  /** The items are those of the ids, each once, with the values the store has there. */
  ghost predicate ListsItems<V(!new)>(items: seq<Item<V>>, ids: set<Id>, store: map<Id, V>) {
    && (forall i, j | 0 <= i < j < |items| :: items[i].id != items[j].id)
    && (forall item | item in items :: item.id in ids)
    && (forall item | item in items :: item.value == if item.id in store then Some(store[item.id]) else None)
    && (forall id | id in ids :: ItemOf(store, id) in items)
  }

  lemma ItemsList<V(!new)>(ids: seq<Id>, all: set<Id>, store: map<Id, V>, items: seq<Item<V>>)
    requires forall i, j | 0 <= i < j < |ids| :: ids[i] != ids[j]
    requires forall id :: id in ids <==> id in all
    requires |items| == |ids| && forall i | 0 <= i < |ids| :: items[i] == ItemOf(store, ids[i])
    ensures ListsItems(items, all, store)
  {
  }

  /** As many items as ids. */
  lemma {:induction false} ItemsCount<V(!new)>(items: seq<Item<V>>, ids: set<Id>, store: map<Id, V>)
    requires ListsItems(items, ids, store)
    ensures |items| == |ids|
    decreases ids
  {
    if items == [] {
      assert ids == {};
    } else {
      var n := |items| - 1;
      var front, last := items[..n], items[n];
      assert items == front + [last] && last in items;
      forall id | id in ids - {last.id}
        ensures ItemOf(store, id) in front
      {
        assert ItemOf(store, id) in items;
      }
      ItemsCount(front, ids - {last.id}, store);
    }
  }
}
