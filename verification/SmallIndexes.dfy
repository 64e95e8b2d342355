/** The unique hash index and the fold index, whose whole state is one field. */
module SmallIndexes {
  import opened Updates
  import opened Folds
  import opened Leaves
  import opened IdMaps
  import opened Bucketing

  /** core/src/indexes/UniqueHashIndex.ts */
  class UniqueHashIndex<V(==, !new)> {
    var ix: map<V, Id>

    constructor ()
      ensures ix == map[]
    {
      ix := map[];
    }

    /** The prepare phase: true when it does not throw. Nothing changes. */
    method Check(u: Update<V>) returns (ok: bool)
      ensures ok <==> !UniqueRefuses(ix.Keys, u)
    {
      if u.AddUpdate? && u.value in ix {
        return false;
      } else if u.UpdateUpdate? && u.newValue in ix {
        return false;
      }
      return true;
    }

    method Run(u: Update<V>)
      modifies this
      ensures ix == UniqueCommit(old(ix), u)
    {
      match u {
        case AddUpdate(id, value) =>
          ix := ix[value := id];
        case UpdateUpdate(id, oldValue, newValue) =>
          ix := ix - {oldValue};
          ix := ix[newValue := id];
        case DeleteUpdate(_, oldValue) =>
          ix := ix - {oldValue};
      }
    }

    method CountDistinct() returns (n: nat)
      ensures n == |ix|
      ensures forall m: map<Id, V> | Inverse(ix, m) :: n == |m|
    {
      n := |ix|;
      forall m: map<Id, V> | Inverse(ix, m)
        ensures n == |m|
      {
        InverseSize(ix, m);
      }
    }

    /** The one item with the key, or nothing. */
    method Eq(ctx: IdMap<V>, value: V) returns (item: Option<Item<V>>)
      requires ctx.Valid()
      ensures item.Some? <==> value in ix
      ensures item.Some? ==>
                && item.value.id == ix[value]
                && item.value.value == if ix[value] in ctx.contents then Some(ctx.contents[ix[value]]) else None
      ensures forall m: map<Id, V> | Inverse(ix, m) ::
                match item
                case None => value !in m.Values
                case Some(it) =>
                  it.id in m && m[it.id] == value
                  && forall id | id in m && m[id] == value :: id == it.id
    {
      if value in ix {
        var stored := ctx.Get(ix[value]);
        item := Some(Item(ix[value], stored));
      } else {
        item := None;
      }
    }
  }

  lemma {:induction false} InverseSize<V(!new)>(owners: map<V, Id>, m: map<Id, V>)
    requires Inverse(owners, m)
    ensures |owners| == |m|
    decreases |m|
  {
    if m == map[] {
      assert owners == map[];
    } else {
      var id :| id in m;
      var k := m[id];
      assert Inverse(owners - {k}, m - {id});
      InverseSize(owners - {k}, m - {id});
      assert owners.Keys == (owners - {k}).Keys + {k};
      assert m.Keys == (m - {id}).Keys + {id};
    }
  }

  /** core/src/indexes/FoldIndex.ts */
  class FoldIndex<V, S> {
    const ops: FoldOps<V, S>
    var state: S

    constructor (ops: FoldOps<V, S>)
      ensures this.ops == ops && state == ops.init
    {
      this.ops := ops;
      state := ops.init;
    }

    method Run(u: Update<V>)
      modifies this
      ensures state == FoldStep(ops, old(state), u)
    {
      match u {
        case AddUpdate(_, value) => state := ops.add(state, value);
        case UpdateUpdate(_, oldValue, newValue) => state := ops.update(state, oldValue, newValue);
        case DeleteUpdate(_, oldValue) => state := ops.del(state, oldValue);
      }
    }

    /** `value()`, for the result function the index was made with. */
    method Value<R>(ret: S -> R) returns (value: R)
      ensures value == ret(state)
    {
      value := ret(state);
    }
  }
}
