/** core/src/core/Collection.ts: the collection object. Each method is proved to do
    to the store, the counter and the index objects what the state machine of the
    engine does, exceptions included. */
module Collections {
  import opened Updates
  import opened Folds
  import opened Trees
  import opened IdMaps
  import opened Indexes
  import opened Engine

  /** The method ended as the state machine says: returned, or threw `e`. */
  ghost predicate Follows<V(!new), S(!new)>(e: Option<Error>, db: Db<V, S>, r: Outcome<V, S>) {
    && db == r.db
    && e == (if r.Returned? then None else Some(r.error))
  }

  class Collection<V(==, !new), S(!new)> {
    const truthy: V -> bool
    const store: IdMap<V>
    var last: Id
    var indexes: seq<Index<V, S>>
    /** The objects that make up the indexes. */
    ghost var frame: set<object>

    ghost predicate Valid()
      reads this, store, indexes, frame
    {
      && store.Valid()
      && this !in frame && store !in frame
      && Apart(indexes, frame)
    }

    ghost function Abstract(): Db<V, S>
      requires Valid()
      reads this, store, indexes, frame
    {
      Db(last, store.contents, SpecsOf(indexes), AbsAll(indexes, frame))
    }

    constructor (truthy: V -> bool)
      ensures Valid() && fresh(store) && fresh(frame) && Abstract() == Empty() && this.truthy == truthy
    {
      this.truthy := truthy;
      store := new IdMap();
      last, indexes, frame := 0, [], {};
      new;
      assert SpecsOf(indexes) == [] && AbsAll(indexes, frame) == [];
    }

    /** `propagateUpdate`: all indexes prepare, then all hooks run. */
    method Propagate(u: Update<V>) returns (e: Option<Error>)
      requires Valid()
      modifies this`frame, frame
      ensures Valid() && fresh(frame - old(frame))
      ensures Follows(e, Abstract(), Engine.Propagate(old(Abstract()), u))
    {
      var r;
      ghost var grown;
      r, grown := PrepareEach(indexes, u, frame);
      frame := grown;
      if r.ThrownAll? {
        return Some(r.error);
      }
      e, grown := CommitEach(indexes, r.hooks, frame);
      frame := grown;
    }

    method Get(id: Id) returns (value: Option<V>)
      requires Valid()
      ensures value == Engine.Get(Abstract().store, id)
    {
      value := store.Get(id);
    }

    /** `newId`: the counter steps, wrapping around. */
    method NewId() returns (id: Id)
      modifies this`last
      ensures id == last == NextId(old(last))
    {
      last := if last + 1 == ID_LIMIT then 0 else last + 1;
      id := last;
    }

    method Add(value: V) returns (id: Id, e: Option<Error>)
      requires Valid()
      modifies this, store, frame
      ensures Valid() && fresh(frame - old(frame))
      ensures id == NextId(old(last))
      ensures Follows(e, Abstract(), AddOp(old(Abstract()), value))
    {
      id := NewId();
      store.Set(id, value);
      e := Propagate(AddUpdate(id, value));
    }

    method Delete(id: Id) returns (oldValue: Option<V>, e: Option<Error>)
      requires Valid()
      modifies this, store, frame
      ensures Valid() && fresh(frame - old(frame))
      ensures oldValue == Engine.Get(old(Abstract()).store, id)
      ensures Follows(e, Abstract(), DeleteOp(old(Abstract()), id))
    {
      oldValue := store.Get(id);
      if oldValue.None? {
        return None, None;
      }
      store.Delete(id);
      e := Propagate(DeleteUpdate(id, oldValue.value));
    }

    method Set(id: Id, newValue: V) returns (e: Option<Error>)
      requires Valid()
      modifies this, store, frame
      ensures Valid() && fresh(frame - old(frame))
      ensures Follows(e, Abstract(), SetOp(old(Abstract()), id, newValue))
    {
      if id > last {
        last := id;
      }
      var oldValue := store.Get(id);
      store.Set(id, newValue);
      var update :=
        if oldValue.None? then AddUpdate(id, newValue)
        else UpdateUpdate(id, oldValue.value, newValue);
      e := Propagate(update);
    }

    /** The callback also makes the value that `alter` returns. */
    method Alter<R>(id: Id, f: Option<V> -> (Option<V>, R)) returns (ret: Option<R>, e: Option<Error>)
      requires Valid()
      modifies this, store, frame
      ensures Valid() && fresh(frame - old(frame))
      ensures Follows(e, Abstract(), AlterOp(truthy, old(Abstract()), id, pre => f(pre).0))
      ensures ret == if e.None? then Some(f(Engine.Get(old(Abstract()).store, id)).1) else None
    {
      var pre := store.Get(id);
      if pre.Some? && truthy(pre.value) {
        var gone;
        gone, e := Delete(id);
        if e.Some? {
          return None, e;
        }
      }
      var (post, made) := f(pre);
      e := None;
      if post.Some? && truthy(post.value) {
        e := Set(id, post.value);
      }
      ret := if e.None? then Some(made) else None;
    }

    method Adjust(id: Id, g: V -> V) returns (e: Option<Error>)
      requires Valid()
      modifies this, store, frame
      ensures Valid() && fresh(frame - old(frame))
      ensures Follows(e, Abstract(), AdjustOp(truthy, old(Abstract()), id, g))
    {
      var adjusting := Adjusting(truthy, g);
      var unit;
      unit, e := Alter(id, pre => (adjusting(pre), ()));
      AlterSame(truthy, old(Abstract()), id, pre => (adjusting(pre), ()).0, adjusting);
    }

    /** Each stored item once, in no particular order. */
    method ToList() returns (entries: seq<(Id, V)>)
      requires Valid()
      ensures Lists(entries, Abstract().store)
    {
      entries := store.Entries();
    }

    /** Replays the store into a new index, in the order the store happens to be
        enumerated, and registers it unless the replay throws. */
    method RegisterIndex(spec: Spec<V, S>) returns (ix: Index<V, S>, e: Option<Error>, ghost order: seq<Id>)
      requires Valid() && Ordered(spec)
      modifies this`indexes, this`frame
      ensures Valid() && fresh(frame - old(frame))
      ensures Enumerates(order, old(Abstract()).store.Keys)
      ensures Follows(e, Abstract(), RegisterOp(old(Abstract()), spec, order))
      ensures e.None? ==> indexes == old(indexes) + [ix]
    {
      ix, e, order := BuildIndex(spec);
      RegisterIs(Abstract(), spec, order);
      if e.None? {
        Append(ix);
      }
    }

    /** A new index with the whole store replayed into it. */
    method BuildIndex(spec: Spec<V, S>) returns (ix: Index<V, S>, e: Option<Error>, ghost order: seq<Id>)
      requires Valid() && Ordered(spec)
      ensures ix.Valid() && fresh(ix.Repr) && ix.spec == spec
      ensures Enumerates(order, store.contents.Keys)
      ensures Finishes(e, ix.Abs(), Replay(spec, Trees.Register(spec), store.contents, order))
    {
      ix := NewIndex(spec);
      var entries := store.Entries();
      order := IdsOf(entries);
      ListsEnumerates(entries, store.contents);
      e := ReplayInto(ix, entries, store.contents);
    }

    /** `this.indexes.push(index)`. */
    method Append(ix: Index<V, S>)
      requires Valid() && ix.Valid() && ix.Repr !! frame && this !in ix.Repr && store !in ix.Repr
      modifies this`indexes, this`frame
      ensures Valid() && indexes == old(indexes) + [ix] && frame == old(frame) + ix.Repr
      ensures var db := old(Abstract());
              Abstract() == db.(specs := db.specs + [ix.spec], indexes := db.indexes + [ix.Abs()])
    {
      indexes := indexes + [ix];
      frame := frame + ix.Repr;
      assert SpecsOf(indexes) == old(SpecsOf(indexes)) + [ix.spec];
      assert AbsAll(indexes, frame) == old(AbsAll(indexes, frame)) + [ix.Abs()];
    }
  }

  lemma AlterSame<V(!new), S(!new)>(
    truthy: V -> bool, db: Db<V, S>, id: Id, f: Option<V> -> Option<V>, g: Option<V> -> Option<V>)
    requires f(Engine.Get(db.store, id)) == g(Engine.Get(db.store, id))
    ensures AlterOp(truthy, db, id, f) == AlterOp(truthy, db, id, g)
  {
  }

  /** `playCalls` of the test suite: a list of add, set and delete calls, stopped by
      the first that throws. Started on a good collection it ends on a good one. */
  method PlayCalls<V(==, !new), S(!new)>(c: Collection<V, S>, calls: seq<Op<V, S>>) returns (e: Option<Error>)
    requires c.Valid()
    requires forall i | 0 <= i < |calls| :: calls[i].Add? || calls[i].Set? || calls[i].Delete?
    modifies c, c.store, c.frame
    ensures c.Valid()
    ensures Follows(e, c.Abstract(), Run(c.truthy, old(c.Abstract()), calls))
    ensures Good(old(c.Abstract())) && ProperRun(c.truthy, old(c.Abstract()), calls) && e.None? ==> Good(c.Abstract())
  {
    ghost var whole := Run(c.truthy, c.Abstract(), calls);
    ghost var start := c.Abstract();
    for i := 0 to |calls|
      invariant c.Valid() && fresh(c.frame - old(c.frame))
      invariant whole == Run(c.truthy, c.Abstract(), calls[i..])
    {
      RunOne(c.truthy, c.Abstract(), calls, i);
      var thrown := Play(c, calls[i]);
      if thrown.Some? {
        return thrown;
      }
    }
    e := None;
    if Good(start) && ProperRun(c.truthy, start, calls) {
      RunCorrect(c.truthy, start, calls);
    }
  }

  method Play<V(==, !new), S(!new)>(c: Collection<V, S>, call: Op<V, S>) returns (e: Option<Error>)
    requires c.Valid() && (call.Add? || call.Set? || call.Delete?)
    modifies c, c.store, c.frame
    ensures c.Valid() && fresh(c.frame - old(c.frame))
    ensures Follows(e, c.Abstract(), Step(c.truthy, old(c.Abstract()), call))
  {
    match call {
      case Add(value) =>
        var id;
        id, e := c.Add(value);
      case Set(id, newValue) =>
        e := c.Set(id, newValue);
      case Delete(id) =>
        var gone;
        gone, e := c.Delete(id);
    }
  }

  lemma RunOne<V(!new), S(!new)>(truthy: V -> bool, db: Db<V, S>, ops: seq<Op<V, S>>, i: nat)
    requires i < |ops|
    ensures Run(truthy, db, ops[i..]) ==
              match Step(truthy, db, ops[i])
              case Raised(db', e) => Raised(db', e)
              case Returned(db') => Run(truthy, db', ops[i + 1..])
  {
  }

  lemma RegisterIs<V(!new), S(!new)>(db: Db<V, S>, spec: Spec<V, S>, order: seq<Id>)
    ensures var c := Replay(spec, Trees.Register(spec), db.store, order);
            RegisterOp(db, spec, order) ==
              if c.Done? then Returned(db.(specs := db.specs + [spec], indexes := db.indexes + [c.state]))
              else Raised(db, c.error)
  {
  }

  ghost function IdsOf<T>(entries: seq<(Id, T)>): seq<Id> {
    seq(|entries|, i requires 0 <= i < |entries| => entries[i].0)
  }

  lemma ListsEnumerates<T>(entries: seq<(Id, T)>, m: map<Id, T>)
    requires Lists(entries, m)
    ensures Enumerates(IdsOf(entries), m.Keys)
  {
    var order := IdsOf(entries);
    forall id | id in m
      ensures id in order
    {
      assert (id, m[id]) in entries;
      var k :| 0 <= k < |entries| && entries[k] == (id, m[id]);
      assert order[k] == id;
    }
  }

  /** The loop of `registerIndex`: one committed ADD per stored item. */
  method ReplayInto<V(==, !new), S(!new)>(ix: Index<V, S>, entries: seq<(Id, V)>, ghost store: map<Id, V>)
    returns (e: Option<Error>)
    requires ix.Valid() && Lists(entries, store)
    modifies ix.Repr
    ensures ix.Valid() && fresh(ix.Repr - old(ix.Repr))
    ensures Finishes(e, ix.Abs(), Replay(ix.spec, old(ix.Abs()), store, IdsOf(entries)))
  {
    ghost var order := IdsOf(entries);
    ghost var whole := Replay(ix.spec, ix.Abs(), store, order);
    for i := 0 to |entries|
      invariant ix.Valid() && fresh(ix.Repr - old(ix.Repr))
      invariant whole == Replay(ix.spec, ix.Abs(), store, order[i..])
    {
      ReplayOne(ix.spec, ix.Abs(), store, order, i);
      var thrown := ix.UpdateNow(AddUpdate(entries[i].0, entries[i].1));
      if thrown.Some? {
        return thrown;
      }
    }
    e := None;
  }

  lemma ReplayOne<V(!new), S(!new)>(spec: Spec<V, S>, st: State<V, S>, store: map<Id, V>, order: seq<Id>, i: nat)
    requires i < |order| && order[i] in store
    ensures Replay(spec, st, store, order[i..]) ==
              match Update1(spec, st, AddUpdate(order[i], store[order[i]]))
              case Failed(st', e) => Failed(st', e)
              case Done(st') => Replay(spec, st', store, order[i + 1..])
  {
  }
}
