/** Different histories, same indexes: late registration, DELETE-then-ADD against
    UPDATE, `alter` against `set` and `delete`, and replayed call lists. */
module Equivalences {
  import opened Updates
  import opened Folds
  import opened Trees
  import opened TreeProofs
  import opened Acceptance
  import opened Denotation
  import opened Engine

  /** Two states of one tree are the same up to empty groups: both are the same
      denotation grown. */
  ghost predicate SameIndex<V(!new), S(!new)>(spec: Spec<V, S>, a: State<V, S>, b: State<V, S>, m: map<Id, V>) {
    Grows(spec, Denote(spec, m), a) && Grows(spec, Denote(spec, m), b)
  }

  ghost predicate SameIndexes<V(!new), S(!new)>(
    specs: seq<Spec<V, S>>, a: seq<State<V, S>>, b: seq<State<V, S>>, m: map<Id, V>)
  {
    && |a| == |b| == |specs|
    && forall i | 0 <= i < |specs| :: SameIndex(specs[i], a[i], b[i], m)
  }

  lemma RepresentsSame<V(!new), S(!new)>(spec: Spec<V, S>, a: State<V, S>, b: State<V, S>, m: map<Id, V>)
    requires Represents(spec, a, m) && Represents(spec, b, m)
    ensures SameIndex(spec, a, b, m)
  {
    RepresentsGrown(spec, a, m);
    RepresentsGrown(spec, b, m);
  }

  /** Good collections with equal stores and specs have the same indexes. */
  lemma GoodSame<V(!new), S(!new)>(a: Db<V, S>, b: Db<V, S>)
    requires Good(a) && Good(b) && a.specs == b.specs && a.store == b.store
    ensures SameIndexes(a.specs, a.indexes, b.indexes, a.store)
  {
    forall i | 0 <= i < |a.specs|
      ensures SameIndex(a.specs[i], a.indexes[i], b.indexes[i], a.store)
    {
      RepresentsSame(a.specs[i], a.indexes[i], b.indexes[i], a.store);
    }
  }

  /** The same index answers every lookup alike. */
  lemma SameIndexSameEq<V(!new), S(!new)>(
    spec: Spec<V, S>, a: State<V, S>, b: State<V, S>, m: map<Id, V>, path: seq<Access<V>>, k: V)
    requires SameIndex(spec, a, b, m) && Consistent(spec, m) && EndsInLookup(spec, path)
    ensures EqAt(spec, a, path, k) == EqAt(spec, b, path, k)
  {
    DenotationCharacterised(spec, a, m);
    DenotationCharacterised(spec, b, m);
    EqIsFiled(spec, a, path, k, m);
    EqIsFiled(spec, b, path, k, m);
  }

  // ---- Late registration -------------------------------------------------

  /** Registering a spec that is already registered, however late and in whatever
      order the store is replayed, does not throw and gives the early index. */
  lemma LateEqualsEarly<V(!new), S(!new)>(db: Db<V, S>, early: nat, order: seq<Id>)
    requires Good(db) && early < |db.specs| && Enumerates(order, db.store.Keys)
    ensures var r := RegisterOp(db, db.specs[early], order);
            && r.Returned?
            && |r.db.indexes| == |db.indexes| + 1
            && SameIndex(db.specs[early], db.indexes[early], r.db.indexes[|db.indexes|], db.store)
  {
    var spec := db.specs[early];
    RepresentsConsistent(spec, db.indexes[early], db.store);
    RegisterCorrect(db, spec, order);
    var r := RegisterOp(db, spec, order);
    assert r.db.specs[|db.specs|] == spec;
    RepresentsSame(spec, db.indexes[early], r.db.indexes[|db.indexes|], db.store);
  }

  // ---- DELETE then ADD against UPDATE ------------------------------------

  /** Deleting and re-adding is accepted iff the new items are indexable; a single
      UPDATE must in addition keep no unique key. When both go through they leave
      the same index. */
  lemma DeleteAddAgainstUpdate<V(!new), S(!new)>(spec: Spec<V, S>, st: State<V, S>, m: map<Id, V>, id: Id, newValue: V)
    requires LawfulTree(spec) && Represents(spec, st, m) && id in m
    ensures var m' := m[id := newValue];
            var u := UpdateUpdate(id, m[id], newValue);
            var deleted := Update1(spec, st, DeleteUpdate(id, m[id]));
            var readded := Update1(spec, deleted.state, AddUpdate(id, newValue));
            var updated := Update1(spec, st, u);
            && deleted.Done?
            && (readded.Done? <==> Consistent(spec, m'))
            && (updated.Done? <==> Consistent(spec, m') && !SelfConflict(spec, u))
            && (readded.Done? && updated.Done? ==> SameIndex(spec, readded.state, updated.state, m'))
  {
    var m' := m[id := newValue];
    assert (m - {id})[id := newValue] == m';
    var deleted := DeleteOutcome(spec, st, m, id);
    ReplayStep(spec, deleted, m - {id}, id, newValue);
    UpdateOutcome(spec, st, m, UpdateUpdate(id, m[id], newValue));
    SameIfBoth(
      spec, Update1(spec, deleted, AddUpdate(id, newValue)), Update1(spec, st, UpdateUpdate(id, m[id], newValue)), m');
  }

  lemma SameIfBoth<V(!new), S(!new)>(spec: Spec<V, S>, a: Committed<V, S>, b: Committed<V, S>, m: map<Id, V>)
    requires a.Done? ==> Represents(spec, a.state, m)
    requires b.Done? ==> Represents(spec, b.state, m)
    ensures a.Done? && b.Done? ==> SameIndex(spec, a.state, b.state, m)
  {
    if a.Done? && b.Done? {
      RepresentsSame(spec, a.state, b.state, m);
    }
  }

  lemma DeleteOutcome<V(!new), S(!new)>(spec: Spec<V, S>, st: State<V, S>, m: map<Id, V>, id: Id) returns (deleted: State<V, S>)
    requires LawfulTree(spec) && Represents(spec, st, m) && id in m
    ensures Update1(spec, st, DeleteUpdate(id, m[id])) == Done(deleted)
    ensures Represents(spec, deleted, m - {id})
  {
    var del := DeleteUpdate(id, m[id]);
    UpdateCorrect(spec, st, m, del);
    AddDeleteRuns(spec, st, m, del);
    AddDeleteCommit(spec, m, del);
    deleted := Update1(spec, st, del).state;
  }

  lemma UpdateOutcome<V(!new), S(!new)>(spec: Spec<V, S>, st: State<V, S>, m: map<Id, V>, u: Update<V>)
    requires LawfulTree(spec) && Represents(spec, st, m) && Legal(m, u)
    ensures Update1(spec, st, u).Done? <==> Consistent(spec, Apply(m, u)) && !SelfConflict(spec, u)
    ensures Update1(spec, st, u).Done? ==> Represents(spec, Update1(spec, st, u).state, Apply(m, u))
  {
    RepresentsConsistent(spec, st, m);
    UpdateCorrect(spec, st, m, u);
    AcceptedIff(spec, m, u);
    var p := Prepare(spec, st, u);
    if p.Ready? {
      assert Commits(spec, p.state, p.hook, m, u);
    }
  }

  // ---- alter -------------------------------------------------------------

  /** What the documentation of `alter` promises for the store: the new value is
      stored, or the item deleted when there is none. */
  function Altered<V>(store: map<Id, V>, id: Id, post: Option<V>): map<Id, V> {
    match post
    case None => store - {id}
    case Some(v) => store[id := v]
  }

  /** Exactly when `alter` meets its documentation: the new value is truthy or
      nothing changes, or there is no new value and the old one, if any, is truthy. */
  lemma AlterStoreIff<V(!new), S(!new)>(truthy: V -> bool, db: Db<V, S>, id: Id, f: Option<V> -> Option<V>)
    requires Good(db)
    ensures var pre := Get(db.store, id);
            var post := f(pre);
            AlterOp(truthy, db, id, f).db.store == Altered(db.store, id, post) <==>
              (match post
               case Some(v) => truthy(v) || pre == post
               case None => pre.Some? ==> truthy(pre.value))
  {
    AlterCorrect(truthy, db, id, f);
    var pre := Get(db.store, id);
    var post := f(pre);
    var result := AlterOp(truthy, db, id, f).db.store;
    assert pre.None? ==> db.store - {id} == db.store;
    match post {
      case Some(v) =>
        if !truthy(v) {
          assert pre == post ==> db.store[id := v] == db.store;
          assert (id in result && result[id] == v) <==> pre == post;
        } else {
          assert (db.store - {id})[id := v] == db.store[id := v];
        }
      case None =>
        assert id in result <==> pre.Some? && !truthy(pre.value);
    }
  }

  /** Exactly when `adjust` meets its documentation, that the value is updated if it
      exists: nothing is there, or the old and the new value are truthy, or a falsy
      value is mapped to itself. */
  lemma AdjustStoreIff<V(!new), S(!new)>(truthy: V -> bool, db: Db<V, S>, id: Id, g: V -> V)
    requires Good(db)
    ensures AdjustOp(truthy, db, id, g).db.store ==
              (if id in db.store then db.store[id := g(db.store[id])] else db.store) <==>
              (id in db.store ==>
                 var v := db.store[id];
                 if truthy(v) then truthy(g(v)) else g(v) == v)
  {
    AlterCorrect(truthy, db, id, Adjusting(truthy, g));
    if id in db.store {
      var v := db.store[id];
      var result := AdjustOp(truthy, db, id, g).db.store;
      assert id in db.store[id := g(v)] && db.store[id := g(v)][id] == g(v);
      assert (db.store - {id})[id := g(v)] == db.store[id := g(v)];
      assert g(v) == v ==> db.store[id := g(v)] == db.store;
    }
  }

  /** With truthy values, `alter` does to the store and the indexes what `set` of
      the result or `delete` does; it can only throw where `set` throws too. */
  lemma AlterIsSetOrDelete<V(!new), S(!new)>(truthy: V -> bool, db: Db<V, S>, id: Id, f: Option<V> -> Option<V>)
    requires Good(db)
    requires Get(db.store, id).Some? ==> truthy(db.store[id])
    requires f(Get(db.store, id)).Some? ==> truthy(f(Get(db.store, id)).value)
    ensures var post := f(Get(db.store, id));
            var altered := AlterOp(truthy, db, id, f);
            var direct := if post.Some? then SetOp(db, id, post.value) else DeleteOp(db, id);
            && altered.db.store == direct.db.store && altered.db.specs == direct.db.specs == db.specs
            && altered.db.last == direct.db.last
            && (direct.Returned? ==> altered.Returned?)
            && (direct.Returned? ==> SameIndexes(db.specs, altered.db.indexes, direct.db.indexes, direct.db.store))
  {
    var pre := Get(db.store, id);
    var post := f(pre);
    AlterCorrect(truthy, db, id, f);
    DeleteCorrect(db, id);
    var altered := AlterOp(truthy, db, id, f);
    var direct := if post.Some? then SetOp(db, id, post.value) else DeleteOp(db, id);
    if post.Some? {
      SetCorrect(db, id, post.value);
      assert (db.store - {id})[id := post.value] == db.store[id := post.value];
      if direct.Returned? {
        SetAfterDelete(db, id, post.value);
        SetCorrect(DeleteOp(db, id).db, id, post.value);
      }
      var db1 := if Holds(truthy, pre) then DeleteOp(db, id).db else db;
      SetCorrect(db1, id, post.value);
    }
    if direct.Returned? {
      GoodSame(altered.db, direct.db);
    }
  }

  /** Whatever `set` accepts is accepted after a `delete` of the same id. */
  lemma SetAfterDelete<V(!new), S(!new)>(db: Db<V, S>, id: Id, newValue: V)
    requires Good(db) && SetOp(db, id, newValue).Returned?
    ensures SetOp(DeleteOp(db, id).db, id, newValue).Returned?
  {
    SetCorrect(db, id, newValue);
    DeleteCorrect(db, id);
    var db1 := DeleteOp(db, id).db;
    SetCorrect(db1, id, newValue);
    var u, w := SetUpdate(db.store, id, newValue), SetUpdate(db1.store, id, newValue);
    assert (db.store - {id})[id := newValue] == db.store[id := newValue];
    forall i | 0 <= i < |db.specs|
      ensures Accepts(db.specs[i], db1.store, w)
    {
      RepresentsConsistent(db.specs[i], db.indexes[i], db.store);
      RepresentsConsistent(db.specs[i], db1.indexes[i], db1.store);
      AcceptedIff(db.specs[i], db.store, u);
      AcceptedIff(db.specs[i], db1.store, w);
      OnlyUpdatesSelfConflict(db.specs[i], w);
    }
  }

  /** `set` goes through iff the new store is indexable and no unique index would be
      handed an UPDATE that keeps its key. */
  lemma SetReturnsIff<V(!new), S(!new)>(db: Db<V, S>, id: Id, newValue: V)
    requires Good(db)
    ensures SetOp(db, id, newValue).Returned? <==>
              forall i | 0 <= i < |db.specs| ::
                Consistent(db.specs[i], db.store[id := newValue])
                && !SelfConflict(db.specs[i], SetUpdate(db.store, id, newValue))
  {
    var u := SetUpdate(db.store, id, newValue);
    SetCorrect(db, id, newValue);
    forall i | 0 <= i < |db.specs|
      ensures Accepts(db.specs[i], db.store, u) <==>
                Consistent(db.specs[i], db.store[id := newValue]) && !SelfConflict(db.specs[i], u)
    {
      RepresentsConsistent(db.specs[i], db.indexes[i], db.store);
      AcceptedIff(db.specs[i], db.store, u);
    }
  }

  /** Exactly when `alter` returns: it stores nothing, or the new store is indexable
      and, if a falsy value is replaced, so that nothing was deleted first, no unique
      index would be handed an UPDATE that keeps its key. */
  lemma AlterReturnsIff<V(!new), S(!new)>(truthy: V -> bool, db: Db<V, S>, id: Id, f: Option<V> -> Option<V>)
    requires Good(db)
    ensures var post := f(Get(db.store, id));
            AlterOp(truthy, db, id, f).Returned? <==>
              post.None? || !truthy(post.value)
              || forall i | 0 <= i < |db.specs| ::
                   && Consistent(db.specs[i], db.store[id := post.value])
                   && (id in db.store && !truthy(db.store[id]) ==>
                         !SelfConflict(db.specs[i], UpdateUpdate(id, db.store[id], post.value)))
  {
    DeleteCorrect(db, id);
    var pre, post := Get(db.store, id), f(Get(db.store, id));
    if Holds(truthy, post) {
      var db1 := if Holds(truthy, pre) then DeleteOp(db, id).db else db;
      SetReturnsIff(db1, id, post.value);
      assert db1.store[id := post.value] == db.store[id := post.value];
      if id !in db1.store {
        forall i | 0 <= i < |db.specs|
          ensures !SelfConflict(db.specs[i], AddUpdate(id, post.value))
        {
          OnlyUpdatesSelfConflict(db.specs[i], AddUpdate(id, post.value));
        }
      }
    }
  }

  // ---- Replayed set/delete lists -----------------------------------------

  predicate SetsAndDeletes<V, S>(ops: seq<Op<V, S>>) {
    forall i | 0 <= i < |ops| :: ops[i].Set? || ops[i].Delete?
  }

  /** The store a list of sets and deletes leaves. */
  function StoreAfter<V, S>(store: map<Id, V>, ops: seq<Op<V, S>>): map<Id, V>
    requires SetsAndDeletes(ops)
    decreases ops
  {
    if ops == [] then store
    else
      StoreAfter(if ops[0].Set? then store[ops[0].id := ops[0].newValue] else store - {ops[0].id}, ops[1..])
  }

  function Touched<V, S>(ops: seq<Op<V, S>>): set<Id>
    requires SetsAndDeletes(ops)
  {
    set i | 0 <= i < |ops| :: ops[i].id
  }

  /** The list overwrites what it touches, the same way from any store, and leaves
      the rest. */
  lemma {:induction false} StoreAfterOverlay<V(!new), S(!new)>(a: map<Id, V>, b: map<Id, V>, ops: seq<Op<V, S>>, id: Id)
    requires SetsAndDeletes(ops)
    ensures if id in Touched(ops) then
              Get(StoreAfter(a, ops), id) == Get(StoreAfter(b, ops), id)
            else
              Get(StoreAfter(a, ops), id) == Get(a, id)
    decreases ops
  {
    if ops != [] {
      var a' := if ops[0].Set? then a[ops[0].id := ops[0].newValue] else a - {ops[0].id};
      var b' := if ops[0].Set? then b[ops[0].id := ops[0].newValue] else b - {ops[0].id};
      StoreAfterOverlay(a', b', ops[1..], id);
      StoreAfterOverlay(b', a', ops[1..], id);
      TouchedRest(ops);
    }
  }

  lemma TouchedRest<V(!new), S(!new)>(ops: seq<Op<V, S>>)
    requires SetsAndDeletes(ops) && ops != []
    ensures Touched(ops) == {ops[0].id} + Touched(ops[1..])
  {
  }

  lemma {:induction false} RunStore<V(!new), S(!new)>(truthy: V -> bool, db: Db<V, S>, ops: seq<Op<V, S>>)
    requires Good(db) && SetsAndDeletes(ops) && Run(truthy, db, ops).Returned?
    ensures var r := Run(truthy, db, ops).db;
            Good(r) && r.store == StoreAfter(db.store, ops) && r.specs == db.specs
    decreases ops
  {
    if ops != [] {
      assert ops[0].Set? || ops[0].Delete?;
      StepCorrect(truthy, db, ops[0]);
      if ops[0].Set? {
        SetCorrect(db, ops[0].id, ops[0].newValue);
      } else {
        DeleteCorrect(db, ops[0].id);
      }
      RunStore(truthy, Step(truthy, db, ops[0]).db, ops[1..]);
    }
  }

  /** Playing a set/delete list twice gives the store and the indexes of once. */
  lemma ReplayIdempotent<V(!new), S(!new)>(truthy: V -> bool, db: Db<V, S>, ops: seq<Op<V, S>>)
    requires Good(db) && SetsAndDeletes(ops)
    requires Run(truthy, db, ops).Returned?
    requires Run(truthy, Run(truthy, db, ops).db, ops).Returned?
    ensures var once := Run(truthy, db, ops).db;
            var twice := Run(truthy, once, ops).db;
            && twice.store == once.store
            && SameIndexes(db.specs, once.indexes, twice.indexes, once.store)
  {
    var once := Run(truthy, db, ops).db;
    RunStore(truthy, db, ops);
    var twice := Run(truthy, once, ops).db;
    RunStore(truthy, once, ops);
    forall id: Id
      ensures Get(once.store, id) == Get(twice.store, id)
    {
      StoreAfterOverlay(db.store, once.store, ops, id);
      StoreAfterOverlay(once.store, db.store, ops, id);
    }
    assert twice.store == once.store by {
      assert forall id: Id :: id in once.store <==> Get(once.store, id).Some?;
      assert forall id: Id :: id in twice.store <==> Get(twice.store, id).Some?;
      assert forall id: Id | id in once.store :: Get(once.store, id) == Some(once.store[id]);
      assert forall id: Id | id in twice.store :: Get(twice.store, id) == Some(twice.store[id]);
    }
    GoodSame(once, twice);
  }

  /** Without unique indexes nothing in such a list throws, so the previous lemma
      applies to every such list. */
  lemma {:induction false} SetsAndDeletesReturn<V(!new), S(!new)>(truthy: V -> bool, db: Db<V, S>, ops: seq<Op<V, S>>)
    requires Good(db) && SetsAndDeletes(ops)
    requires forall i | 0 <= i < |db.specs| :: NoUnique(db.specs[i])
    ensures Run(truthy, db, ops).Returned?
    decreases ops
  {
    if ops != [] {
      assert ops[0].Set? || ops[0].Delete?;
      if ops[0].Set? {
        var u := SetUpdate(db.store, ops[0].id, ops[0].newValue);
        SetCorrect(db, ops[0].id, ops[0].newValue);
        forall i | 0 <= i < |db.specs|
          ensures Accepts(db.specs[i], db.store, u)
        {
          NoUniqueNeverThrows(db.specs[i], db.store, u);
        }
      } else {
        DeleteCorrect(db, ops[0].id);
      }
      SetsAndDeletesReturn(truthy, Step(truthy, db, ops[0]).db, ops[1..]);
    }
  }
}
