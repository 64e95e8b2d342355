/** What goes wrong after an exception, when the store is ahead of the indexes: later
    calls that look harmless can damage an index. */
module Divergence {
  import opened Updates
  import opened Leaves
  import opened Trees
  import opened TreeProofs
  import opened Acceptance
  import opened Denotation
  import opened Engine
  import opened Relays
  import opened Survival

  /** With one index registered, propagation is that index's two phases. */
  lemma PropagateOne<V(!new), S(!new)>(db: Db<V, S>, u: Update<V>)
    requires |db.specs| == |db.indexes| == 1
    ensures Propagate(db, u) ==
              match Update1(db.specs[0], db.indexes[0], u)
              case Failed(st, e) => Raised(db.(indexes := [st]), e)
              case Done(st) => Returned(db.(indexes := [st]))
  {
    var specs, states := db.specs, db.indexes;
    var p := Prepare(specs[0], states[0], u);
    if p.Threw? {
      GatherThrowsIs(states, PrepareAnswers(specs, states, u), [p.state], p.error, 0);
    } else {
      GatherReadyIs(states, PrepareAnswers(specs, states, u), [p.state], [p.hook]);
      var c := Commit(specs[0], p.state, p.hook);
      if c.Done? {
        GatherDoneIs([p.state], CommitAnswers(specs, [p.state], [p.hook]), [c.state]);
      } else {
        GatherFailsIs([p.state], CommitAnswers(specs, [p.state], [p.hook]), [c.state], c.error, 0);
      }
    }
  }

  // ---- A duplicate thrown, then deleted ----------------------------------

  /** The index takes an item with the value `v`, under any id. */
  ghost predicate Welcomes<V(!new), S(!new)>(spec: Spec<V, S>, st: State<V, S>, v: V) {
    forall id: Id :: Update1(spec, st, AddUpdate(id, v)).Done?
  }

  /** A DELETE for an id the index was never told of, with the value of another item,
      goes through; and then no unique index objects to that value any more. */
  ghost predicate Strays<V(!new), S(!new)>(spec: Spec<V, S>, st: State<V, S>, id: Id, v: V) {
    var r := Update1(spec, st, DeleteUpdate(id, v));
    r.Done? && Welcomes(spec, r.state, v)
  }

  lemma LeafStrays<V(!new), S(!new)>(spec: Spec<V, S>, st: State<V, S>, m: map<Id, V>, id: Id, v: V)
    requires spec.Hash? || spec.Unique? || spec.BTree? || spec.Fold?
    requires Represents(spec, st, m) && v in m.Values
    ensures Strays(spec, st, id, v)
  {
  }

  lemma PremapStrays<V(!new), S(!new)>(f: V -> Option<V>, inner: Spec<V, S>, st: State<V, S>, id: Id, v: V)
    requires st.PremapState? && (f(v).Some? ==> Strays(inner, st.inner, id, f(v).value))
    ensures Strays(Premap(f, inner), st, id, v)
  {
    PremapUpdate(f, inner, st, DeleteUpdate(id, v));
    var r := Update1(Premap(f, inner), st, DeleteUpdate(id, v)).state;
    forall j: Id
      ensures Update1(Premap(f, inner), r, AddUpdate(j, v)).Done?
    {
      PremapUpdate(f, inner, r, AddUpdate(j, v));
    }
  }

  lemma GroupStrays<V(!new), S(!new)>(g: V -> V, inner: Spec<V, S>, st: State<V, S>, id: Id, v: V)
    requires st.GroupState? && g(v) in st.groups && Strays(inner, st.groups[g(v)], id, v)
    ensures Strays(Group(g, inner), st, id, v)
  {
    GroupUpdate(g, inner, st.groups, g(v), DeleteUpdate(id, v));
    var r := Update1(Group(g, inner), st, DeleteUpdate(id, v)).state;
    forall j: Id
      ensures Update1(Group(g, inner), r, AddUpdate(j, v)).Done?
    {
      GroupUpdate(g, inner, r.groups, g(v), AddUpdate(j, v));
    }
  }

  /** The states after each index of a list has taken the update on its own. */
  ghost function After<V(!new), S(!new)>(specs: seq<Spec<V, S>>, states: seq<State<V, S>>, u: Update<V>): (after: seq<State<V, S>>)
    requires |specs| == |states|
    requires forall i | 0 <= i < |specs| :: Update1(specs[i], states[i], u).Done?
    ensures |after| == |specs|
    ensures forall i | 0 <= i < |specs| :: Update1(specs[i], states[i], u) == Done(after[i])
  {
    seq(|specs|, i requires 0 <= i < |specs| => Update1(specs[i], states[i], u).state)
  }

  lemma ZipStrays<V(!new), S(!new)>(specs: seq<Spec<V, S>>, st: State<V, S>, id: Id, v: V)
    requires st.ZipState? && |st.children| == |specs|
    requires forall i | 0 <= i < |specs| :: Strays(specs[i], st.children[i], id, v)
    ensures Strays(Zip(specs), st, id, v)
  {
    var after := After(specs, st.children, DeleteUpdate(id, v));
    ZipUpdate(specs, st, DeleteUpdate(id, v), after);
    forall j: Id
      ensures Update1(Zip(specs), ZipState(after), AddUpdate(j, v)).Done?
    {
      ZipUpdate(specs, ZipState(after), AddUpdate(j, v), After(specs, after, AddUpdate(j, v)));
    }
  }

  /** Every tree goes along, because whatever path the value takes, the other item has
      taken it too. */
  lemma {:induction false} TreeStrays<V(!new), S(!new)>(spec: Spec<V, S>, st: State<V, S>, m: map<Id, V>, id: Id, v: V)
    requires Represents(spec, st, m) && v in m.Values
    ensures Strays(spec, st, id, v)
    decreases spec
  {
    var holder :| holder in m && m[holder] == v;
    match spec {
      case Premap(f, inner) =>
        if f(v).Some? {
          assert holder in FilterMap(f, m) && FilterMap(f, m)[holder] == f(v).value;
          TreeStrays(inner, st.inner, FilterMap(f, m), id, f(v).value);
        }
        PremapStrays(f, inner, st, id, v);
      case Group(g, inner) =>
        assert holder in Part(g, g(v), m) && Part(g, g(v), m)[holder] == v;
        TreeStrays(inner, st.groups[g(v)], Part(g, g(v), m), id, v);
        GroupStrays(g, inner, st, id, v);
      case Zip(specs) =>
        forall i | 0 <= i < |specs|
          ensures Strays(specs[i], st.children[i], id, v)
        {
          TreeStrays(specs[i], st.children[i], m, id, v);
        }
        ZipStrays(specs, st, id, v);
      case _ => LeafStrays(spec, st, m, id, v);
    }
  }

  lemma PropagateEach<V(!new), S(!new)>(db: Db<V, S>, u: Update<V>, after: seq<State<V, S>>)
    requires |db.specs| == |db.indexes| == |after|
    requires forall i | 0 <= i < |db.specs| :: Update1(db.specs[i], db.indexes[i], u) == Done(after[i])
    ensures Propagate(db, u) == Returned(db.(indexes := after))
  {
    var prepared, hooks := EachDone(db.specs, db.indexes, u, after);
  }

  /** Indexable items have distinct keys at every unique index. */
  lemma {:induction false} ConsistentAt<V(!new), S(!new)>(spec: Spec<V, S>, path: seq<Access<V>>, m: map<Id, V>)
    requires Consistent(spec, m) && Target(spec, path) == Some(Unique)
    ensures Injective(FilterMap(Seen(spec, path), m))
    decreases path
  {
    if path == [] {
      assert FilterMap(Seen(spec, path), m) == m;
    } else {
      SeenStep(spec, path, m);
      match (spec, path[0]) {
        case (Premap(f, inner), GetInner) => ConsistentAt(inner, path[1..], FilterMap(f, m));
        case (Group(g, inner), GetGroup(key)) => ConsistentAt(inner, path[1..], Part(g, key, m));
        case (Zip(specs), GetChild(i)) => ConsistentAt(specs[i], path[1..], m);
      }
    }
  }

  /** The situation: index `i` has a unique index at the end of the path, and the value
      `v`, which some item has, is filed there under the key `k`. */
  ghost predicate Duplicate<V(!new), S(!new)>(db: Db<V, S>, i: nat, path: seq<Access<V>>, v: V, k: V) {
    && Good(db) && NextId(db.last) !in db.store && v in db.store.Values
    && i < |db.specs| && Target(db.specs[i], path) == Some(Unique) && Through(db.specs[i], path, v) == Some(k)
  }

  lemma SeenTwice<V(!new), S(!new)>(spec: Spec<V, S>, path: seq<Access<V>>, m: map<Id, V>, id: Id, v: V, k: V)
    requires id !in m && v in m.Values && Through(spec, path, v) == Some(k)
    ensures !Injective(FilterMap(Seen(spec, path), m[id := v]))
  {
    var holder :| holder in m && m[holder] == v;
    var seen := FilterMap(Seen(spec, path), m[id := v]);
    assert holder in seen && id in seen && seen[holder] == seen[id];
  }

  lemma DuplicateRefused<V(!new), S(!new)>(db: Db<V, S>, i: nat, path: seq<Access<V>>, v: V, k: V)
    requires Duplicate(db, i, path, v, k)
    ensures var id, added := NextId(db.last), AddOp(db, v);
            && added.Raised? && added.db == db.(last := id, store := db.store[id := v], indexes := added.db.indexes)
            && RepresentsAll(db.specs, added.db.indexes, db.store)
  {
    var id := NextId(db.last);
    var m' := db.store[id := v];
    var u := AddUpdate(id, v);
    AddReturnsIff(db, v);
    SeenTwice(db.specs[i], path, db.store, id, v, k);
    if Consistent(db.specs[i], m') {
      ConsistentAt(db.specs[i], path, m');
    }
    PropagateCorrect(db.(last := id, store := m'), db.store, u);
    forall j | 0 <= j < |db.specs|
      ensures !CommitRefuses(db.specs[j], db.store, u)
    {
      AddDeleteCommit(db.specs[j], db.store, u);
    }
  }

  /** What the stray DELETE does to the unique index. */
  lemma KeyTaken<V(!new), S(!new)>(
    spec: Spec<V, S>, st: State<V, S>, path: seq<Access<V>>, id: Id, v: V, k: V, after: State<V, S>)
    requires Target(spec, path) == Some(Unique) && Through(spec, path, v) == Some(k)
    requires Update1(spec, st, DeleteUpdate(id, v)) == Done(after)
    ensures EqAt(spec, after, path, k) == {}
  {
    var del := DeleteUpdate(id, v);
    assert [del][1..] == [];
    assert RunUpdates(spec, st, [del]) == RunUpdates(spec, after, []) == Done(after);
    PathRelays(spec, st, path, [del]);
    assert RewriteStream(Seen(spec, path), [del]) == [DeleteUpdate(id, k)];
    var base := BaseAt(spec, st, path);
    assert [DeleteUpdate(id, k)][1..] == [];
    var r := Update1(Unique, base, DeleteUpdate(id, k));
    assert r.Done? ==> RunUpdates(Unique, base, [DeleteUpdate(id, k)]) == Done(r.state);
  }

  /** What deleting the refused item again leaves: the store of before, in which an item
      with the value is found under its key no more. */
  ghost predicate KeyLost<V(!new), S(!new)>(
    db: Db<V, S>, i: nat, path: seq<Access<V>>, k: V, deleted: Outcome<V, S>)
  {
    && deleted.Returned? && deleted.db.store == db.store && deleted.db.specs == db.specs
    && i < |deleted.db.specs| == |deleted.db.indexes|
    && EqAt(deleted.db.specs[i], deleted.db.indexes[i], path, k) == {} != Filed(db.specs[i], path, k, db.store)
    && !Good(deleted.db)
  }

  /** Whatever is registered: adding a value that some item has, and that a unique index
      sees, throws but leaves the new item in the store. Deleting it again does not
      throw, and takes the key of the other item out of the unique index. From then on
      the duplicate can be added. */
  lemma ThrowThenDeleteLosesKey<V(!new), S(!new)>(db: Db<V, S>, i: nat, path: seq<Access<V>>, v: V, k: V)
    requires Duplicate(db, i, path, v, k)
    ensures var added := AddOp(db, v);
            var deleted := DeleteOp(added.db, NextId(db.last));
            && added.Raised?
            && KeyLost(db, i, path, k, deleted)
            && AddOp(deleted.db, v).Returned?
  {
    var id := NextId(db.last);
    DuplicateRefused(db, i, path, v, k);
    var added := AddOp(db, v);
    assert added.db.store - {id} == db.store;
    var del := DeleteUpdate(id, v);
    forall j | 0 <= j < |db.specs|
      ensures Strays(db.specs[j], added.db.indexes[j], id, v)
    {
      TreeStrays(db.specs[j], added.db.indexes[j], db.store, id, v);
    }
    var after := After(db.specs, added.db.indexes, del);
    PropagateEach(added.db.(store := db.store), del, after);
    var deleted := DeleteOp(added.db, id);
    assert deleted == Returned(added.db.(store := db.store, indexes := after));
    KeyTaken(db.specs[i], added.db.indexes[i], path, id, v, k, after[i]);
    StillFiled(db, i, path, v, k, deleted.db);
    var u := AddUpdate(NextId(id), v);
    PropagateEach(
      deleted.db.(last := NextId(id), store := db.store[NextId(id) := v]), u, After(db.specs, after, u));
  }

  lemma StillFiled<V(!new), S(!new)>(db: Db<V, S>, i: nat, path: seq<Access<V>>, v: V, k: V, now: Db<V, S>)
    requires Duplicate(db, i, path, v, k)
    requires now.specs == db.specs && now.store == db.store && |now.indexes| == |now.specs|
    requires EqAt(db.specs[i], now.indexes[i], path, k) == {}
    ensures Filed(db.specs[i], path, k, db.store) != {} && !Good(now)
  {
    var holder :| holder in db.store && db.store[holder] == v;
    assert holder in Filed(db.specs[i], path, k, db.store);
    if Good(now) {
      EqIsFiled(db.specs[i], now.indexes[i], path, k, db.store);
    }
  }

  // ---- What the leaves do with updates they were never told of ------------

  /** A fan-out over a field's unique index and an index of whole values. */
  ghost predicate KeyHeld<V(!new), S(!new)>(db: Db<V, S>, f: V -> Option<V>, leaf: Spec<V, S>, v: V, k: V) {
    && Good(db) && NextId(db.last) !in db.store && db.specs == [Premap(f, Unique), leaf]
    && f(v) == Some(k) && k in FilterMap(f, db.store).Values && v !in db.store.Values
  }

  lemma HeldRefused<V(!new), S(!new)>(db: Db<V, S>, f: V -> Option<V>, leaf: Spec<V, S>, v: V, k: V)
    requires KeyHeld(db, f, leaf, v, k)
    ensures var id, added := NextId(db.last), AddOp(db, v);
            && added.Raised? && added.db == db.(last := id, store := db.store[id := v], indexes := added.db.indexes)
            && RepresentsAll(db.specs, added.db.indexes, db.store)
  {
    var id := NextId(db.last);
    var u := AddUpdate(id, v);
    assert Refuses(db.specs[0], db.store, u);
    PropagateCorrect(db.(last := id, store := db.store[id := v]), db.store, u);
    AddReturnsIff(db, v);
    assert !AcceptsAll(db.specs, db.store, u);
  }

  /** A refused item whose value no other item has, deleted again: the key of the other
      item is gone, a B-tree does not mind the missing bucket, and a hash index throws
      on it with the item already out of the store. */
  lemma HashThrowsBTreeDoesNot<V(!new), S(!new)>(db: Db<V, S>, f: V -> Option<V>, leaf: Spec<V, S>, v: V, k: V)
    requires KeyHeld(db, f, leaf, v, k) && (leaf.Hash? || leaf.BTree?)
    ensures var added := AddOp(db, v);
            var deleted := DeleteOp(added.db, NextId(db.last));
            && added.Raised? && added.error == Conflict && deleted.db.store == db.store
            && (deleted.Returned? <==> leaf.BTree?)
            && (deleted.Raised? ==> deleted.error == TypeError)
            && |deleted.db.indexes| == 2 && EqAt(db.specs[0], deleted.db.indexes[0], [GetInner], k) == {}
  {
    var id := NextId(db.last);
    HeldRefused(db, f, leaf, v, k);
    PropagateCorrect(db.(last := id, store := db.store[id := v]), db.store, AddUpdate(id, v));
    var added := AddOp(db, v);
    assert added.db.store - {id} == db.store;
    assert Represents(db.specs[0], added.db.indexes[0], db.store);
    StrayPropagates(added.db.(store := db.store), f, leaf, db.store, id, v, k);
    ReachOne(db.specs[0], DeleteOp(added.db, id).db.indexes[0], GetInner);
  }

  lemma StrayPropagates<V(!new), S(!new)>(
    db: Db<V, S>, f: V -> Option<V>, leaf: Spec<V, S>, m: map<Id, V>, id: Id, v: V, k: V)
    requires db.specs == [Premap(f, Unique), leaf] && RepresentsAll(db.specs, db.indexes, m)
    requires (leaf.Hash? || leaf.BTree?) && f(v) == Some(k) && v !in m.Values
    requires |db.indexes| == 2 && db.indexes[0].PremapState? && db.indexes[0].inner.UniqueState?
    ensures var owners := db.indexes[0].inner.owners;
            var after := [PremapState(UniqueState(owners - {k})), db.indexes[1]];
            Propagate(db, DeleteUpdate(id, v)) ==
              if leaf.BTree? then Returned(db.(indexes := after)) else Raised(db.(indexes := after), TypeError)
  {
    var u, w := DeleteUpdate(id, v), DeleteUpdate(id, k);
    var x, y := db.indexes[0], db.indexes[1];
    assert Represents(db.specs[0], x, m) && Represents(db.specs[1], y, m);
    assert v !in BucketsOf(m);
    assert db.indexes == [x, y];
    var hooks := [Inner(Deliver(w)), Deliver(u)];
    assert Prepare(db.specs[0], x, u) == PreparePremap(f, Unique, x.inner, u) == Ready(x, hooks[0]);
    var asked := PrepareAnswers(db.specs, [x, y], u);
    assert asked[0] == Prepare(db.specs[0], x, u) && asked[1] == Prepare(leaf, y, u) == Ready(y, hooks[1]);
    GatherReadyIs([x, y], asked, [x, y], hooks);
    var after := PremapState(UniqueState(x.inner.owners - {k}));
    assert Commit(db.specs[0], x, hooks[0]) == CommitPremap(Unique, x.inner, hooks[0]) == Done(after);
    var answers := CommitAnswers(db.specs, [x, y], hooks);
    assert answers[0] == Commit(db.specs[0], x, hooks[0]) && answers[1] == Commit(leaf, y, hooks[1]);
    if leaf.BTree? {
      GatherDoneIs([x, y], answers, [after, y]);
    } else {
      GatherFailsIs([x, y], answers, [after, y], TypeError, 1);
    }
  }

  /** A refused duplicate, given another value instead: it then returns, and the unique
      index has dropped the key of the item that still has the value. */
  lemma ThrowThenSetLosesKey<V(!new), S(!new)>(db: Db<V, S>, v: V, w: V)
    requires Good(db) && db.specs == [Unique] && NextId(db.last) !in db.store
    requires v in db.store.Values && w !in db.store.Values
    ensures var id, added := NextId(db.last), AddOp(db, v);
            var changed := SetOp(added.db, id, w);
            && added.Raised? && changed.Returned? && changed.db.store == db.store[id := w]
            && |changed.db.indexes| == 1
            && EqLeaf(changed.db.indexes[0], v) == {} && EqLeaf(changed.db.indexes[0], w) == {id}
  {
    var id, owners := NextId(db.last), db.indexes[0].owners;
    InverseKeys(owners, db.store);
    PropagateOne(db.(last := id, store := db.store[id := v]), AddUpdate(id, v));
    var added := AddOp(db, v);
    assert added == Raised(db.(last := id, store := db.store[id := v], indexes := [db.indexes[0]]), Conflict);
    assert added.db.store[id := w] == db.store[id := w];
    PropagateOne(added.db.(store := db.store[id := w]), UpdateUpdate(id, v, w));
  }

  /** A `set` that keeps a unique field is refused. If that index is alone, it still
      stands for the store, which it cannot tell from the old one; a hash index of
      whole values beside it no longer does. */
  lemma SecondIndexDiverges<V(!new), S(!new)>(db: Db<V, S>, f: V -> Option<V>, id: Id, newValue: V)
    requires Good(db) && db.specs == [Premap(f, Unique), Hash]
    requires id in db.store && newValue != db.store[id]
    requires f(newValue).Some? && f(newValue) == f(db.store[id])
    ensures var r := SetOp(db, id, newValue);
            && r.Raised? && !Good(r.db)
            && |r.db.indexes| == 2 && Good(r.db.(specs := db.specs[..1], indexes := r.db.indexes[..1]))
  {
    var m, m' := db.store, db.store[id := newValue];
    var u := UpdateUpdate(id, m[id], newValue);
    assert SelfConflict(db.specs[0], u);
    SelfConflictRefuses(db.specs[0], m, u);
    PropagateCorrect(db.(last := if id > db.last then id else db.last, store := m'), m, u);
    WholeValuesGoodIff((v: V) => true, db, Set(id, newValue), 1);
    var r := SetOp(db, id, newValue);
    CannotTell(f, r.db.indexes[0], m, m');
  }

  lemma CannotTell<V(!new), S(!new)>(f: V -> Option<V>, st: State<V, S>, a: map<Id, V>, b: map<Id, V>)
    requires a.Keys == b.Keys && forall id | id in a :: f(a[id]) == f(b[id])
    requires Represents<V, S>(Premap(f, Unique), st, a)
    ensures Represents<V, S>(Premap(f, Unique), st, b)
  {
    assert FilterMap(f, a) == FilterMap(f, b);
  }

  // ---- Concrete runs -----------------------------------------------------

  /** A collection with a unique index that holds one item, 5 under id 1. */
  function OneItem(): Db<int, int> {
    Db(1, map[1 := 5], [Unique], [UniqueState(map[5 := 1])])
  }

  /** Storing the value an item already has is refused by a unique index. */
  lemma SetSameKeyThrows()
    ensures var r := SetOp(OneItem(), 1, 5); r.Raised? && r.error == Conflict && r.db == OneItem()
  {
  }

  /** A unique index per parity: 4 under id 1 in group 0, 3 under id 2 in group 1. */
  function TwoGroups(): Db<int, int> {
    Db(2, map[1 := 4, 2 := 3], [Group(v => v % 2, Unique)],
       [GroupState(map[0 := UniqueState(map[4 := 1]), 1 := UniqueState(map[3 := 2])])])
  }

  /** A move into a group that refuses the item throws with the item already gone
      from its old group: the index has lost an item that the store still holds. */
  lemma TornMove()
    ensures var r := SetOp(TwoGroups(), 2, 4);
            && r.Raised? && r.error == Conflict
            && r.db.store == map[1 := 4, 2 := 4]
            && r.db.indexes == [GroupState(map[0 := UniqueState(map[4 := 1]), 1 := UniqueState(map[])])]
  {
    var db := TwoGroups();
    var spec, st := db.specs[0], db.indexes[0];
    var u := UpdateUpdate(2, 3, 4);
    var groups := st.groups;
    PropagateOne(db.(store := map[1 := 4, 2 := 4]), u);
    assert db.store[2 := 4] == map[1 := 4, 2 := 4];
    assert Prepare(spec, st, u) == PrepareGroup(spec.group, Unique, groups, u);
    assert Prepare(spec, st, u) == Ready(st, Move(1, 0, DeleteUpdate(2, 3), AddUpdate(2, 4)));
    var emptied := RunIn(Unique, groups, 1, DeleteUpdate(2, 3));
    assert Update1(Unique, groups[1], DeleteUpdate(2, 3)) == Done(UniqueState(map[3 := 2] - {3}));
    assert map[3 := 2] - {3} == map[];
    assert emptied == Done(GroupState(groups[1 := UniqueState(map[])]));
    var half := groups[1 := UniqueState(map[])];
    assert RunIn(Unique, half, 0, AddUpdate(2, 4)) == Failed(GroupState(half[0 := half[0]]), Conflict);
    assert half[0 := half[0]] == half == map[0 := UniqueState(map[4 := 1]), 1 := UniqueState(map[])];
  }

  /** `alter` to nothing leaves a falsy item in place, where its documentation says
      that the item is deleted. */
  lemma AlterKeepsFalsyItem()
    ensures var db: Db<int, int> := Db(1, map[1 := 0], [], []);
            AlterOp((v: int) => v != 0, db, 1, (_: Option<int>) => None) == Returned(db)
  {
  }

  /** `adjust` to a falsy value deletes the item, where its documentation says that the
      value is updated. */
  lemma AdjustDropsItem()
    ensures var db: Db<int, int> := Db(1, map[1 := 5], [], []);
            var r := AdjustOp((v: int) => v != 0, db, 1, (_: int) => 0);
            r == Returned(db.(store := map[]))
  {
    var db: Db<int, int> := Db(1, map[1 := 5], [], []);
    NoIndexes(db.(store := db.store - {1}), DeleteUpdate(1, 5));
    assert map[1 := 5] - {1} == map[];
  }
}
