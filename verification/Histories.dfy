/** Whole runs of a collection: what its indexes answer, and the ids it issues. */
module Histories {
  import opened Updates
  import opened Folds
  import opened Trees
  import opened Denotation
  import opened Engine

  // ---- Answers after a run -----------------------------------------------

  /** After every run from the empty collection in which nothing throws, a lookup in
      any hash, B-tree or unique index, however deep in whichever registered tree,
      finds exactly the stored items that the tree files there under the key, so
      every id it returns is in the store. */
  lemma RunAnswers<V(!new), S(!new)>(
    truthy: V -> bool, ops: seq<Op<V, S>>, i: nat, path: seq<Access<V>>, k: V)
    requires ProperRun(truthy, Empty(), ops) && Run(truthy, Empty(), ops).Returned?
    requires var db := Run(truthy, Empty(), ops).db;
             i < |db.specs| && EndsInLookup(db.specs[i], path)
    ensures var db := Run(truthy, Empty(), ops).db;
            && |db.indexes| == |db.specs|
            && EqAt(db.specs[i], db.indexes[i], path, k) ==
                 set id | id in db.store && Through(db.specs[i], path, db.store[id]) == Some(k)
  {
    EmptyGood<V, S>();
    RunCorrect(truthy, Empty(), ops);
    var db := Run(truthy, Empty<V, S>(), ops).db;
    EqIsFiled(db.specs[i], db.indexes[i], path, k, db.store);
  }

  /** Likewise the value of every fold is its result for the fold of the values that
      reach it, in any order; there is none exactly when a group on the path was
      never made. */
  lemma RunFolds<V(!new), S(!new), R>(
    truthy: V -> bool, ops: seq<Op<V, S>>, i: nat, path: seq<Access<V>>, order: seq<Id>, ret: S -> R)
    requires ProperRun(truthy, Empty(), ops) && Run(truthy, Empty(), ops).Returned?
    requires var db := Run(truthy, Empty(), ops).db;
             && i < |db.specs| && Target(db.specs[i], path).Some? && Target(db.specs[i], path).value.Fold?
             && Enumerates(order, FilterMap(Seen(db.specs[i], path), db.store).Keys)
    ensures var db := Run(truthy, Empty(), ops).db;
            var fold := Target(db.specs[i], path).value.ops;
            && |db.indexes| == |db.specs|
            && match ValueAt(db.specs[i], db.indexes[i], path, ret)
               case Some(value) => value == ret(FoldAlong(fold, FilterMap(Seen(db.specs[i], path), db.store), order))
               case None => order == []
    ensures var db := Run(truthy, Empty(), ops).db;
            && |db.indexes| == |db.specs|
            && (ValueAt(db.specs[i], db.indexes[i], path, ret).None? <==>
                  Absent(db.specs[i], db.indexes[i], path))
  {
    EmptyGood<V, S>();
    RunCorrect(truthy, Empty(), ops);
    var db := Run(truthy, Empty<V, S>(), ops).db;
    FoldAtIsFold(db.specs[i], db.indexes[i], path, db.store, ret);
    TargetLawful(db.specs[i], path);
    FoldAnyOrder(Target(db.specs[i], path).value.ops, FilterMap(Seen(db.specs[i], path), db.store), order);
  }

  lemma {:induction false} TargetLawful<V(!new), S(!new)>(spec: Spec<V, S>, path: seq<Access<V>>)
    requires LawfulTree(spec) && Target(spec, path).Some?
    ensures LawfulTree(Target(spec, path).value)
    decreases path
  {
    if path != [] {
      match (spec, path[0]) {
        case (Premap(_, inner), GetInner) => TargetLawful(inner, path[1..]);
        case (Group(_, inner), GetGroup(_)) => TargetLawful(inner, path[1..]);
        case (Zip(specs), GetChild(i)) => TargetLawful(specs[i], path[1..]);
        case _ =>
      }
    }
  }

  // ---- Ids ---------------------------------------------------------------

  /** A caller that catches every exception and carries on. */
  function Persist<V(==), S>(truthy: V -> bool, db: Db<V, S>, ops: seq<Op<V, S>>): Db<V, S>
    decreases ops
  {
    if ops == [] then db else Persist(truthy, Step(truthy, db, ops[0]).db, ops[1..])
  }

  /** Every id that was in the store at some moment of such a run. */
  function EverStored<V(==), S>(truthy: V -> bool, db: Db<V, S>, ops: seq<Op<V, S>>): set<Id>
    decreases ops
  {
    db.store.Keys + if ops == [] then {} else EverStored(truthy, Step(truthy, db, ops[0]).db, ops[1..])
  }

  /** `add` is never called with the counter at its last value. */
  predicate NeverWraps<V(==), S>(truthy: V -> bool, db: Db<V, S>, ops: seq<Op<V, S>>)
    decreases ops
  {
    ops == []
    || ((ops[0].Add? ==> db.last + 1 < ID_LIMIT) && NeverWraps(truthy, Step(truthy, db, ops[0]).db, ops[1..]))
  }

  lemma StepBounded<V(!new), S(!new)>(truthy: V -> bool, db: Db<V, S>, op: Op<V, S>)
    requires Bounded(db) && (op.Add? ==> db.last + 1 < ID_LIMIT)
    ensures var db' := Step(truthy, db, op).db;
            && Bounded(db') && db.last <= db'.last
            && (op.Add? ==> db'.last == db.last + 1 && db'.store == db.store[db'.last := op.value])
  {
    match op {
      case Add(value) =>
        NextIdSteps(db.last);
        var id := NextId(db.last);
        PropagateKeeps(db.(last := id, store := db.store[id := value]), AddUpdate(id, value));
      case Set(id, newValue) => SetBounded(db, id, newValue);
      case Delete(id) => DeleteBounded(db, id);
      case Alter(id, f) => AlterBounded(truthy, db, id, f);
      case Adjust(id, g) => AlterBounded(truthy, db, id, Adjusting(truthy, g));
      case Register(_, _) =>
    }
  }

  lemma SetBounded<V(!new), S(!new)>(db: Db<V, S>, id: Id, newValue: V)
    requires Bounded(db)
    ensures Bounded(SetOp(db, id, newValue).db) && db.last <= SetOp(db, id, newValue).db.last
  {
  }

  lemma DeleteBounded<V(!new), S(!new)>(db: Db<V, S>, id: Id)
    requires Bounded(db)
    ensures Bounded(DeleteOp(db, id).db) && db.last == DeleteOp(db, id).db.last
  {
  }

  lemma AlterBounded<V(!new), S(!new)>(truthy: V -> bool, db: Db<V, S>, id: Id, f: Option<V> -> Option<V>)
    requires Bounded(db)
    ensures var r := AlterOp(truthy, db, id, f); Bounded(r.db) && db.last <= r.db.last
  {
  }

  /** Ids are never reissued: whatever was called and whatever threw before, the
      counter only grows and the next `add` stores under an id above every id the
      store has ever held. */
  lemma {:induction false} IdsAreFresh<V(!new), S(!new)>(truthy: V -> bool, db: Db<V, S>, ops: seq<Op<V, S>>, value: V)
    requires Bounded(db) && NeverWraps(truthy, db, ops)
    requires Persist(truthy, db, ops).last + 1 < ID_LIMIT
    ensures var db1 := Persist(truthy, db, ops);
            var db2 := Step(truthy, db1, Add(value)).db;
            && Bounded(db1) && db.last <= db1.last
            && db2.last !in db1.store && db2.store == db1.store[db2.last := value]
            && forall id | id in EverStored(truthy, db, ops) :: id < db2.last
    decreases ops
  {
    if ops == [] {
      StepBounded(truthy, db, Add(value));
    } else {
      StepBounded(truthy, db, ops[0]);
      var next := Step(truthy, db, ops[0]).db;
      IdsAreFresh(truthy, next, ops[1..], value);
      StepBounded(truthy, Persist(truthy, db, ops), Add(value));
    }
  }

  /** Exactly when `add` takes a fresh id, in every state: the id that the counter steps
      to is free. Then the ADD it emits is legal and every stored item stays as it is;
      otherwise the ADD is illegal and the store gains nothing. */
  lemma AddLegalIff<V(!new), S(!new)>(db: Db<V, S>, value: V)
    ensures var id, r := NextId(db.last), AddOp(db, value);
            && r.db.last == id && r.db.store == db.store[id := value]
            && (Legal(db.store, AddUpdate(id, value)) <==> id !in db.store)
            && (|r.db.store| == (if id in db.store then |db.store| else |db.store| + 1))
            && (id !in db.store ==> forall i | i in db.store :: i in r.db.store && r.db.store[i] == db.store[i])
  {
    var id, r := NextId(db.last), AddOp(db, value);
    PropagateKeeps(db.(last := id, store := db.store[id := value]), AddUpdate(id, value));
    assert r.db.store.Keys == db.store.Keys + {id};
  }

  /** As long as the counter has not wrapped around, an illegal ADD takes both a
      counter at its last value and a stored id 0. */
  lemma {:induction false} UnwrappedAddLegalIff<V(!new), S(!new)>(
    truthy: V -> bool, db: Db<V, S>, ops: seq<Op<V, S>>, value: V)
    requires Bounded(db) && NeverWraps(truthy, db, ops)
    ensures var db1 := Persist(truthy, db, ops);
            && Bounded(db1)
            && (Legal(db1.store, AddUpdate(NextId(db1.last), value)) <==> db1.last + 1 < ID_LIMIT || 0 !in db1.store)
    decreases ops
  {
    if ops != [] {
      StepBounded(truthy, db, ops[0]);
      UnwrappedAddLegalIff(truthy, Step(truthy, db, ops[0]).db, ops[1..], value);
    }
  }

  /** One call of a run that never throws. */
  ghost predicate Smooth<V(!new), S(!new)>(truthy: V -> bool, db: Db<V, S>, op: Op<V, S>) {
    Proper(db, op) && Step(truthy, db, op).Returned?
  }

  lemma RunsThree<V(!new), S(!new)>(truthy: V -> bool, db: Db<V, S>, a: Op<V, S>, b: Op<V, S>, c: Op<V, S>)
    ensures var db1 := Step(truthy, db, a).db;
            var db2 := Step(truthy, db1, b).db;
            var db3 := Step(truthy, db2, c).db;
            && Persist(truthy, db, [a, b, c]) == db3
            && (Smooth(truthy, db, a) && Smooth(truthy, db1, b) && Smooth(truthy, db2, c) ==>
                  ProperRun(truthy, db, [a, b, c]) && Run(truthy, db, [a, b, c]) == Returned(db3))
  {
    var db1 := Step(truthy, db, a).db;
    var db2 := Step(truthy, db1, b).db;
    RunsCons(truthy, db2, c, []);
    RunsCons(truthy, db1, b, [c]);
    RunsCons(truthy, db, a, [b, c]);
    assert [c] + [] == [c] && [b] + [c] == [b, c] && [a] + [b, c] == [a, b, c];
  }

  lemma RunsCons<V(!new), S(!new)>(truthy: V -> bool, db: Db<V, S>, op: Op<V, S>, ops: seq<Op<V, S>>)
    ensures Persist(truthy, db, [op] + ops) == Persist(truthy, Step(truthy, db, op).db, ops)
    ensures Smooth(truthy, db, op) ==>
              && Run(truthy, db, [op] + ops) == Run(truthy, Step(truthy, db, op).db, ops)
              && ProperRun(truthy, db, [op] + ops) == ProperRun(truthy, Step(truthy, db, op).db, ops)
  {
    assert ([op] + ops)[1..] == ops;
  }

  /** A collection without indexes. */
  function Bare<V, S>(last: Id, store: map<Id, V>): Db<V, S> { Db(last, store, [], []) }

  lemma BareSet<V(!new), S(!new)>(truthy: V -> bool, last: Id, store: map<Id, V>, id: Id, newValue: V)
    ensures Step(truthy, Bare<V, S>(last, store), Set(id, newValue)) ==
              Returned(Bare(if id > last then id else last, store[id := newValue]))
  {
    NoIndexes(Bare<V, S>(if id > last then id else last, store[id := newValue]), SetUpdate(store, id, newValue));
  }

  lemma BareAdd<V(!new), S(!new)>(truthy: V -> bool, last: Id, store: map<Id, V>, value: V)
    ensures Step(truthy, Bare<V, S>(last, store), Add(value)) ==
              Returned(Bare(NextId(last), store[NextId(last) := value]))
  {
    NoIndexes(Bare<V, S>(NextId(last), store[NextId(last) := value]), AddUpdate(NextId(last), value));
  }

  /** The wrapped id can be in use: `set` at both ends of the id range, then `add`. */
  lemma WrapOverwrites<S(!new)>(truthy: int -> bool)
    ensures var ops: seq<Op<int, S>> := [Set(0, 7), Set(ID_LIMIT - 1, 8), Add(9)];
            var db := Persist(truthy, Empty<int, S>(), ops);
            db.store == map[0 := 9, ID_LIMIT - 1 := 8] && db.last == 0
  {
    var max: Id := ID_LIMIT - 1;
    RunsThree(truthy, Empty<int, S>(), Set(0, 7), Set(max, 8), Add(9));
    BareSet<int, S>(truthy, 0, map[], 0, 7);
    BareSet<int, S>(truthy, 0, map[0 := 7], max, 8);
    NextIdSteps(max);
    BareAdd<int, S>(truthy, max, map[0 := 7, max := 8], 9);
    assert map[0 := 7, max := 8][0 := 9] == map[0 := 9, max := 8];
  }

  /** Once wrapped, the counter runs through ids that may be in use: with nothing
      thrown and every ADD legal so far, the counter is at 0 and the next `add`
      overwrites id 1. */
  lemma WrappedAddOverwrites<S(!new)>(truthy: int -> bool)
    ensures var ops: seq<Op<int, S>> := [Set(1, 7), Set(ID_LIMIT - 1, 8), Add(9)];
            var db: Db<int, S> := Bare(0, map[0 := 9, 1 := 7, ID_LIMIT - 1 := 8]);
            && ProperRun(truthy, Empty<int, S>(), ops) && Run(truthy, Empty<int, S>(), ops) == Returned(db)
            && !Legal(db.store, AddUpdate(NextId(db.last), 5))
            && Step(truthy, db, Add(5)).db.store == map[0 := 9, 1 := 5, ID_LIMIT - 1 := 8]
  {
    var max: Id := ID_LIMIT - 1;
    RunsThree(truthy, Empty<int, S>(), Set(1, 7), Set(max, 8), Add(9));
    BareSet<int, S>(truthy, 0, map[], 1, 7);
    BareSet<int, S>(truthy, 1, map[1 := 7], max, 8);
    NextIdSteps(max);
    BareAdd<int, S>(truthy, max, map[1 := 7, max := 8], 9);
    assert map[1 := 7, max := 8][0 := 9] == map[0 := 9, 1 := 7, max := 8];
    NextIdSteps(0);
    BareAdd<int, S>(truthy, 0, map[0 := 9, 1 := 7, max := 8], 5);
  }
}
