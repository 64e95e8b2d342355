/** What survives an exception. The store has been written and is not rolled back:
    exactly when the indexes still stand for it. */
module Survival {
  import opened Updates
  import opened Folds
  import opened Leaves
  import opened Trees
  import opened Engine

  // ---- When the indexes survive an exception -----------------------------

  /** The index sees no difference between the two sets of items. */
  ghost predicate SameView<V(!new), S(!new)>(spec: Spec<V, S>, a: map<Id, V>, b: map<Id, V>)
    decreases spec
  {
    match spec
    case Fold(ops) => FoldOf(ops, a) == FoldOf(ops, b)
    case Premap(f, inner) => SameView(inner, FilterMap(f, a), FilterMap(f, b))
    case Group(g, inner) => forall k :: SameView(inner, Part(g, k, a), Part(g, k, b))
    case Zip(specs) => forall i | 0 <= i < |specs| :: SameView(specs[i], a, b)
    case _ => a == b
  }

  /** Every group that the items fall into has been made. */
  ghost predicate HasGroups<V(!new), S(!new)>(spec: Spec<V, S>, st: State<V, S>, m: map<Id, V>)
    decreases spec
  {
    match spec
    case Premap(f, inner) => st.PremapState? && HasGroups(inner, st.inner, FilterMap(f, m))
    case Group(g, inner) =>
      && st.GroupState?
      && (forall id | id in m :: g(m[id]) in st.groups)
      && (forall k | k in st.groups :: HasGroups(inner, st.groups[k], Part(g, k, m)))
    case Zip(specs) =>
      && st.ZipState? && |st.children| == |specs|
      && forall i | 0 <= i < |specs| :: HasGroups(specs[i], st.children[i], m)
    case _ => true
  }

  lemma {:induction false} SameViewRefl<V(!new), S(!new)>(spec: Spec<V, S>, m: map<Id, V>)
    ensures SameView(spec, m, m)
    decreases spec
  {
    match spec {
      case Premap(f, inner) => SameViewRefl(inner, FilterMap(f, m));
      case Group(g, inner) =>
        forall k
          ensures SameView(inner, Part(g, k, m), Part(g, k, m))
        {
          SameViewRefl(inner, Part(g, k, m));
        }
      case Zip(specs) =>
        forall i | 0 <= i < |specs|
          ensures SameView(specs[i], m, m)
        {
          SameViewRefl(specs[i], m);
        }
      case _ =>
    }
  }

  lemma {:induction false} SameViewConsistent<V(!new), S(!new)>(spec: Spec<V, S>, a: map<Id, V>, b: map<Id, V>)
    requires SameView(spec, a, b) && Consistent(spec, a)
    ensures Consistent(spec, b)
    decreases spec
  {
    match spec {
      case Premap(f, inner) => SameViewConsistent(inner, FilterMap(f, a), FilterMap(f, b));
      case Group(g, inner) =>
        forall k
          ensures Consistent(inner, Part(g, k, b))
        {
          SameViewConsistent(inner, Part(g, k, a), Part(g, k, b));
        }
      case Zip(specs) =>
        forall i | 0 <= i < |specs|
          ensures Consistent(specs[i], b)
        {
          SameViewConsistent(specs[i], a, b);
        }
      case _ =>
    }
  }

  lemma BucketsDetermine<V(!new)>(a: map<Id, V>, b: map<Id, V>)
    requires BucketsOf(a) == BucketsOf(b)
    ensures a == b
  {
    BucketsWithin(a, b);
    BucketsWithin(b, a);
  }

  lemma BucketsWithin<V(!new)>(a: map<Id, V>, b: map<Id, V>)
    requires BucketsOf(a) == BucketsOf(b)
    ensures forall id | id in a :: id in b && b[id] == a[id]
  {
    forall id | id in a
      ensures id in b && b[id] == a[id]
    {
      assert id in BucketsOf(a)[a[id]];
    }
  }

  lemma LeafViewIff<V(!new), S(!new)>(spec: Spec<V, S>, st: State<V, S>, a: map<Id, V>, b: map<Id, V>)
    requires spec.Hash? || spec.Unique? || spec.BTree? || spec.Fold?
    requires Represents(spec, st, a)
    ensures Represents(spec, st, b) <==> SameView(spec, a, b)
  {
    if !spec.Fold? && !spec.Unique? && Represents(spec, st, b) {
      BucketsDetermine(a, b);
    }
    if spec.Unique? && Represents(spec, st, b) {
      assert forall id | id in a :: id in b && b[id] == a[id];
      assert forall id | id in b :: id in a && a[id] == b[id];
    }
  }

  /** A state that stands for some items stands for others exactly when the index
      sees no difference between them and has made the groups of the others. */
  lemma {:induction false} RepresentsBothIff<V(!new), S(!new)>(
    spec: Spec<V, S>, st: State<V, S>, a: map<Id, V>, b: map<Id, V>)
    requires Represents(spec, st, a)
    ensures Represents(spec, st, b) <==> SameView(spec, a, b) && HasGroups(spec, st, b)
    decreases spec, 0
  {
    match spec {
      case Premap(f, inner) => RepresentsBothIff(inner, st.inner, FilterMap(f, a), FilterMap(f, b));
      case Group(g, inner) =>
        forall k | k in st.groups
          ensures Represents(inner, st.groups[k], Part(g, k, b)) <==>
                    SameView(inner, Part(g, k, a), Part(g, k, b)) && HasGroups(inner, st.groups[k], Part(g, k, b))
        {
          RepresentsBothIff(inner, st.groups[k], Part(g, k, a), Part(g, k, b));
        }
        if forall id | id in b :: g(b[id]) in st.groups {
          UnmadeGroups(g, inner, st.groups.Keys, a, b);
        }
      case Zip(specs) =>
        forall i | 0 <= i < |specs|
          ensures Represents(specs[i], st.children[i], b) <==>
                    SameView(specs[i], a, b) && HasGroups(specs[i], st.children[i], b)
        {
          RepresentsBothIff(specs[i], st.children[i], a, b);
        }
      case _ => LeafViewIff(spec, st, a, b);
    }
  }

  lemma UnmadeGroups<V(!new), S(!new)>(g: V -> V, inner: Spec<V, S>, made: set<V>, a: map<Id, V>, b: map<Id, V>)
    requires forall id | id in a :: g(a[id]) in made
    requires forall id | id in b :: g(b[id]) in made
    ensures forall k | k !in made :: SameView(inner, Part(g, k, a), Part(g, k, b))
  {
    SameViewRefl(inner, map[]);
    forall k | k !in made
      ensures SameView(inner, Part(g, k, a), Part(g, k, b))
    {
      assert Part(g, k, a) == map[] && Part(g, k, b) == map[];
    }
  }

  /** No registered index sees a difference between the two sets of items, and each
      has made the groups of the second. */
  ghost predicate Unnoticed<V(!new), S(!new)>(
    specs: seq<Spec<V, S>>, states: seq<State<V, S>>, a: map<Id, V>, b: map<Id, V>)
  {
    && |specs| == |states|
    && forall i | 0 <= i < |specs| :: SameView(specs[i], a, b) && HasGroups(specs[i], states[i], b)
  }

  ghost predicate AllSameView<V(!new), S(!new)>(specs: seq<Spec<V, S>>, a: map<Id, V>, b: map<Id, V>) {
    forall i | 0 <= i < |specs| :: SameView(specs[i], a, b)
  }

  lemma UnnoticedIff<V(!new), S(!new)>(
    specs: seq<Spec<V, S>>, states: seq<State<V, S>>, a: map<Id, V>, b: map<Id, V>)
    requires RepresentsAll(specs, states, a)
    ensures RepresentsAll(specs, states, b) <==> Unnoticed(specs, states, a, b)
  {
    forall i | 0 <= i < |specs|
      ensures Represents(specs[i], states[i], b) <==>
                SameView(specs[i], a, b) && HasGroups(specs[i], states[i], b)
    {
      RepresentsBothIff(specs[i], states[i], a, b);
    }
  }

  lemma AllSameViewConsistent<V(!new), S(!new)>(specs: seq<Spec<V, S>>, a: map<Id, V>, b: map<Id, V>)
    requires AllConsistent(specs, a) && AllSameView(specs, a, b)
    ensures AllConsistent(specs, b)
  {
    forall i | 0 <= i < |specs|
      ensures Consistent(specs[i], b)
    {
      SameViewConsistent(specs[i], a, b);
    }
  }

  /** What an outcome leaves, for indexes that stood for `told` before the throw: the
      invariant holds exactly if nothing was thrown or nothing is noticed; and when no
      index sees a difference, the throw came before any commit. */
  ghost predicate Survives<V(!new), S(!new)>(specs: seq<Spec<V, S>>, told: map<Id, V>, r: Outcome<V, S>) {
    && (Good(r.db) <==> r.Returned? || Unnoticed(specs, r.db.indexes, told, r.db.store))
    && (r.Raised? && AllSameView(specs, told, r.db.store) ==> RepresentsAll(specs, r.db.indexes, told))
  }

  /** One propagated update, the store being written already. */
  lemma PropagateSurvives<V(!new), S(!new)>(db: Db<V, S>, m: map<Id, V>, u: Update<V>)
    requires RepresentsAll(db.specs, db.indexes, m) && Lawfuls(db.specs)
    requires Legal(m, u) && db.store == Apply(m, u)
    ensures Survives(db.specs, m, Propagate(db, u))
  {
    AllOrNothing(db, m, u);
    PropagateCorrect(db, m, u);
    AllRepresentConsistent(db.specs, db.indexes, m);
    var r := Propagate(db, u);
    if ThrowsInHook(db, u) {
      if AllSameView(db.specs, m, db.store) {
        AllSameViewConsistent(db.specs, m, db.store);
      }
      if Good(r.db) {
        AllRepresentConsistent(db.specs, r.db.indexes, db.store);
      }
    } else if r.Raised? {
      UnnoticedIff(db.specs, r.db.indexes, m, db.store);
    }
  }

  lemma SetSurvives<V(!new), S(!new)>(db: Db<V, S>, id: Id, newValue: V)
    requires Good(db)
    ensures Survives(db.specs, db.store, SetOp(db, id, newValue))
  {
    SetCorrect(db, id, newValue);
    PropagateSurvives(
      db.(last := if id > db.last then id else db.last, store := db.store[id := newValue]),
      db.store, SetUpdate(db.store, id, newValue));
  }

  /** The items the indexes stand for when the operation throws: `alter` has already
      deleted a truthy old value. */
  function Told<V(==), S>(truthy: V -> bool, db: Db<V, S>, op: Op<V, S>): map<Id, V> {
    if (op.Alter? || op.Adjust?) && Holds(truthy, Get(db.store, op.id)) then db.store - {op.id} else db.store
  }

  /** Exactly when the invariant survives an operation: it returned, or no index sees
      a difference between the items it was told of and the store that was written. */
  lemma GoodIff<V(!new), S(!new)>(truthy: V -> bool, db: Db<V, S>, op: Op<V, S>)
    requires Good(db) && Proper(db, op)
    ensures var r := Step(truthy, db, op);
            Good(r.db) <==> r.Returned? || Unnoticed(db.specs, r.db.indexes, Told(truthy, db, op), r.db.store)
  {
    StepSurvives(truthy, db, op);
  }

  lemma StepSurvives<V(!new), S(!new)>(truthy: V -> bool, db: Db<V, S>, op: Op<V, S>)
    requires Good(db) && Proper(db, op)
    ensures Survives(db.specs, Told(truthy, db, op), Step(truthy, db, op))
  {
    match op {
      case Register(spec, order) =>
        RegisterCorrect(db, spec, order);
        UnnoticedIff(db.specs, db.indexes, db.store, db.store);
      case Add(value) =>
        AddCorrect(db, value);
        var id := NextId(db.last);
        PropagateSurvives(db.(last := id, store := db.store[id := value]), db.store, AddUpdate(id, value));
      case Set(id, newValue) =>
        SetCorrect(db, id, newValue);
        SetSurvives(db, id, newValue);
      case Delete(id) => DeleteCorrect(db, id);
      case Alter(id, f) => AlterSurvives(truthy, db, id, f);
      case Adjust(id, g) => AlterSurvives(truthy, db, id, Adjusting(truthy, g));
    }
  }

  lemma AlterSurvives<V(!new), S(!new)>(truthy: V -> bool, db: Db<V, S>, id: Id, f: Option<V> -> Option<V>)
    requires Good(db)
    ensures Survives(
              db.specs, if Holds(truthy, Get(db.store, id)) then db.store - {id} else db.store, AlterOp(truthy, db, id, f))
  {
    DeleteCorrect(db, id);
    var pre := Get(db.store, id);
    var db1 := if Holds(truthy, pre) then DeleteOp(db, id).db else db;
    if Holds(truthy, f(pre)) {
      SetCorrect(db1, id, f(pre).value);
      SetSurvives(db1, id, f(pre).value);
    }
  }

  // ---- The condition, operation by operation -----------------------------

  /** `add` keeps the invariant exactly when it returns. */
  lemma AddGoodIff<V(!new), S(!new)>(db: Db<V, S>, value: V)
    requires Good(db) && NextId(db.last) !in db.store
    ensures Good(AddOp(db, value).db) <==> AddOp(db, value).Returned?
  {
    AddCorrect(db, value);
    AddReturnsIff(db, value);
    var r := AddOp(db, value);
    if Good(r.db) {
      AllRepresentConsistent(r.db.specs, r.db.indexes, r.db.store);
    }
  }

  /** `delete` and `registerIndex` keep it always. */
  lemma DeleteAndRegisterKeep<V(!new), S(!new)>(truthy: V -> bool, db: Db<V, S>, op: Op<V, S>)
    requires Good(db) && Proper(db, op) && (op.Delete? || op.Register?)
    ensures Good(Step(truthy, db, op).db)
  {
    match op {
      case Register(spec, order) => RegisterCorrect(db, spec, order);
      case Delete(id) => DeleteCorrect(db, id);
    }
  }

  predicate NoGroups<V, S>(spec: Spec<V, S>) {
    match spec
    case Premap(_, inner) => NoGroups(inner)
    case Group(_, _) => false
    case Zip(specs) => forall i | 0 <= i < |specs| :: NoGroups(specs[i])
    case _ => true
  }

  lemma {:induction false} NoGroupsToMake<V(!new), S(!new)>(spec: Spec<V, S>, st: State<V, S>, a: map<Id, V>, b: map<Id, V>)
    requires NoGroups(spec) && Represents(spec, st, a)
    ensures HasGroups(spec, st, b)
    decreases spec
  {
    match spec {
      case Premap(f, inner) => NoGroupsToMake(inner, st.inner, FilterMap(f, a), FilterMap(f, b));
      case Zip(specs) =>
        forall i | 0 <= i < |specs|
          ensures HasGroups(specs[i], st.children[i], b)
        {
          NoGroupsToMake(specs[i], st.children[i], a, b);
        }
      case _ =>
    }
  }

  /** Without group indexes the condition is about items alone, and can be checked
      before the call. */
  lemma GroupFreeGoodIff<V(!new), S(!new)>(truthy: V -> bool, db: Db<V, S>, op: Op<V, S>)
    requires Good(db) && Proper(db, op)
    requires forall i | 0 <= i < |db.specs| :: NoGroups(db.specs[i])
    ensures var r := Step(truthy, db, op);
            Good(r.db) <==> r.Returned? || AllSameView(db.specs, Told(truthy, db, op), r.db.store)
  {
    StepSurvives(truthy, db, op);
    var r, told := Step(truthy, db, op), Told(truthy, db, op);
    if r.Raised? && AllSameView(db.specs, told, r.db.store) {
      forall i | 0 <= i < |db.specs|
        ensures HasGroups(db.specs[i], r.db.indexes[i], r.db.store)
      {
        NoGroupsToMake(db.specs[i], r.db.indexes[i], told, r.db.store);
      }
    }
  }

  /** With an index that sees every item as it is, the invariant survives a throw only
      if nothing was written. */
  lemma WholeValuesGoodIff<V(!new), S(!new)>(truthy: V -> bool, db: Db<V, S>, op: Op<V, S>, i: nat)
    requires Good(db) && Proper(db, op)
    requires i < |db.specs| && (db.specs[i].Hash? || db.specs[i].BTree? || db.specs[i].Unique?)
    ensures var r := Step(truthy, db, op);
            Good(r.db) <==> r.Returned? || r.db.store == Told(truthy, db, op)
  {
    StepSurvives(truthy, db, op);
    var r, told := Step(truthy, db, op), Told(truthy, db, op);
    if r.Raised? && Good(r.db) {
      assert SameView(db.specs[i], told, r.db.store);
    }
    if r.Raised? && r.db.store == told {
      NothingWritten(db.specs, r, told);
    }
  }

  lemma NothingWritten<V(!new), S(!new)>(specs: seq<Spec<V, S>>, r: Outcome<V, S>, told: map<Id, V>)
    requires r.Raised? && r.db.store == told && Survives(specs, told, r)
    ensures Good(r.db)
  {
    forall i | 0 <= i < |specs|
      ensures SameView(specs[i], told, told)
    {
      SameViewRefl(specs[i], told);
    }
    UnnoticedIff(specs, r.db.indexes, told, told);
  }

  /** So storing the value an item already has is always harmless, thrown or not. */
  lemma SetSameKeeps<V(!new), S(!new)>(db: Db<V, S>, id: Id)
    requires Good(db) && id in db.store
    ensures Good(SetOp(db, id, db.store[id]).db)
  {
    SetSurvives(db, id, db.store[id]);
    SetCorrect(db, id, db.store[id]);
    assert db.store[id := db.store[id]] == db.store;
    var r := SetOp(db, id, db.store[id]);
    if r.Raised? {
      NothingWritten(db.specs, r, db.store);
    }
  }
}
