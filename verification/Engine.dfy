/** The collection as a state machine (core/src/core/Collection.ts): the store, the
    id counter and the registered indexes, with every mutation propagated to the
    indexes in two phases. An operation that throws returns the state it leaves:
    the store and counter are already written and are not rolled back. */
module Engine {
  import opened Updates
  import opened Folds
  import opened Trees
  import opened TreeProofs
  import opened Acceptance

  datatype Db<!V, !S> = Db(
    last: Id,
    store: map<Id, V>,
    specs: seq<Spec<V, S>>,
    indexes: seq<State<V, S>>)

  datatype Op<!V, !S> =
    | Register(spec: Spec<V, S>, order: seq<Id>)
    | Add(value: V)
    | Set(id: Id, newValue: V)
    | Delete(id: Id)
    | Alter(id: Id, f: Option<V> -> Option<V>)
    | Adjust(id: Id, g: V -> V)

  datatype Outcome<!V, !S> =
    | Returned(db: Db<V, S>)
    | Raised(db: Db<V, S>, error: Error)

  function Empty<V, S>(): Db<V, S> { Db(0, map[], [], []) }

  function Get<V>(store: map<Id, V>, id: Id): Option<V> {
    if id in store then Some(store[id]) else None
  }

  /** `propagateUpdate`: all indexes prepare, then all hooks run. */
  function Propagate<V(==), S>(db: Db<V, S>, u: Update<V>): Outcome<V, S> {
    if |db.specs| != |db.indexes| then Raised(db, TypeError)
    else
      match PrepareAll(db.specs, db.indexes, u)
      case ThrewAll(indexes, e) => Raised(db.(indexes := indexes), e)
      case ReadyAll(indexes, hooks) =>
        if !(|db.specs| == |indexes| == |hooks|) then Raised(db, TypeError)
        else
          match CommitAll(db.specs, indexes, hooks)
          case FailedAll(indexes', e) => Raised(db.(indexes := indexes'), e)
          case DoneAll(indexes') => Returned(db.(indexes := indexes'))
  }

  lemma NoIndexes<V(!new), S(!new)>(db: Db<V, S>, u: Update<V>)
    requires db.specs == [] && db.indexes == []
    ensures Propagate(db, u) == Returned(db)
  {
    assert PrepareAnswers(db.specs, db.indexes, u) == [];
    assert PrepareAll(db.specs, db.indexes, u) == ReadyAll([], []);
    assert CommitAnswers(db.specs, db.indexes, []) == [];
    assert CommitAll(db.specs, db.indexes, []) == DoneAll([]);
  }

  lemma PropagateKeeps<V(!new), S(!new)>(db: Db<V, S>, u: Update<V>)
    ensures var r := Propagate(db, u);
            r.db.store == db.store && r.db.last == db.last && r.db.specs == db.specs
  {
  }

  /** `newId`: unsigned 64-bit addition wraps around. */
  function NextId(last: Id): Id { if last + 1 == ID_LIMIT then 0 else last + 1 }

  function AddOp<V(==), S>(db: Db<V, S>, value: V): Outcome<V, S> {
    var id := NextId(db.last);
    Propagate(db.(last := id, store := db.store[id := value]), AddUpdate(id, value))
  }

  function SetUpdate<V>(store: map<Id, V>, id: Id, newValue: V): Update<V> {
    if id in store then UpdateUpdate(id, store[id], newValue) else AddUpdate(id, newValue)
  }

  function SetOp<V(==), S>(db: Db<V, S>, id: Id, newValue: V): Outcome<V, S> {
    Propagate(
      db.(last := if id > db.last then id else db.last, store := db.store[id := newValue]),
      SetUpdate(db.store, id, newValue))
  }

  function DeleteOp<V(==), S>(db: Db<V, S>, id: Id): Outcome<V, S> {
    if id !in db.store then Returned(db)
    else Propagate(db.(store := db.store - {id}), DeleteUpdate(id, db.store[id]))
  }

  predicate Holds<V>(truthy: V -> bool, v: Option<V>) {
    v.Some? && truthy(v.value)
  }

  /** `alter` tests truthiness, of the old value and of the new. */
  function AlterOp<V(==), S>(truthy: V -> bool, db: Db<V, S>, id: Id, f: Option<V> -> Option<V>): Outcome<V, S> {
    var pre := Get(db.store, id);
    match if Holds(truthy, pre) then DeleteOp(db, id) else Returned(db)
    case Raised(db1, e) => Raised(db1, e)
    case Returned(db1) =>
      var post := f(pre);
      if Holds(truthy, post) then SetOp(db1, id, post.value) else Returned(db1)
  }

  function Adjusting<V>(truthy: V -> bool, g: V -> V): Option<V> -> Option<V> {
    pre => if Holds(truthy, pre) then Some(g(pre.value)) else None
  }

  function AdjustOp<V(==), S>(truthy: V -> bool, db: Db<V, S>, id: Id, g: V -> V): Outcome<V, S> {
    AlterOp(truthy, db, id, Adjusting(truthy, g))
  }

  /** Replay of the store, in a given enumeration order, into a fresh index. */
  function Replay<V(==), S>(spec: Spec<V, S>, st: State<V, S>, store: map<Id, V>, order: seq<Id>): Committed<V, S>
    decreases order
  {
    if order == [] then Done(st)
    else if order[0] !in store then Failed(st, TypeError)
    else
      match Update1(spec, st, AddUpdate(order[0], store[order[0]]))
      case Failed(st', e) => Failed(st', e)
      case Done(st') => Replay(spec, st', store, order[1..])
  }

  function RegisterOp<V(==), S>(db: Db<V, S>, spec: Spec<V, S>, order: seq<Id>): Outcome<V, S> {
    match Replay(spec, Trees.Register(spec), db.store, order)
    case Failed(_, e) => Raised(db, e)
    case Done(st) => Returned(db.(specs := db.specs + [spec], indexes := db.indexes + [st]))
  }

  function Step<V(==), S>(truthy: V -> bool, db: Db<V, S>, op: Op<V, S>): Outcome<V, S> {
    match op
    case Register(spec, order) => RegisterOp(db, spec, order)
    case Add(value) => AddOp(db, value)
    case Set(id, newValue) => SetOp(db, id, newValue)
    case Delete(id) => DeleteOp(db, id)
    case Alter(id, f) => AlterOp(truthy, db, id, f)
    case Adjust(id, g) => AdjustOp(truthy, db, id, g)
  }

  /** A run stops at the first operation that throws. */
  function Run<V(==), S>(truthy: V -> bool, db: Db<V, S>, ops: seq<Op<V, S>>): Outcome<V, S>
    decreases ops
  {
    if ops == [] then Returned(db)
    else
      match Step(truthy, db, ops[0])
      case Raised(db', e) => Raised(db', e)
      case Returned(db') => Run(truthy, db', ops[1..])
  }

  // ---- The invariant -----------------------------------------------------

  ghost predicate Lawfuls<V(!new), S(!new)>(specs: seq<Spec<V, S>>) {
    forall i | 0 <= i < |specs| :: LawfulTree(specs[i])
  }

  /** Every registered index is the denotation of its spec over the store. */
  ghost predicate Good<V(!new), S(!new)>(db: Db<V, S>) {
    RepresentsAll(db.specs, db.indexes, db.store) && Lawfuls(db.specs)
  }

  ghost predicate UpTo<V>(store: map<Id, V>, last: Id) {
    forall id | id in store :: id <= last
  }

  /** No stored id is beyond the counter. */
  ghost predicate Bounded<V, S>(db: Db<V, S>) {
    UpTo(db.store, db.last)
  }

  /** What the model asks of a call: a replay visits each stored id once, registered
      folds are lawful, and the id that the counter steps to is free. */
  ghost predicate Proper<V(!new), S(!new)>(db: Db<V, S>, op: Op<V, S>) {
    match op
    case Register(spec, order) => LawfulTree(spec) && Enumerates(order, db.store.Keys)
    case Add(_) => NextId(db.last) !in db.store
    case _ => true
  }

  ghost predicate ProperRun<V(!new), S(!new)>(truthy: V -> bool, db: Db<V, S>, ops: seq<Op<V, S>>)
    decreases ops
  {
    ops == []
    || (Proper(db, ops[0])
        && match Step(truthy, db, ops[0])
           case Raised(_, _) => true
           case Returned(db') => ProperRun(truthy, db', ops[1..]))
  }

  ghost predicate AcceptsAll<V(!new), S(!new)>(specs: seq<Spec<V, S>>, m: map<Id, V>, u: Update<V>) {
    forall i | 0 <= i < |specs| :: Accepts(specs[i], m, u)
  }

  lemma ListCorrect<V(!new), S(!new)>(specs: seq<Spec<V, S>>, states: seq<State<V, S>>, m: map<Id, V>, u: Update<V>)
    requires RepresentsAll(specs, states, m) && Lawfuls(specs) && Legal(m, u)
    ensures BehavesAll(specs, states, m, u)
  {
    forall i | 0 <= i < |specs|
      ensures Behaves(specs[i], states[i], m, u)
    {
      UpdateCorrect(specs[i], states[i], m, u);
    }
    if PrepareAll(specs, states, u).ReadyAll? {
      ListReady(specs, states, m, u);
    } else {
      ListThrows(specs, states, m, u);
    }
  }

  lemma AllGrowRepresent<V(!new), S(!new)>(
    specs: seq<Spec<V, S>>, a: seq<State<V, S>>, b: seq<State<V, S>>, m: map<Id, V>)
    requires RepresentsAll(specs, a, m) && |b| == |specs|
    requires forall i | 0 <= i < |specs| :: Grows(specs[i], a[i], b[i])
    ensures RepresentsAll(specs, b, m)
  {
    forall i | 0 <= i < |specs|
      ensures Represents(specs[i], b[i], m)
    {
      GrowsRepresents(specs[i], a[i], b[i], m);
    }
  }

  /** The two-phase driver. It returns iff every index accepts the update, and then
      every index stands for the updated items. If any index refuses to prepare,
      all of them still stand for the old items; only a change of group can throw
      later. The store keeps whatever was written to it. */
  lemma PropagateCorrect<V(!new), S(!new)>(db: Db<V, S>, m: map<Id, V>, u: Update<V>)
    requires RepresentsAll(db.specs, db.indexes, m) && Lawfuls(db.specs) && Legal(m, u)
    ensures var r := Propagate(db, u);
            && r.db == db.(indexes := r.db.indexes)
            && (r.Returned? <==> AcceptsAll(db.specs, m, u))
            && (r.Returned? ==> RepresentsAll(db.specs, r.db.indexes, Apply(m, u)))
            && (r.Raised? ==> r.error == Conflict)
            && (r.Raised? ==>
                  if Refused(db.specs, m, u) then
                    RepresentsAll(db.specs, r.db.indexes, m)
                  else
                    Torn(Zip(db.specs), ZipState(r.db.indexes), m, u))
  {
    ListCorrect(db.specs, db.indexes, m, u);
    var p := PrepareAll(db.specs, db.indexes, u);
    if p.ThrewAll? {
      AllGrowRepresent(db.specs, db.indexes, p.states, m);
    }
  }

  /** Some index refuses to prepare. */
  ghost predicate Refused<V(!new), S(!new)>(specs: seq<Spec<V, S>>, m: map<Id, V>, u: Update<V>) {
    exists i | 0 <= i < |specs| :: Refuses(specs[i], m, u)
  }

  /** The items can be indexed by every registered index. */
  ghost predicate AllConsistent<V(!new), S(!new)>(specs: seq<Spec<V, S>>, m: map<Id, V>) {
    forall i | 0 <= i < |specs| :: Consistent(specs[i], m)
  }

  lemma AllRepresentConsistent<V(!new), S(!new)>(specs: seq<Spec<V, S>>, states: seq<State<V, S>>, m: map<Id, V>)
    requires RepresentsAll(specs, states, m)
    ensures AllConsistent(specs, m)
  {
    forall i | 0 <= i < |specs|
      ensures Consistent(specs[i], m)
    {
      RepresentsConsistent(specs[i], states[i], m);
    }
  }

  /** A commit hook throws, so some indexes may already have the update. */
  predicate ThrowsInHook<V(==), S>(db: Db<V, S>, u: Update<V>) {
    |db.specs| == |db.indexes| && PrepareAll(db.specs, db.indexes, u).ReadyAll? && Propagate(db, u).Raised?
  }

  lemma AcceptsAllIff<V(!new), S(!new)>(specs: seq<Spec<V, S>>, m: map<Id, V>, u: Update<V>)
    requires AllConsistent(specs, m) && Legal(m, u) && !Refused(specs, m, u)
    ensures AcceptsAll(specs, m, u) <==> AllConsistent(specs, Apply(m, u))
  {
    forall i | 0 <= i < |specs|
      ensures Accepts(specs[i], m, u) <==> Consistent(specs[i], Apply(m, u))
    {
      CommitRefusesIff(specs[i], m, u);
    }
  }

  /** Index-side all-or-nothing, exactly: a hook throws, with the update already in
      some of the indexes or out of both groups of a move, iff no index refuses to
      prepare and yet the updated items are not indexable. In every other case all
      indexes have the update, or none does. */
  lemma AllOrNothing<V(!new), S(!new)>(db: Db<V, S>, m: map<Id, V>, u: Update<V>)
    requires RepresentsAll(db.specs, db.indexes, m) && Lawfuls(db.specs) && Legal(m, u)
    ensures var r := Propagate(db, u);
            && (ThrowsInHook(db, u) <==> !Refused(db.specs, m, u) && !AllConsistent(db.specs, Apply(m, u)))
            && (r.Returned? <==> !Refused(db.specs, m, u) && AllConsistent(db.specs, Apply(m, u)))
            && (!ThrowsInHook(db, u) ==> RepresentsAll(db.specs, r.db.indexes, if r.Returned? then Apply(m, u) else m))
  {
    ListCorrect(db.specs, db.indexes, m, u);
    PropagateCorrect(db, m, u);
    AllRepresentConsistent(db.specs, db.indexes, m);
    if !Refused(db.specs, m, u) {
      AcceptsAllIff(db.specs, m, u);
    }
  }

  /** The indexes are asked in order of registration, and none after the first that
      refuses: those up to it may have made groups, the later ones are untouched. */
  lemma AskedInOrder<V(!new), S(!new)>(db: Db<V, S>, m: map<Id, V>, u: Update<V>, n: nat)
    requires RepresentsAll(db.specs, db.indexes, m) && Lawfuls(db.specs) && Legal(m, u)
    requires n < |db.specs| && Refuses(db.specs[n], m, u) && forall i | 0 <= i < n :: !Refuses(db.specs[i], m, u)
    ensures var r := Propagate(db, u);
            && r.Raised? && |r.db.indexes| == |db.indexes|
            && (forall i | 0 <= i <= n :: r.db.indexes[i] == Prepare(db.specs[i], db.indexes[i], u).state)
            && (forall i | n < i < |db.indexes| :: r.db.indexes[i] == db.indexes[i])
  {
    ListCorrect(db.specs, db.indexes, m, u);
    var answers := PrepareAnswers(db.specs, db.indexes, u);
    GatherPointwise(db.indexes, answers);
    var p := PrepareAll(db.specs, db.indexes, u);
    assert p == Gather(db.indexes, answers) && p.ThrewAll?;
    var k: nat :| StopsAt(db.indexes, answers, p, k);
    forall i | 0 <= i < |db.specs|
      ensures answers[i] == Prepare(db.specs[i], db.indexes[i], u)
      ensures answers[i].Threw? <==> Refuses(db.specs[i], m, u)
    {
      UpdateCorrect(db.specs[i], db.indexes[i], m, u);
    }
    assert k == n;
  }

  /** So it holds of the whole protocol when no unique index is under a group, or the
      item crosses no group. */
  lemma GroupsFreeAllOrNothing<V(!new), S(!new)>(db: Db<V, S>, m: map<Id, V>, u: Update<V>)
    requires RepresentsAll(db.specs, db.indexes, m) && Lawfuls(db.specs) && Legal(m, u)
    requires forall i | 0 <= i < |db.specs| :: GroupsFree(db.specs[i]) || !Crosses(db.specs[i], u)
    ensures !ThrowsInHook(db, u)
  {
    AllOrNothing(db, m, u);
    AllRepresentConsistent(db.specs, db.indexes, m);
    forall i | 0 <= i < |db.specs|
      ensures !Refuses(db.specs[i], m, u) ==> Consistent(db.specs[i], Apply(m, u))
    {
      ThrowsOnlyInPrepare(db.specs[i], m, u);
      CommitRefusesIff(db.specs[i], m, u);
    }
  }

  // ---- Every step keeps the invariant ------------------------------------

  lemma NextIdSteps(last: Id)
    ensures last + 1 < ID_LIMIT ==> NextId(last) == last + 1
    ensures last + 1 == ID_LIMIT ==> NextId(last) == 0
  {
  }

  lemma AddCorrect<V(!new), S(!new)>(db: Db<V, S>, value: V)
    requires Good(db) && NextId(db.last) !in db.store
    ensures var id, r := NextId(db.last), AddOp(db, value);
            && r.db.store == db.store[id := value] && r.db.last == id && r.db.specs == db.specs
            && Legal(db.store, AddUpdate(id, value))
            && (r.Returned? <==> AcceptsAll(db.specs, db.store, AddUpdate(id, value)))
            && (r.Returned? ==> Good(r.db))
  {
    var id := NextId(db.last);
    PropagateCorrect(db.(last := id, store := db.store[id := value]), db.store, AddUpdate(id, value));
  }

  /** `add` goes through iff the new store is indexable. */
  lemma AddReturnsIff<V(!new), S(!new)>(db: Db<V, S>, value: V)
    requires Good(db) && NextId(db.last) !in db.store
    ensures AddOp(db, value).Returned? <==> AllConsistent(db.specs, db.store[NextId(db.last) := value])
  {
    AddCorrect(db, value);
    var u := AddUpdate(NextId(db.last), value);
    forall i | 0 <= i < |db.specs|
      ensures Accepts(db.specs[i], db.store, u) <==> Consistent(db.specs[i], db.store[u.id := value])
    {
      RepresentsConsistent(db.specs[i], db.indexes[i], db.store);
      AcceptedIff(db.specs[i], db.store, u);
      OnlyUpdatesSelfConflict(db.specs[i], u);
    }
  }

  lemma SetCorrect<V(!new), S(!new)>(db: Db<V, S>, id: Id, newValue: V)
    requires Good(db)
    ensures var r := SetOp(db, id, newValue);
            && r.db.store == db.store[id := newValue] && r.db.specs == db.specs
            && r.db.last == (if id > db.last then id else db.last)
            && Legal(db.store, SetUpdate(db.store, id, newValue))
            && (r.Returned? <==> AcceptsAll(db.specs, db.store, SetUpdate(db.store, id, newValue)))
            && (r.Returned? ==> Good(r.db))
  {
    PropagateCorrect(
      db.(last := if id > db.last then id else db.last, store := db.store[id := newValue]),
      db.store, SetUpdate(db.store, id, newValue));
  }

  /** Deleting never throws. */
  lemma DeleteCorrect<V(!new), S(!new)>(db: Db<V, S>, id: Id)
    requires Good(db)
    ensures var r := DeleteOp(db, id);
            && r.Returned? && Good(r.db)
            && r.db.store == db.store - {id} && r.db.specs == db.specs && r.db.last == db.last
  {
    if id in db.store {
      var u := DeleteUpdate(id, db.store[id]);
      PropagateCorrect(db.(store := db.store - {id}), db.store, u);
      forall i | 0 <= i < |db.specs|
        ensures Accepts(db.specs[i], db.store, u)
      {
        AddDeleteCommit(db.specs[i], db.store, u);
      }
    } else {
      assert db.store - {id} == db.store;
    }
  }

  lemma AlterCorrect<V(!new), S(!new)>(truthy: V -> bool, db: Db<V, S>, id: Id, f: Option<V> -> Option<V>)
    requires Good(db)
    ensures var r := AlterOp(truthy, db, id, f);
            var pre := Get(db.store, id);
            var cleared := if Holds(truthy, pre) then db.store - {id} else db.store;
            && r.db.specs == db.specs
            && r.db.store == (if Holds(truthy, f(pre)) then cleared[id := f(pre).value] else cleared)
            && r.db.last == (if Holds(truthy, f(pre)) && id > db.last then id else db.last)
            && (r.Returned? ==> Good(r.db))
  {
    DeleteCorrect(db, id);
    var pre := Get(db.store, id);
    var db1 := if Holds(truthy, pre) then DeleteOp(db, id).db else db;
    if Holds(truthy, f(pre)) {
      SetCorrect(db1, id, f(pre).value);
    }
  }

  /** The counter after any call, in any state and whatever throws: only `add` steps it,
      and only storing under a greater id raises it, to that id. */
  lemma CounterAfter<V(!new), S(!new)>(truthy: V -> bool, db: Db<V, S>, op: Op<V, S>)
    ensures Step(truthy, db, op).db.last ==
              match op
              case Register(_, _) => db.last
              case Add(_) => if db.last + 1 == ID_LIMIT then 0 else db.last + 1
              case Set(id, _) => if id > db.last then id else db.last
              case Delete(_) => db.last
              case Alter(id, f) => AlteredCounter(truthy, db, id, f(Get(db.store, id)))
              case Adjust(id, g) =>
                AlteredCounter(
                  truthy, db, id,
                  if id in db.store && truthy(db.store[id]) then Some(g(db.store[id])) else None)
  {
  }

  /** `alter` stores the new value, if it is truthy and the old one could be deleted. */
  function AlteredCounter<V(==), S>(truthy: V -> bool, db: Db<V, S>, id: Id, post: Option<V>): Id {
    var stuck := id in db.store && truthy(db.store[id]) && DeleteOp(db, id).Raised?;
    if !stuck && post.Some? && truthy(post.value) && id > db.last then id else db.last
  }

  /** So on a good collection the next `add` after an `alter` takes the id after the
      greater of the counter and, if a value was stored, the altered id. */
  lemma AddAfterAlter<V(!new), S(!new)>(
    truthy: V -> bool, db: Db<V, S>, id: Id, f: Option<V> -> Option<V>, value: V)
    requires Good(db)
    ensures var post := f(Get(db.store, id));
            var stored := post.Some? && truthy(post.value);
            var altered := AlterOp(truthy, db, id, f).db;
            var added := AddOp(altered, value).db;
            && added.last == NextId(if stored && id > db.last then id else db.last)
            && added.store == altered.store[added.last := value]
  {
    AlterCorrect(truthy, db, id, f);
    var altered := AlterOp(truthy, db, id, f).db;
    PropagateKeeps(
      altered.(last := NextId(altered.last), store := altered.store[NextId(altered.last) := value]),
      AddUpdate(NextId(altered.last), value));
  }

  /** The same after an `adjust`, which stores only over a truthy value. */
  lemma AddAfterAdjust<V(!new), S(!new)>(truthy: V -> bool, db: Db<V, S>, id: Id, g: V -> V, value: V)
    requires Good(db)
    ensures var v := Get(db.store, id);
            var stored := v.Some? && truthy(v.value) && truthy(g(v.value));
            var adjusted := AdjustOp(truthy, db, id, g).db;
            AddOp(adjusted, value).db.last == NextId(if stored && id > db.last then id else db.last)
  {
    AddAfterAlter(truthy, db, id, Adjusting(truthy, g), value);
  }

  lemma ReplayStep<V(!new), S(!new)>(spec: Spec<V, S>, st: State<V, S>, m: map<Id, V>, id: Id, value: V)
    requires LawfulTree(spec) && Represents(spec, st, m) && id !in m
    ensures var r := Update1(spec, st, AddUpdate(id, value));
            && (r.Done? <==> Consistent(spec, m[id := value]))
            && (r.Done? ==> Represents(spec, r.state, m[id := value]))
            && (r.Failed? ==> r.error == Conflict)
  {
    var u := AddUpdate(id, value);
    RepresentsConsistent(spec, st, m);
    UpdateCorrect(spec, st, m, u);
    AddDeleteRuns(spec, st, m, u);
    AddDeleteCommit(spec, m, u);
    OnlyUpdatesSelfConflict(spec, u);
    AcceptedIff(spec, m, u);
  }

  /** Replaying any duplicate-free enumeration of items into a fresh index succeeds
      iff the items are indexable, and then the index stands for them. */
  lemma {:induction false} ReplayCorrect<V(!new), S(!new)>(
    spec: Spec<V, S>, st: State<V, S>, done: map<Id, V>, store: map<Id, V>, order: seq<Id>)
    requires LawfulTree(spec) && Represents(spec, st, done)
    requires Submap(done, store)
    requires Enumerates(order, store.Keys - done.Keys)
    ensures var r := Replay(spec, st, store, order);
            && (r.Done? <==> Consistent(spec, store))
            && (r.Done? ==> Represents(spec, r.state, store))
            && (r.Failed? ==> r.error == Conflict)
    decreases order
  {
    if order == [] {
      NothingLeft(done, store, order);
      RepresentsConsistent(spec, st, done);
    } else {
      var id := order[0];
      assert id in order;
      var next := done[id := store[id]];
      ReplayStep(spec, st, done, id, store[id]);
      var r := Update1(spec, st, AddUpdate(id, store[id]));
      NextLeft(done, store, order);
      if r.Done? {
        ReplayCorrect(spec, r.state, next, store, order[1..]);
      } else if Consistent(spec, store) {
        ConsistentSub(spec, next, store);
      }
    }
  }

  lemma NothingLeft<V(!new)>(done: map<Id, V>, store: map<Id, V>, order: seq<Id>)
    requires Submap(done, store) && Enumerates(order, store.Keys - done.Keys) && order == []
    ensures done == store
  {
    forall id | id in store
      ensures id in done
    {
      assert id in store.Keys - done.Keys ==> id in order;
    }
  }

  lemma NextLeft<V(!new)>(done: map<Id, V>, store: map<Id, V>, order: seq<Id>)
    requires Submap(done, store) && Enumerates(order, store.Keys - done.Keys) && order != []
    ensures order[0] in order && order[0] in store
    ensures var next := done[order[0] := store[order[0]]];
            Submap(next, store) && Enumerates(order[1..], store.Keys - next.Keys)
  {
    assert order[0] in order;
    EnumeratesRest(order, store.Keys - done.Keys);
    assert store.Keys - done[order[0] := store[order[0]]].Keys == store.Keys - done.Keys - {order[0]};
  }

  lemma EnumeratesRest<K(!new)>(order: seq<K>, keys: set<K>)
    requires Enumerates(order, keys) && order != []
    ensures Enumerates(order[1..], keys - {order[0]})
  {
  }

  /** `registerIndex` either appends an index that stands for the store, or throws
      and leaves the collection as it was; it throws iff the store is not indexable. */
  lemma RegisterCorrect<V(!new), S(!new)>(db: Db<V, S>, spec: Spec<V, S>, order: seq<Id>)
    requires Good(db) && LawfulTree(spec) && Enumerates(order, db.store.Keys)
    ensures var r := RegisterOp(db, spec, order);
            && (r.Returned? <==> Consistent(spec, db.store))
            && (r.Returned? ==> Good(r.db) && r.db.specs == db.specs + [spec])
            && r.db.store == db.store && r.db.last == db.last
            && (r.Raised? ==> r.db == db)
  {
    RegisterRepresents(spec);
    var none: map<Id, V> := map[];
    assert db.store.Keys - none.Keys == db.store.Keys;
    ReplayCorrect(spec, Trees.Register(spec), none, db.store, order);
  }

  lemma StepCorrect<V(!new), S(!new)>(truthy: V -> bool, db: Db<V, S>, op: Op<V, S>)
    requires Good(db) && Proper(db, op)
    ensures Step(truthy, db, op).Returned? ==> Good(Step(truthy, db, op).db)
  {
    match op {
      case Register(spec, order) => RegisterCorrect(db, spec, order);
      case Add(value) => AddCorrect(db, value);
      case Set(id, newValue) => SetCorrect(db, id, newValue);
      case Delete(id) => DeleteCorrect(db, id);
      case Alter(id, f) => AlterCorrect(truthy, db, id, f);
      case Adjust(id, g) => AlterCorrect(truthy, db, id, Adjusting(truthy, g));
    }
  }

  lemma EmptyGood<V(!new), S(!new)>()
    ensures Good(Empty<V, S>())
  {
  }

  /** Along every run in which nothing throws, every registered index is the
      denotation of its spec over the current store. */
  lemma {:induction false} RunCorrect<V(!new), S(!new)>(truthy: V -> bool, db: Db<V, S>, ops: seq<Op<V, S>>)
    requires Good(db) && ProperRun(truthy, db, ops)
    ensures Run(truthy, db, ops).Returned? ==> Good(Run(truthy, db, ops).db)
    decreases ops
  {
    if ops != [] {
      StepCorrect(truthy, db, ops[0]);
      if Step(truthy, db, ops[0]).Returned? {
        RunCorrect(truthy, Step(truthy, db, ops[0]).db, ops[1..]);
      }
    }
  }
}
