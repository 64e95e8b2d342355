/** What a collection sends to its registered indexes: the calls of an operation, and of
    a whole run, as one list of events that the indexes are fed one after the other. */
module Streams {
  import opened Updates
  import opened Trees
  import opened Engine

  /** An update sent to every registered index, or the store replayed into a new one. */
  datatype Event<!V, !S> =
    | Sent(u: Update<V>)
    | Replayed(spec: Spec<V, S>, order: seq<Id>)

  /** One event: the store is written and the registered indexes are told. */
  function Tell<V(==), S>(db: Db<V, S>, event: Event<V, S>): Outcome<V, S> {
    match event
    case Sent(u) => Propagate(db.(store := Apply(db.store, u)), u)
    case Replayed(spec, order) => RegisterOp(db, spec, order)
  }

  /** Events in order, up to the first that throws. */
  function Feed<V(==), S>(db: Db<V, S>, events: seq<Event<V, S>>): Outcome<V, S>
    decreases events
  {
    if events == [] then Returned(db)
    else
      match Tell(db, events[0])
      case Raised(db', e) => Raised(db', e)
      case Returned(db') => Feed(db', events[1..])
  }

  /** The outcome without the id counter, which the indexes never see. */
  function Uncounted<V, S>(r: Outcome<V, S>): Outcome<V, S> {
    match r
    case Returned(db) => Returned(db.(last := 0))
    case Raised(db, e) => Raised(db.(last := 0), e)
  }

  // ---- The events of one operation ---------------------------------------

  function Emits<V(==), S>(truthy: V -> bool, db: Db<V, S>, op: Op<V, S>): seq<Event<V, S>> {
    match op
    case Register(spec, order) => [Replayed(spec, order)]
    case Add(value) => [Sent(AddUpdate(NextId(db.last), value))]
    case Set(id, newValue) => [Sent(SetUpdate(db.store, id, newValue))]
    case Delete(id) => EmitsDelete(db.store, id)
    case Alter(id, f) => EmitsAlter(truthy, db, id, f)
    case Adjust(id, g) => EmitsAlter(truthy, db, id, Adjusting(truthy, g))
  }

  function EmitsDelete<V, S>(store: map<Id, V>, id: Id): seq<Event<V, S>> {
    if id in store then [Sent(DeleteUpdate(id, store[id]))] else []
  }

  /** A truthy old value is deleted first, and if that throws nothing follows. */
  function EmitsAlter<V(==), S>(truthy: V -> bool, db: Db<V, S>, id: Id, f: Option<V> -> Option<V>): seq<Event<V, S>> {
    var pre := Get(db.store, id);
    if !Holds(truthy, pre) then EmitsAltered(truthy, db.store, id, f(pre))
    else if DeleteOp(db, id).Raised? then EmitsDelete(db.store, id)
    else EmitsDelete(db.store, id) + EmitsAltered(truthy, db.store - {id}, id, f(pre))
  }

  function EmitsAltered<V(==), S>(truthy: V -> bool, store: map<Id, V>, id: Id, post: Option<V>): seq<Event<V, S>> {
    if Holds(truthy, post) then [Sent(SetUpdate(store, id, post.value))] else []
  }

  function Trace<V(==), S>(truthy: V -> bool, db: Db<V, S>, ops: seq<Op<V, S>>): seq<Event<V, S>>
    decreases ops
  {
    if ops == [] then []
    else
      Emits(truthy, db, ops[0])
      + (match Step(truthy, db, ops[0])
         case Raised(_, _) => []
         case Returned(db') => Trace(truthy, db', ops[1..]))
  }

  // ---- Feeding -----------------------------------------------------------

  lemma FeedOne<V(!new), S(!new)>(db: Db<V, S>, event: Event<V, S>)
    ensures Feed(db, [event]) == Tell(db, event)
  {
    if Tell(db, event).Returned? {
      assert [event][1..] == [];
    }
  }

  lemma {:induction false} FeedConcat<V(!new), S(!new)>(db: Db<V, S>, es: seq<Event<V, S>>, fs: seq<Event<V, S>>)
    ensures Feed(db, es + fs) ==
              match Feed(db, es)
              case Raised(db', e) => Raised(db', e)
              case Returned(db') => Feed(db', fs)
    decreases es
  {
    if es == [] {
      assert es + fs == fs;
    } else {
      assert (es + fs)[1..] == es[1..] + fs;
      if Tell(db, es[0]).Returned? {
        FeedConcat(Tell(db, es[0]).db, es[1..], fs);
      }
    }
  }

  lemma TellUncounted<V(!new), S(!new)>(db: Db<V, S>, last: Id, event: Event<V, S>)
    ensures var r, r' := Tell(db, event), Tell(db.(last := last), event);
            Uncounted(r) == Uncounted(r') && r'.db == r.db.(last := last)
  {
  }

  lemma {:induction false} FeedUncounted<V(!new), S(!new)>(db: Db<V, S>, last: Id, events: seq<Event<V, S>>)
    ensures Uncounted(Feed(db, events)) == Uncounted(Feed(db.(last := last), events))
    decreases events
  {
    if events != [] {
      TellUncounted(db, last, events[0]);
      if Tell(db, events[0]).Returned? {
        FeedUncounted(Tell(db, events[0]).db, last, events[1..]);
      }
    }
  }

  // ---- An operation is the feeding of its events -------------------------

  lemma SetIsFeed<V(!new), S(!new)>(db: Db<V, S>, id: Id, newValue: V)
    ensures Uncounted(SetOp(db, id, newValue)) == Uncounted(Feed(db, [Sent(SetUpdate(db.store, id, newValue))]))
  {
    var u := SetUpdate(db.store, id, newValue);
    var last := if id > db.last then id else db.last;
    assert Apply(db.store, u) == db.store[id := newValue];
    assert SetOp(db, id, newValue) == Tell(db.(last := last), Sent(u));
    TellUncounted(db, last, Sent(u));
    FeedOne(db, Sent(u));
  }

  lemma AddIsFeed<V(!new), S(!new)>(db: Db<V, S>, value: V)
    ensures Uncounted(AddOp(db, value)) == Uncounted(Feed(db, [Sent(AddUpdate(NextId(db.last), value))]))
  {
    var u := AddUpdate(NextId(db.last), value);
    TellUncounted(db, NextId(db.last), Sent(u));
    FeedOne(db, Sent(u));
  }

  lemma DeleteIsFeed<V(!new), S(!new)>(db: Db<V, S>, id: Id)
    ensures DeleteOp(db, id) == Feed(db, EmitsDelete(db.store, id))
  {
    if id in db.store {
      FeedOne(db, Sent(DeleteUpdate(id, db.store[id])));
    }
  }

  lemma AlterIsFeed<V(!new), S(!new)>(truthy: V -> bool, db: Db<V, S>, id: Id, f: Option<V> -> Option<V>)
    ensures Uncounted(AlterOp(truthy, db, id, f)) == Uncounted(Feed(db, EmitsAlter(truthy, db, id, f)))
  {
    var pre := Get(db.store, id);
    DeleteIsFeed(db, id);
    var db1 := if Holds(truthy, pre) then DeleteOp(db, id).db else db;
    if Holds(truthy, f(pre)) {
      SetIsFeed(db1, id, f(pre).value);
    }
    if Holds(truthy, pre) {
      PropagateKeeps(db.(store := db.store - {id}), DeleteUpdate(id, pre.value));
      FeedConcat(db, EmitsDelete(db.store, id), EmitsAltered(truthy, db.store - {id}, id, f(pre)));
    }
  }

  /** Whatever the state, and whatever throws: an operation does to the store and to
      the indexes what feeding them exactly its events does, and ends in the same way. */
  lemma StepIsFeed<V(!new), S(!new)>(truthy: V -> bool, db: Db<V, S>, op: Op<V, S>)
    ensures Uncounted(Step(truthy, db, op)) == Uncounted(Feed(db, Emits(truthy, db, op)))
  {
    match op {
      case Register(spec, order) => FeedOne(db, Replayed(spec, order));
      case Add(value) => AddIsFeed(db, value);
      case Set(id, newValue) => SetIsFeed(db, id, newValue);
      case Delete(id) => DeleteIsFeed(db, id);
      case Alter(id, f) => AlterIsFeed(truthy, db, id, f);
      case Adjust(id, g) => AlterIsFeed(truthy, db, id, Adjusting(truthy, g));
    }
  }

  /** So does a whole run: nothing but its trace reaches the store and the indexes. */
  lemma {:induction false} RunIsFeed<V(!new), S(!new)>(truthy: V -> bool, db: Db<V, S>, ops: seq<Op<V, S>>)
    ensures Uncounted(Run(truthy, db, ops)) == Uncounted(Feed(db, Trace(truthy, db, ops)))
    decreases ops
  {
    if ops != [] {
      StepIsFeed(truthy, db, ops[0]);
      var r, fed := Step(truthy, db, ops[0]), Feed(db, Emits(truthy, db, ops[0]));
      if r.Returned? {
        var rest := Trace(truthy, r.db, ops[1..]);
        RunIsFeed(truthy, r.db, ops[1..]);
        FeedConcat(db, Emits(truthy, db, ops[0]), rest);
        assert fed.db == r.db.(last := fed.db.last);
        FeedUncounted(r.db, fed.db.last, rest);
      } else {
        assert Trace(truthy, db, ops) == Emits(truthy, db, ops[0]);
      }
    }
  }

  // ---- The protocol ------------------------------------------------------

  /** The updates among the events. */
  function Sends<V, S>(events: seq<Event<V, S>>): seq<Update<V>> {
    if events == [] then [] else SentBy(events[0]) + Sends(events[1..])
  }

  function SentBy<V, S>(event: Event<V, S>): seq<Update<V>> {
    if event.Sent? then [event.u] else []
  }

  lemma {:induction false} SendsConcat<V(!new), S(!new)>(es: seq<Event<V, S>>, fs: seq<Event<V, S>>)
    ensures Sends(es + fs) == Sends(es) + Sends(fs)
    decreases es
  {
    if es == [] {
      assert es + fs == fs;
    } else {
      var head, rest := SentBy(es[0]), es[1..];
      assert (es + fs)[1..] == rest + fs;
      SendsConcat(rest, fs);
      calc {
        Sends(es + fs);
        head + Sends(rest + fs);
        head + (Sends(rest) + Sends(fs));
        Sends(es) + Sends(fs);
      }
    }
  }

  lemma SendsOne<V(!new), S(!new)>(u: Update<V>)
    ensures var events: seq<Event<V, S>> := [Sent(u)]; Sends(events) == [u]
  {
  }

  lemma SendsDelete<V(!new), S(!new)>(store: map<Id, V>, id: Id)
    ensures var us := Sends(EmitsDelete<V, S>(store, id));
            LegalStream(store, us) && ApplyStream(store, us) == store - {id}
  {
    if id in store {
      SendsOne<V, S>(DeleteUpdate(id, store[id]));
      StreamOfOne(store, DeleteUpdate(id, store[id]));
    } else {
      assert store - {id} == store;
    }
  }

  lemma SendsAltered<V(!new), S(!new)>(truthy: V -> bool, store: map<Id, V>, id: Id, post: Option<V>)
    ensures var us := Sends(EmitsAltered<V, S>(truthy, store, id, post));
            && LegalStream(store, us)
            && ApplyStream(store, us) == (if Holds(truthy, post) then store[id := post.value] else store)
  {
    if Holds(truthy, post) {
      SendsOne<V, S>(SetUpdate(store, id, post.value));
      StreamOfOne(store, SetUpdate(store, id, post.value));
    }
  }

  lemma SendsAlter<V(!new), S(!new)>(truthy: V -> bool, db: Db<V, S>, id: Id, f: Option<V> -> Option<V>)
    requires Good(db)
    ensures var us := Sends(EmitsAlter(truthy, db, id, f));
            LegalStream(db.store, us) && ApplyStream(db.store, us) == AlterOp(truthy, db, id, f).db.store
  {
    AlterCorrect(truthy, db, id, f);
    DeleteCorrect(db, id);
    var pre := Get(db.store, id);
    var cleared := if Holds(truthy, pre) then db.store - {id} else db.store;
    var second := EmitsAltered<V, S>(truthy, cleared, id, f(pre));
    SendsAltered<V, S>(truthy, cleared, id, f(pre));
    if Holds(truthy, pre) {
      var first := EmitsDelete<V, S>(db.store, id);
      SendsDelete<V, S>(db.store, id);
      SendsConcat(first, second);
      StreamConcat(db.store, Sends(first), Sends(second));
    }
  }

  /** On a good collection one operation sends a legal stream that turns the old store
      into the new, whether or not an index throws on the way. */
  lemma EmitsCorrect<V(!new), S(!new)>(truthy: V -> bool, db: Db<V, S>, op: Op<V, S>)
    requires Good(db) && Proper(db, op)
    ensures var us := Sends(Emits(truthy, db, op));
            LegalStream(db.store, us) && ApplyStream(db.store, us) == Step(truthy, db, op).db.store
  {
    match op {
      case Register(spec, order) =>
        RegisterCorrect(db, spec, order);
        assert Sends([Replayed(spec, order)]) == [];
      case Add(value) =>
        AddCorrect(db, value);
        SendsOne<V, S>(AddUpdate(NextId(db.last), value));
        StreamOfOne(db.store, AddUpdate(NextId(db.last), value));
      case Set(id, newValue) =>
        SetCorrect(db, id, newValue);
        SendsOne<V, S>(SetUpdate(db.store, id, newValue));
        StreamOfOne(db.store, SetUpdate(db.store, id, newValue));
      case Delete(id) =>
        DeleteCorrect(db, id);
        SendsDelete<V, S>(db.store, id);
      case Alter(id, f) => SendsAlter(truthy, db, id, f);
      case Adjust(id, g) => SendsAlter(truthy, db, id, Adjusting(truthy, g));
    }
  }

  /** Protocol safety over whole runs: the run is the feeding of its trace, in which
      ADD names only absent ids, UPDATE and DELETE carry the true old value, and which
      rebuilds the store. */
  lemma {:induction false} TraceCorrect<V(!new), S(!new)>(truthy: V -> bool, db: Db<V, S>, ops: seq<Op<V, S>>)
    requires Good(db) && ProperRun(truthy, db, ops)
    ensures var trace := Trace(truthy, db, ops);
            && Uncounted(Run(truthy, db, ops)) == Uncounted(Feed(db, trace))
            && LegalStream(db.store, Sends(trace))
            && ApplyStream(db.store, Sends(trace)) == Run(truthy, db, ops).db.store
    decreases ops
  {
    RunIsFeed(truthy, db, ops);
    if ops != [] {
      var first := Emits(truthy, db, ops[0]);
      var r := Step(truthy, db, ops[0]);
      EmitsCorrect(truthy, db, ops[0]);
      StepCorrect(truthy, db, ops[0]);
      var rest := if r.Returned? then Trace(truthy, r.db, ops[1..]) else [];
      if r.Returned? {
        TraceCorrect(truthy, r.db, ops[1..]);
      }
      SendsConcat(first, rest);
      StreamConcat(db.store, Sends(first), Sends(rest));
    }
  }
}
