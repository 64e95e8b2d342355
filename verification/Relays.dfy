/** What each index inside a registered tree is told: the stream of the collection,
    rewritten along the path to the index, and nothing else. */
module Relays {
  import opened Updates
  import opened Folds
  import opened Trees
  import opened TreeProofs
  import opened Denotation
  import opened Engine
  import opened Streams

  /** `ix._onUpdate(u)()` for each update in turn, up to the first that throws. */
  function RunUpdates<V(==), S>(spec: Spec<V, S>, st: State<V, S>, us: seq<Update<V>>): Committed<V, S>
    decreases us
  {
    if us == [] then Done(st)
    else
      match Update1(spec, st, us[0])
      case Failed(st', e) => Failed(st', e)
      case Done(st') => RunUpdates(spec, st', us[1..])
  }

  lemma {:induction false} RunUpdatesConcat<V(!new), S(!new)>(
    spec: Spec<V, S>, st: State<V, S>, us: seq<Update<V>>, vs: seq<Update<V>>)
    requires RunUpdates(spec, st, us).Done?
    ensures RunUpdates(spec, st, us + vs) == RunUpdates(spec, RunUpdates(spec, st, us).state, vs)
    decreases us
  {
    if us == [] {
      assert us + vs == vs;
    } else {
      assert (us + vs)[1..] == us[1..] + vs;
      RunUpdatesConcat(spec, Update1(spec, st, us[0]).state, us[1..], vs);
    }
  }

  /** A fold index does with a stream what its fold does. */
  lemma {:induction false} FoldRuns<V(!new), S(!new)>(ops: FoldOps<V, S>, s: S, us: seq<Update<V>>)
    ensures RunUpdates(Fold(ops), FoldState(s), us) == Done(FoldState(FoldStream(ops, s, us)))
    decreases us
  {
    if us != [] {
      assert Update1(Fold(ops), FoldState(s), us[0]) == Done(FoldState(FoldStep(ops, s, us[0])));
      FoldRuns(ops, FoldStep(ops, s, us[0]), us[1..]);
    }
  }

  // ---- From the collection to a registered index -------------------------

  /** When both loops over a list run to their ends, each index has had its two phases. */
  lemma EachReturns<V(!new), S(!new)>(
    specs: seq<Spec<V, S>>, states: seq<State<V, S>>, u: Update<V>,
    prepared: seq<State<V, S>>, hooks: seq<Hook<V>>, after: seq<State<V, S>>)
    requires |specs| == |states| == |prepared| == |hooks|
    requires PrepareAll(specs, states, u) == ReadyAll(prepared, hooks)
    requires CommitAll(specs, prepared, hooks) == DoneAll(after)
    ensures |after| == |specs|
    ensures forall i | 0 <= i < |specs| :: Update1(specs[i], states[i], u) == Done(after[i])
  {
    var answers, ends := PrepareAnswers(specs, states, u), CommitAnswers(specs, prepared, hooks);
    GatherPointwise(states, answers);
    GatherCommitsPointwise(prepared, ends);
    forall i | 0 <= i < |specs|
      ensures Update1(specs[i], states[i], u) == Done(after[i])
    {
      assert answers[i] == Prepare(specs[i], states[i], u) == Ready(prepared[i], hooks[i]);
      assert ends[i] == Commit(specs[i], prepared[i], hooks[i]) == Done(after[i]);
    }
  }

  lemma PropagateReaches<V(!new), S(!new)>(db: Db<V, S>, u: Update<V>)
    requires |db.specs| == |db.indexes| && Propagate(db, u).Returned?
    ensures var r := Propagate(db, u).db;
            && r.specs == db.specs && |r.indexes| == |db.indexes|
            && forall i | 0 <= i < |db.specs| :: Update1(db.specs[i], db.indexes[i], u) == Done(r.indexes[i])
  {
    var p := PrepareAll(db.specs, db.indexes, u);
    EachReturns(db.specs, db.indexes, u, p.states, p.hooks, Propagate(db, u).db.indexes);
  }

  /** The index registered as number `i` has run the given updates. */
  ghost predicate Ran<V(!new), S(!new)>(db: Db<V, S>, db': Db<V, S>, i: nat, us: seq<Update<V>>) {
    && i < |db.specs| == |db.indexes| && i < |db'.specs| == |db'.indexes|
    && db'.specs[i] == db.specs[i]
    && RunUpdates(db.specs[i], db.indexes[i], us) == Done(db'.indexes[i])
  }

  lemma TellReaches<V(!new), S(!new)>(db: Db<V, S>, event: Event<V, S>, i: nat)
    requires i < |db.specs| == |db.indexes| && Tell(db, event).Returned?
    ensures Ran(db, Tell(db, event).db, i, SentBy(event))
  {
    if event.Sent? {
      PropagateReaches(db.(store := Apply(db.store, event.u)), event.u);
    }
  }

  lemma {:induction false} FeedReaches<V(!new), S(!new)>(db: Db<V, S>, events: seq<Event<V, S>>, i: nat)
    requires i < |db.specs| == |db.indexes| && Feed(db, events).Returned?
    ensures Ran(db, Feed(db, events).db, i, Sends(events))
    decreases events
  {
    if events != [] {
      TellReaches(db, events[0], i);
      FeedReaches(Tell(db, events[0]).db, events[1..], i);
      RunUpdatesConcat(db.specs[i], db.indexes[i], SentBy(events[0]), Sends(events[1..]));
    }
  }

  // ---- Premap ------------------------------------------------------------

  lemma PremapUpdate<V(!new), S(!new)>(f: V -> Option<V>, inner: Spec<V, S>, st: State<V, S>, u: Update<V>)
    requires st.PremapState?
    ensures Update1(Premap(f, inner), st, u) ==
              match FilterMapUpdate(f, u)
              case None => Done(st)
              case Some(w) =>
                match Update1(inner, st.inner, w)
                case Done(next) => Done(PremapState(next))
                case Failed(next, e) => Failed(PremapState(next), e)
  {
    assert Prepare(Premap(f, inner), st, u) == PreparePremap(f, inner, st.inner, u);
    match FilterMapUpdate(f, u) {
      case None =>
        assert Commit(Premap(f, inner), st, Skip) == CommitPremap(inner, st.inner, Skip);
      case Some(w) =>
        var p := Prepare(inner, st.inner, w);
        if p.Ready? {
          assert Commit(Premap(f, inner), PremapState(p.state), Inner(p.hook)) == CommitPremap(inner, p.state, Inner(p.hook));
        }
    }
  }

  lemma {:induction false} PremapRelays<V(!new), S(!new)>(
    f: V -> Option<V>, inner: Spec<V, S>, st: State<V, S>, us: seq<Update<V>>)
    requires st.PremapState? && RunUpdates(Premap(f, inner), st, us).Done?
    ensures var r := RunUpdates(Premap(f, inner), st, us).state;
            r.PremapState? && RunUpdates(inner, st.inner, RewriteStream(f, us)) == Done(r.inner)
    decreases us
  {
    if us != [] {
      PremapUpdate(f, inner, st, us[0]);
      var next := Update1(Premap(f, inner), st, us[0]).state;
      PremapRelays(f, inner, next, us[1..]);
      RelayHead(inner, st.inner, next.inner, f, us);
    }
  }

  /** The part of a stream that passes `f`, head first. */
  lemma RelayHead<V(!new), S(!new)>(
    inner: Spec<V, S>, st: State<V, S>, next: State<V, S>, f: V -> Option<V>, us: seq<Update<V>>)
    requires us != []
    requires match FilterMapUpdate(f, us[0])
             case None => next == st
             case Some(w) => Update1(inner, st, w) == Done(next)
    ensures RunUpdates(inner, st, RewriteStream(f, us)) == RunUpdates(inner, next, RewriteStream(f, us[1..]))
  {
    match FilterMapUpdate(f, us[0]) {
      case None => assert RewriteStream(f, us) == RewriteStream(f, us[1..]);
      case Some(w) => assert RewriteStream(f, us)[1..] == RewriteStream(f, us[1..]);
    }
  }

  // ---- Group -------------------------------------------------------------

  /** The index that group `k` starts from: the one there, or a fresh one. */
  function GroupBase<V(==), S>(inner: Spec<V, S>, groups: map<V, State<V, S>>, k: V): State<V, S> {
    if k in groups then groups[k] else Trees.Register(inner)
  }

  /** What one update of the group index has done to group `k`. */
  ghost predicate GroupTold<V(!new), S(!new)>(
    g: V -> V, inner: Spec<V, S>, before: map<V, State<V, S>>, after: map<V, State<V, S>>, k: V, u: Update<V>)
  {
    match FilterMapUpdate(GroupFilter(g, k), u)
    case None => (k in after <==> k in before) && (k in before ==> after[k] == before[k])
    case Some(w) => k in after && Update1(inner, GroupBase(inner, before, k), w) == Done(after[k])
  }

  /** An update inside one group is that group's update. */
  lemma GroupUpdate<V(!new), S(!new)>(g: V -> V, inner: Spec<V, S>, groups: map<V, State<V, S>>, key: V, u: Update<V>)
    requires Within(g, key, u)
    ensures Update1(Group(g, inner), GroupState(groups), u) ==
              if u.AddUpdate? || key in groups then
                InOneGroup(groups, key, Update1(inner, GroupBase(inner, groups, key), u))
              else
                Failed(GroupState(groups), TypeError)
  {
    var made := if u.AddUpdate? then GetOrCreate(groups, key, inner) else groups;
    var p := Prepare(Group(g, inner), GroupState(groups), u);
    assert p == PrepareGroup(g, inner, groups, u) == PrepareIn(inner, made, key, u);
    if key in made {
      var q := Prepare(inner, made[key], u);
      var prepared := made[key := q.state];
      assert prepared == groups[key := q.state];
      if q.Ready? {
        CommitInGroupIs(g, inner, prepared, key, q.hook);
        var c := Commit(inner, q.state, q.hook);
        assert prepared[key := c.state] == groups[key := c.state];
      }
    }
  }

  lemma RunInDone<V(!new), S(!new)>(inner: Spec<V, S>, groups: map<V, State<V, S>>, key: V, u: Update<V>)
    requires RunIn(inner, groups, key, u).Done?
    ensures key in groups && Update1(inner, groups[key], u).Done?
    ensures RunIn(inner, groups, key, u).state == GroupState(groups[key := Update1(inner, groups[key], u).state])
  {
  }

  lemma GroupRelaysMove<V(!new), S(!new)>(g: V -> V, inner: Spec<V, S>, groups: map<V, State<V, S>>, u: Update<V>)
    requires u.UpdateUpdate? && g(u.oldValue) != g(u.newValue)
    requires Update1(Group(g, inner), GroupState(groups), u).Done?
    ensures var from, to := g(u.oldValue), g(u.newValue);
            && from in groups
            && var c := Update1(inner, groups[from], DeleteUpdate(u.id, u.oldValue));
               var d := Update1(inner, GroupBase(inner, groups, to), AddUpdate(u.id, u.newValue));
               && c.Done? && d.Done?
               && Update1(Group(g, inner), GroupState(groups), u).state == GroupState(groups[from := c.state][to := d.state])
  {
    var from, to := g(u.oldValue), g(u.newValue);
    var del, add := DeleteUpdate(u.id, u.oldValue), AddUpdate(u.id, u.newValue);
    MovePrepares(g, inner, GroupState(groups), u);
    var made := GetOrCreate(groups, to, inner);
    assert Commit(Group(g, inner), GroupState(made), Move(from, to, del, add)) ==
             CommitGroup(inner, made, Move(from, to, del, add));
    RunInDone(inner, made, from, del);
    var half := RunIn(inner, made, from, del).state.groups;
    RunInDone(inner, half, to, add);
    var c, d := Update1(inner, groups[from], del), Update1(inner, half[to], add);
    assert half[to := d.state] == groups[from := c.state][to := d.state];
  }

  /** A move out of a group that is not there throws in the hook, with the new group made. */
  lemma MoveFromMissing<V(!new), S(!new)>(g: V -> V, inner: Spec<V, S>, groups: map<V, State<V, S>>, u: Update<V>)
    requires u.UpdateUpdate? && g(u.oldValue) != g(u.newValue) && g(u.oldValue) !in groups
    ensures Prepare(Group(g, inner), GroupState(groups), u).Ready?
    ensures Update1(Group(g, inner), GroupState(groups), u) ==
              Failed(GroupState(GetOrCreate(groups, g(u.newValue), inner)), TypeError)
  {
    var from, to := g(u.oldValue), g(u.newValue);
    var del, add := DeleteUpdate(u.id, u.oldValue), AddUpdate(u.id, u.newValue);
    MovePrepares(g, inner, GroupState(groups), u);
    var made := GetOrCreate(groups, to, inner);
    assert from !in made && RunIn(inner, made, from, del) == Failed(GroupState(made), TypeError);
    assert CommitGroup(inner, made, Move(from, to, del, add)) == Failed(GroupState(made), TypeError);
    assert Commit(Group(g, inner), GroupState(made), Move(from, to, del, add)) ==
             CommitGroup(inner, made, Move(from, to, del, add));
  }

  /** One update reaches group `k` rewritten by the filter of the group, or not at all. */
  lemma GroupRelaysOne<V(!new), S(!new)>(g: V -> V, inner: Spec<V, S>, st: State<V, S>, u: Update<V>, k: V)
    requires Update1(Group(g, inner), st, u).Done?
    ensures var r := Update1(Group(g, inner), st, u).state;
            && st.GroupState? && r.GroupState?
            && st.groups.Keys <= r.groups.Keys
            && GroupTold(g, inner, st.groups, r.groups, k, u)
  {
    if u.UpdateUpdate? && g(u.oldValue) != g(u.newValue) {
      GroupRelaysMove(g, inner, st.groups, u);
    } else {
      GroupUpdate(g, inner, st.groups, g(if u.AddUpdate? then u.value else u.oldValue), u);
    }
  }

  /** Group `k` has run exactly its part of the stream, from the index it had or from a
      fresh one; a group that is not there was sent nothing. */
  lemma {:induction false} GroupRelays<V(!new), S(!new)>(
    g: V -> V, inner: Spec<V, S>, st: State<V, S>, us: seq<Update<V>>, k: V)
    requires st.GroupState? && RunUpdates(Group(g, inner), st, us).Done?
    ensures var r := RunUpdates(Group(g, inner), st, us).state;
            var part := RewriteStream(GroupFilter(g, k), us);
            && r.GroupState? && st.groups.Keys <= r.groups.Keys
            && (k in r.groups <==> k in st.groups || part != [])
            && if k in r.groups then RunUpdates(inner, GroupBase(inner, st.groups, k), part) == Done(r.groups[k])
               else part == []
    decreases us
  {
    if us != [] {
      GroupRelaysOne(g, inner, st, us[0], k);
      var next := Update1(Group(g, inner), st, us[0]).state;
      GroupRelays(g, inner, next, us[1..], k);
      RelayHead(inner, GroupBase(inner, st.groups, k), GroupBase(inner, next.groups, k), GroupFilter(g, k), us);
    }
  }

  // ---- Zip ---------------------------------------------------------------

  lemma ZipRelaysOne<V(!new), S(!new)>(specs: seq<Spec<V, S>>, st: State<V, S>, u: Update<V>)
    requires Update1(Zip(specs), st, u).Done?
    ensures var r := Update1(Zip(specs), st, u).state;
            && st.ZipState? && |st.children| == |specs| && r.ZipState? && |r.children| == |specs|
            && forall i | 0 <= i < |specs| :: Update1(specs[i], st.children[i], u) == Done(r.children[i])
  {
    var p := Prepare(Zip(specs), st, u);
    assert p == PrepareZip(specs, st.children, u);
    assert Commit(Zip(specs), p.state, p.hook) == CommitZip(specs, p.state.children, p.hook.hooks);
    EachReturns(specs, st.children, u, p.state.children, p.hook.hooks, Update1(Zip(specs), st, u).state.children);
  }

  /** When every index of a list takes the update on its own, the two loops run to
      their ends. */
  lemma EachDone<V(!new), S(!new)>(specs: seq<Spec<V, S>>, states: seq<State<V, S>>, u: Update<V>, after: seq<State<V, S>>)
    returns (prepared: seq<State<V, S>>, hooks: seq<Hook<V>>)
    requires |specs| == |states| == |after|
    requires forall i | 0 <= i < |specs| :: Update1(specs[i], states[i], u) == Done(after[i])
    ensures |prepared| == |hooks| == |specs|
    ensures PrepareAll(specs, states, u) == ReadyAll(prepared, hooks)
    ensures CommitAll(specs, prepared, hooks) == DoneAll(after)
  {
    var answers := PrepareAnswers(specs, states, u);
    assert forall i | 0 <= i < |specs| :: answers[i] == Prepare(specs[i], states[i], u);
    prepared := seq(|specs|, i requires 0 <= i < |specs| => answers[i].state);
    hooks := seq(|specs|, i requires 0 <= i < |specs| => if answers[i].Ready? then answers[i].hook else Skip);
    GatherReadyIs(states, answers, prepared, hooks);
    GatherDoneIs(prepared, CommitAnswers(specs, prepared, hooks), after);
  }

  lemma ZipUpdate<V(!new), S(!new)>(specs: seq<Spec<V, S>>, st: State<V, S>, u: Update<V>, after: seq<State<V, S>>)
    requires st.ZipState? && |specs| == |st.children| == |after|
    requires forall i | 0 <= i < |specs| :: Update1(specs[i], st.children[i], u) == Done(after[i])
    ensures Update1(Zip(specs), st, u) == Done(ZipState(after))
  {
    var prepared, hooks := EachDone(specs, st.children, u, after);
    assert Prepare(Zip(specs), st, u) == PrepareZip(specs, st.children, u);
    assert Commit(Zip(specs), ZipState(prepared), All(hooks)) == CommitZip(specs, prepared, hooks);
  }

  lemma {:induction false} ZipRelays<V(!new), S(!new)>(specs: seq<Spec<V, S>>, st: State<V, S>, us: seq<Update<V>>, i: nat)
    requires st.ZipState? && i < |specs| == |st.children| && RunUpdates(Zip(specs), st, us).Done?
    ensures var r := RunUpdates(Zip(specs), st, us).state;
            && r.ZipState? && |r.children| == |specs|
            && RunUpdates(specs[i], st.children[i], us) == Done(r.children[i])
    decreases us
  {
    if us != [] {
      ZipRelaysOne(specs, st, us[0]);
      ZipRelays(specs, Update1(Zip(specs), st, us[0]).state, us[1..], i);
    }
  }

  // ---- Along a path ------------------------------------------------------

  lemma {:induction false} RewriteStreamExt<A, B>(f: A -> Option<B>, g: A -> Option<B>, us: seq<Update<A>>)
    requires forall a :: f(a) == g(a)
    ensures RewriteStream(f, us) == RewriteStream(g, us)
  {
    if us != [] {
      RewriteStreamExt(f, g, us[1..]);
    }
  }

  lemma RewriteAlong<V(!new), S(!new)>(
    f: V -> Option<V>, inner: Spec<V, S>, spec: Spec<V, S>, path: seq<Access<V>>, us: seq<Update<V>>)
    requires path != []
    requires forall v :: Through(spec, path, v) ==
                           match f(v) case None => None case Some(w) => Through(inner, path[1..], w)
    ensures RewriteStream(Seen(inner, path[1..]), RewriteStream(f, us)) == RewriteStream(Seen(spec, path), us)
  {
    RewriteStreamCompose(f, Seen(inner, path[1..]), us);
    RewriteStreamExt(Compose(f, Seen(inner, path[1..])), Seen(spec, path), us);
  }

  /** The index that the end of a path starts from: the one there, or a fresh one. */
  function BaseAt<V(==), S>(spec: Spec<V, S>, st: State<V, S>, path: seq<Access<V>>): State<V, S>
    requires Target(spec, path).Some?
  {
    match Reach(spec, st, path)
    case Some(found) => found.1
    case None => Trees.Register(Target(spec, path).value)
  }

  /** A fresh tree has fresh indexes wherever it has any. */
  lemma {:induction false} RegisterReach<V(!new), S(!new)>(spec: Spec<V, S>, path: seq<Access<V>>)
    requires Target(spec, path).Some?
    ensures BaseAt(spec, Trees.Register(spec), path) == Trees.Register(Target(spec, path).value)
    decreases path
  {
    if path != [] {
      match (spec, path[0]) {
        case (Premap(_, inner), GetInner) => RegisterReach(inner, path[1..]);
        case (Zip(specs), GetChild(i)) => RegisterReach(specs[i], path[1..]);
        case _ =>
      }
    }
  }

  /** The index at the end of the path has run the given updates; an index that is not
      there was sent nothing. */
  ghost predicate RanAt<V(!new), S(!new)>(
    spec: Spec<V, S>, st: State<V, S>, st': State<V, S>, path: seq<Access<V>>, us: seq<Update<V>>)
    requires Target(spec, path).Some?
  {
    match Reach(spec, st', path)
    case Some(found) => RunUpdates(Target(spec, path).value, BaseAt(spec, st, path), us) == Done(found.1)
    case None => us == []
  }

  /** Every index of a tree runs exactly the tree's stream rewritten along the path to
      it, through `_onUpdate` and the hook of each update in turn. */
  lemma {:induction false} PathRelays<V(!new), S(!new)>(
    spec: Spec<V, S>, st: State<V, S>, path: seq<Access<V>>, us: seq<Update<V>>)
    requires Target(spec, path).Some? && RunUpdates(spec, st, us).Done?
    ensures RanAt(spec, st, RunUpdates(spec, st, us).state, path, RewriteStream(Seen(spec, path), us))
    decreases path
  {
    if path == [] {
      RewriteStreamId(spec, us);
    } else if us != [] {
      assert SameKind(spec, st);
      match (spec, path[0]) {
        case (Premap(f, inner), GetInner) =>
          PremapRelays(f, inner, st, us);
          PathRelays(inner, st.inner, path[1..], RewriteStream(f, us));
          RewriteAlong(f, inner, spec, path, us);
        case (Group(g, inner), GetGroup(k)) =>
          GroupRelays(g, inner, st, us, k);
          RewriteAlong(GroupFilter(g, k), inner, spec, path, us);
          var r := RunUpdates(spec, st, us).state;
          if k in r.groups {
            PathRelays(inner, GroupBase(inner, st.groups, k), path[1..], RewriteStream(GroupFilter(g, k), us));
            RegisterReach(inner, path[1..]);
          }
        case (Zip(specs), GetChild(i)) =>
          ZipRelays(specs, st, us, i);
          PathRelays(specs[i], st.children[i], path[1..], us);
          RewriteStreamExt(Seen(specs[i], path[1..]), Seen(spec, path), us);
      }
    }
  }

  lemma {:induction false} RewriteStreamId<V(!new), S(!new)>(spec: Spec<V, S>, us: seq<Update<V>>)
    ensures RewriteStream(Seen(spec, []), us) == us
  {
    if us != [] {
      RewriteStreamId(spec, us[1..]);
    }
  }

  /** The protocol at every index of every registered tree, over whole runs: the index
      at a path runs exactly the updates of the trace rewritten along the path. They
      are legal for the items that passed the path before, and lead to the items that
      pass it afterwards. */
  lemma ProtocolAt<V(!new), S(!new)>(truthy: V -> bool, db: Db<V, S>, ops: seq<Op<V, S>>, i: nat, path: seq<Access<V>>)
    requires Good(db) && ProperRun(truthy, db, ops) && Run(truthy, db, ops).Returned?
    requires i < |db.specs| && Target(db.specs[i], path).Some?
    ensures var db' := Run(truthy, db, ops).db;
            var seen := Seen(db.specs[i], path);
            var us := RewriteStream(seen, Sends(Trace(truthy, db, ops)));
            && i < |db'.specs| == |db'.indexes| && db'.specs[i] == db.specs[i]
            && RanAt(db.specs[i], db.indexes[i], db'.indexes[i], path, us)
            && LegalStream(FilterMap(seen, db.store), us)
            && ApplyStream(FilterMap(seen, db.store), us) == FilterMap(seen, db'.store)
  {
    var trace := Trace(truthy, db, ops);
    TraceCorrect(truthy, db, ops);
    FeedReaches(db, trace, i);
    PathRelays(db.specs[i], db.indexes[i], path, Sends(trace));
    RewriteStreamCorrect(Seen(db.specs[i], path), db.store, Sends(trace));
  }

  // ---- Which groups there are --------------------------------------------

  /** The group for a new value is made while preparing, whatever happens next, and no
      other group ever is; a DELETE and an UPDATE that stays in its group make none. */
  lemma PrepareMakes<V(!new), S(!new)>(g: V -> V, inner: Spec<V, S>, groups: map<V, State<V, S>>, u: Update<V>)
    ensures var st := Prepare(Group(g, inner), GroupState(groups), u).state;
            && st.GroupState?
            && st.groups.Keys == groups.Keys +
                 match u
                 case AddUpdate(_, value) => {g(value)}
                 case UpdateUpdate(_, oldValue, newValue) => if g(oldValue) == g(newValue) then {} else {g(newValue)}
                 case DeleteUpdate(_, _) => {}
  {
    assert Prepare(Group(g, inner), GroupState(groups), u) == PrepareGroup(g, inner, groups, u);
    match u {
      case AddUpdate(_, value) => PrepareInKeys(inner, GetOrCreate(groups, g(value), inner), g(value), u);
      case UpdateUpdate(_, oldValue, _) => PrepareInKeys(inner, groups, g(oldValue), u);
      case DeleteUpdate(_, oldValue) => PrepareInKeys(inner, groups, g(oldValue), u);
    }
  }

  lemma PrepareInKeys<V(!new), S(!new)>(inner: Spec<V, S>, groups: map<V, State<V, S>>, key: V, u: Update<V>)
    ensures var st := PrepareIn(inner, groups, key, u).state; st.GroupState? && st.groups.Keys == groups.Keys
  {
  }

  /** Hooks make no groups. */
  lemma CommitMakesNone<V(!new), S(!new)>(g: V -> V, inner: Spec<V, S>, groups: map<V, State<V, S>>, h: Hook<V>)
    ensures var st := Commit(Group(g, inner), GroupState(groups), h).state;
            st.GroupState? && st.groups.Keys == groups.Keys
  {
    assert Commit(Group(g, inner), GroupState(groups), h) == CommitGroup(inner, groups, h);
    if h.Move? {
      RunInKeys(inner, groups, h.from, h.del);
      var r := RunIn(inner, groups, h.from, h.del);
      RunInKeys(inner, r.state.groups, h.to, h.add);
    } else if h.InGroup? {
      CommitInKeys(inner, groups, h.key, h.hook);
    }
  }

  lemma CommitInKeys<V(!new), S(!new)>(inner: Spec<V, S>, groups: map<V, State<V, S>>, key: V, h: Hook<V>)
    ensures var st := CommitIn(inner, groups, key, h).state; st.GroupState? && st.groups.Keys == groups.Keys
  {
  }

  lemma RunInKeys<V(!new), S(!new)>(inner: Spec<V, S>, groups: map<V, State<V, S>>, key: V, u: Update<V>)
    ensures RunIn(inner, groups, key, u).state.groups.Keys == groups.Keys
  {
  }

  predicate EndsInGroup<V>(path: seq<Access<V>>) {
    path != [] && path[|path| - 1].GetGroup?
  }

  lemma {:induction false} RegisterHasNoGroups<V(!new), S(!new)>(spec: Spec<V, S>, path: seq<Access<V>>)
    requires EndsInGroup(path) && Target(spec, path).Some?
    ensures Reach(spec, Trees.Register(spec), path).None?
    decreases path
  {
    match (spec, path[0]) {
      case (Premap(_, inner), GetInner) => RegisterHasNoGroups(inner, path[1..]);
      case (Zip(specs), GetChild(i)) => RegisterHasNoGroups(specs[i], path[1..]);
      case _ =>
    }
  }

  /** After updates that do not throw there is a group exactly if there was one before
      or the updates, rewritten along the path to it, leave something for it. */
  lemma {:induction false} GroupExistsIff<V(!new), S(!new)>(
    spec: Spec<V, S>, st: State<V, S>, path: seq<Access<V>>, us: seq<Update<V>>)
    requires EndsInGroup(path) && Target(spec, path).Some? && RunUpdates(spec, st, us).Done?
    ensures Reach(spec, RunUpdates(spec, st, us).state, path).Some? <==>
              Reach(spec, st, path).Some? || RewriteStream(Seen(spec, path), us) != []
    decreases path
  {
    if us != [] {
      assert SameKind(spec, st);
      match (spec, path[0]) {
        case (Premap(f, inner), GetInner) =>
          PremapRelays(f, inner, st, us);
          GroupExistsIff(inner, st.inner, path[1..], RewriteStream(f, us));
          RewriteAlong(f, inner, spec, path, us);
        case (Group(g, inner), GetGroup(k)) =>
          GroupRelays(g, inner, st, us, k);
          RewriteAlong(GroupFilter(g, k), inner, spec, path, us);
          GroupExistsBelow(g, inner, st, path, us);
        case (Zip(specs), GetChild(i)) =>
          ZipRelays(specs, st, us, i);
          GroupExistsIff(specs[i], st.children[i], path[1..], us);
          RewriteStreamExt(Seen(specs[i], path[1..]), Seen(spec, path), us);
      }
    }
  }

  lemma {:induction false} GroupExistsBelow<V(!new), S(!new)>(
    g: V -> V, inner: Spec<V, S>, st: State<V, S>, path: seq<Access<V>>, us: seq<Update<V>>)
    requires EndsInGroup(path) && path[0].GetGroup? && Target(Group(g, inner), path).Some?
    requires st.GroupState? && RunUpdates(Group(g, inner), st, us).Done?
    requires var r, k := RunUpdates(Group(g, inner), st, us).state, path[0].key;
             var part := RewriteStream(GroupFilter(g, k), us);
             && r.GroupState? && (k in r.groups <==> k in st.groups || part != [])
             && (k in r.groups ==> RunUpdates(inner, GroupBase(inner, st.groups, k), part) == Done(r.groups[k]))
             && RewriteStream(Seen(inner, path[1..]), part) == RewriteStream(Seen(Group(g, inner), path), us)
    ensures Reach(Group(g, inner), RunUpdates(Group(g, inner), st, us).state, path).Some? <==>
              Reach(Group(g, inner), st, path).Some? || RewriteStream(Seen(Group(g, inner), path), us) != []
    decreases path, 0
  {
    var k := path[0].key;
    var part := RewriteStream(GroupFilter(g, k), us);
    var r := RunUpdates(Group(g, inner), st, us).state;
    if |path| == 1 {
      RewriteStreamId(inner, part);
    } else if k in r.groups {
      GroupExistsIff(inner, GroupBase(inner, st.groups, k), path[1..], part);
      if k !in st.groups {
        RegisterHasNoGroups(inner, path[1..]);
      }
    }
  }

  /** Over a returning run, whatever the state it starts from. */
  lemma GroupsOverRuns<V(!new), S(!new)>(truthy: V -> bool, db: Db<V, S>, ops: seq<Op<V, S>>, i: nat, path: seq<Access<V>>)
    requires i < |db.specs| == |db.indexes| && Run(truthy, db, ops).Returned?
    requires EndsInGroup(path) && Target(db.specs[i], path).Some?
    ensures var db' := Run(truthy, db, ops).db;
            && i < |db'.indexes|
            && (Reach(db.specs[i], db'.indexes[i], path).Some? <==>
                  || Reach(db.specs[i], db.indexes[i], path).Some?
                  || RewriteStream(Seen(db.specs[i], path), Sends(Trace(truthy, db, ops))) != [])
  {
    var trace := Trace(truthy, db, ops);
    RunIsFeed(truthy, db, ops);
    FeedReaches(db, trace, i);
    GroupExistsIff(db.specs[i], db.indexes[i], path, Sends(trace));
  }

  /** The ADDs that registering replays. */
  function ReplayAdds<V>(store: map<Id, V>, order: seq<Id>): seq<Update<V>>
    requires forall id | id in order :: id in store
  {
    if order == [] then [] else [AddUpdate(order[0], store[order[0]])] + ReplayAdds(store, order[1..])
  }

  lemma {:induction false} ReplayIsRun<V(!new), S(!new)>(
    spec: Spec<V, S>, st: State<V, S>, store: map<Id, V>, order: seq<Id>)
    requires forall id | id in order :: id in store
    ensures Replay(spec, st, store, order) == RunUpdates(spec, st, ReplayAdds(store, order))
    decreases order
  {
    if order != [] {
      assert order[0] in order;
      var u := AddUpdate(order[0], store[order[0]]);
      assert ReplayAdds(store, order)[1..] == ReplayAdds(store, order[1..]);
      if Update1(spec, st, u).Done? {
        ReplayIsRun(spec, Update1(spec, st, u).state, store, order[1..]);
      }
    }
  }

  /** From its registration on: an index has exactly the groups for which the replayed
      ADDs and the trace since then, rewritten along the path to the group, leave
      something. */
  lemma FreshGroupsIff<V(!new), S(!new)>(
    truthy: V -> bool, db: Db<V, S>, spec: Spec<V, S>, order: seq<Id>, ops: seq<Op<V, S>>, path: seq<Access<V>>)
    requires |db.specs| == |db.indexes| && Enumerates(order, db.store.Keys)
    requires RegisterOp(db, spec, order).Returned? && Run(truthy, RegisterOp(db, spec, order).db, ops).Returned?
    requires EndsInGroup(path) && Target(spec, path).Some?
    ensures var registered := RegisterOp(db, spec, order).db;
            var db' := Run(truthy, registered, ops).db;
            var us := ReplayAdds(db.store, order) + Sends(Trace(truthy, registered, ops));
            && |db.specs| < |db'.indexes|
            && (Reach(spec, db'.indexes[|db.specs|], path).Some? <==> RewriteStream(Seen(spec, path), us) != [])
  {
    var registered := RegisterOp(db, spec, order).db;
    var adds, trace := ReplayAdds(db.store, order), Trace(truthy, registered, ops);
    ReplayIsRun(spec, Trees.Register(spec), db.store, order);
    RunIsFeed(truthy, registered, ops);
    FeedReaches(registered, trace, |db.specs|);
    RunUpdatesConcat(spec, Trees.Register(spec), adds, Sends(trace));
    GroupExistsIff(spec, Trees.Register(spec), path, adds + Sends(trace));
    RegisterHasNoGroups(spec, path);
  }
}
