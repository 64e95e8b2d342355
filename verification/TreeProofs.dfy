/** One update through a whole index tree: the two phases, exactly when each
    throws, and what the tree stands for afterwards. */
module TreeProofs {
  import opened Updates
  import opened Folds
  import opened Leaves
  import opened Trees

  /** The prepare phase throws: a unique index that is asked at once holds the key. */
  ghost predicate Refuses<V(!new), S(!new)>(spec: Spec<V, S>, m: map<Id, V>, u: Update<V>)
    decreases spec
  {
    match spec
    case Unique => UniqueRefuses(m.Values, u)
    case Premap(f, inner) =>
      FilterMapUpdate(f, u).Some? && Refuses(inner, FilterMap(f, m), FilterMapUpdate(f, u).value)
    case Group(g, inner) =>
      (match u
       case AddUpdate(_, value) => Refuses(inner, Part(g, g(value), m), u)
       case UpdateUpdate(_, oldValue, newValue) =>
         g(oldValue) == g(newValue) && Refuses(inner, Part(g, g(oldValue), m), u)
       case DeleteUpdate(_, _) => false)
    case Zip(specs) => exists i | 0 <= i < |specs| :: Refuses(specs[i], m, u)
    case _ => false
  }

  /** The commit phase throws: an item changes group and the new group refuses it. */
  ghost predicate CommitRefuses<V(!new), S(!new)>(spec: Spec<V, S>, m: map<Id, V>, u: Update<V>)
    decreases spec
  {
    match spec
    case Premap(f, inner) =>
      FilterMapUpdate(f, u).Some? && CommitRefuses(inner, FilterMap(f, m), FilterMapUpdate(f, u).value)
    case Group(g, inner) =>
      && u.UpdateUpdate?
      && (if g(u.oldValue) == g(u.newValue) then
            CommitRefuses(inner, Part(g, g(u.oldValue), m), u)
          else
            Refuses(inner, Part(g, g(u.newValue), m), AddUpdate(u.id, u.newValue)))
    case Zip(specs) => exists i | 0 <= i < |specs| :: CommitRefuses(specs[i], m, u)
    case _ => false
  }

  /** What a failed commit leaves behind: an index torn by a change of group has
      lost the item; in a fan-out the indexes before the first that refuses have
      the update, the later ones do not. */
  ghost predicate Torn<V(!new), S(!new)>(spec: Spec<V, S>, st: State<V, S>, m: map<Id, V>, u: Update<V>)
    decreases spec
  {
    match spec
    case Premap(f, inner) =>
      st.PremapState? && FilterMapUpdate(f, u).Some? && Torn(inner, st.inner, FilterMap(f, m), FilterMapUpdate(f, u).value)
    case Group(g, inner) =>
      && u.UpdateUpdate?
      && if g(u.oldValue) != g(u.newValue) then
           Represents(spec, st, m - {u.id})
         else
           && st.GroupState? && g(u.oldValue) in st.groups
           && (forall id | id in m :: g(m[id]) in st.groups)
           && (forall k | k in st.groups && k != g(u.oldValue) :: Represents(inner, st.groups[k], Part(g, k, m)))
           && Torn(inner, st.groups[g(u.oldValue)], Part(g, g(u.oldValue), m), u)
    case Zip(specs) =>
      && st.ZipState? && |st.children| == |specs|
      && exists n | 0 <= n < |specs| ::
           && FirstRefusal(specs, m, u, n)
           && Torn(specs[n], st.children[n], m, u) && SplitAt(specs, st.children, m, u, n)
    case _ => false
  }

  /** The first hook that throws is the one of index `n`. */
  ghost predicate FirstRefusal<V(!new), S(!new)>(specs: seq<Spec<V, S>>, m: map<Id, V>, u: Update<V>, n: int)
    requires 0 <= n < |specs|
    decreases specs, 0
  {
    && CommitRefuses(specs[n], m, u)
    && forall i | 0 <= i < n :: !CommitRefuses(specs[i], m, u)
  }

  ghost predicate SplitAt<V(!new), S(!new)>(
    specs: seq<Spec<V, S>>, states: seq<State<V, S>>, m: map<Id, V>, u: Update<V>, n: int)
    requires |specs| == |states|
  {
    && (forall i | 0 <= i < n && i < |specs| :: Represents(specs[i], states[i], Apply(m, u)))
    && (forall i | n < i < |specs| && 0 <= i :: Represents(specs[i], states[i], m))
  }

  /** A unique index would receive an UPDATE that keeps its key. */
  ghost predicate SelfConflict<V(!new), S(!new)>(spec: Spec<V, S>, u: Update<V>)
    decreases spec
  {
    match spec
    case Unique => u.UpdateUpdate? && u.oldValue == u.newValue
    case Premap(f, inner) =>
      FilterMapUpdate(f, u).Some? && SelfConflict(inner, FilterMapUpdate(f, u).value)
    case Group(g, inner) =>
      u.UpdateUpdate? && g(u.oldValue) == g(u.newValue) && SelfConflict(inner, u)
    case Zip(specs) => exists i | 0 <= i < |specs| :: SelfConflict(specs[i], u)
    case _ => false
  }

  // ---- Empty trees and grown trees ---------------------------------------

  lemma {:induction false} RegisterRepresents<V(!new), S(!new)>(spec: Spec<V, S>)
    ensures Represents(spec, Register(spec), map[])
    decreases spec
  {
    match spec {
      case Premap(f, inner) =>
        assert FilterMap(f, map[]) == map[];
        RegisterRepresents(inner);
      case Zip(specs) =>
        forall i | 0 <= i < |specs|
          ensures Represents(specs[i], Register(specs[i]), map[])
        {
          RegisterRepresents(specs[i]);
        }
      case Hash => assert BucketsOf<V>(map[]) == map[];
      case BTree(_) => assert BucketsOf<V>(map[]) == map[];
      case _ =>
    }
  }

  lemma GrowsRefl<V(!new), S(!new)>(spec: Spec<V, S>, st: State<V, S>)
    ensures Grows(spec, st, st)
  {
  }

  /** Adding empty groups does not change what a tree stands for. */
  lemma {:induction false} GrowsRepresents<V(!new), S(!new)>(
    spec: Spec<V, S>, a: State<V, S>, b: State<V, S>, m: map<Id, V>)
    requires Represents(spec, a, m) && Grows(spec, a, b)
    ensures Represents(spec, b, m)
    decreases spec, 0
  {
    if a != b {
      match spec {
        case Premap(f, inner) =>
          GrowsRepresents(inner, a.inner, b.inner, FilterMap(f, m));
        case Group(g, inner) =>
          forall k | k in b.groups
            ensures Represents(inner, b.groups[k], Part(g, k, m))
          {
            var ak := if k in a.groups then a.groups[k] else Register(inner);
            GrowsRepresentsIn(inner, ak, b.groups[k], Part(g, k, m), k in a.groups);
          }
        case Zip(specs) =>
          forall i | 0 <= i < |specs|
            ensures Represents(specs[i], b.children[i], m)
          {
            GrowsRepresents(specs[i], a.children[i], b.children[i], m);
          }
        case _ =>
      }
    }
  }

  lemma {:induction false} GrowsRepresentsIn<V(!new), S(!new)>(
    inner: Spec<V, S>, a: State<V, S>, b: State<V, S>, m: map<Id, V>, known: bool)
    requires Grows(inner, a, b)
    requires if known then Represents(inner, a, m) else a == Register(inner) && m.Keys == {}
    ensures Represents(inner, b, m)
    decreases inner, 1
  {
    if !known {
      assert m == map[];
      RegisterRepresents(inner);
    }
    GrowsRepresents(inner, a, b, m);
  }

  lemma {:induction false} EmptyConsistent<V(!new), S(!new)>(spec: Spec<V, S>)
    ensures Consistent(spec, map[])
    decreases spec
  {
    match spec {
      case Premap(f, inner) =>
        EmptyConsistent(inner);
        assert FilterMap(f, map[]) == map[];
      case Group(g, inner) =>
        EmptyConsistent(inner);
        assert forall k :: Part(g, k, map[]) == map[];
      case Zip(specs) =>
        forall i | 0 <= i < |specs|
          ensures Consistent(specs[i], map[])
        {
          EmptyConsistent(specs[i]);
        }
      case _ =>
    }
  }

  /** Only indexable items are ever represented. */
  lemma {:induction false} RepresentsConsistent<V(!new), S(!new)>(spec: Spec<V, S>, st: State<V, S>, m: map<Id, V>)
    requires Represents(spec, st, m)
    ensures Consistent(spec, m)
    decreases spec
  {
    match spec {
      case Premap(f, inner) => RepresentsConsistent(inner, st.inner, FilterMap(f, m));
      case Group(g, inner) =>
        forall k
          ensures Consistent(inner, Part(g, k, m))
        {
          if k in st.groups {
            RepresentsConsistent(inner, st.groups[k], Part(g, k, m));
          } else {
            EmptyConsistent(inner);
            assert Part(g, k, m) == map[];
          }
        }
      case Zip(specs) =>
        forall i | 0 <= i < |specs|
          ensures Consistent(specs[i], m)
        {
          RepresentsConsistent(specs[i], st.children[i], m);
        }
      case _ =>
    }
  }

  // ---- Fan-out over a list of indexes ------------------------------------

  /** `n` is the first answer that throws. */
  ghost predicate StopsAt<V, S>(states: seq<State<V, S>>, answers: seq<Prepared<V, S>>, r: PreparedAll<V, S>, n: nat) {
    && r.ThrewAll? && n < |answers| == |states| == |r.states|
    && answers[n] == Threw(r.states[n], r.error)
    && (forall i | 0 <= i < n :: answers[i].Ready? && answers[i].state == r.states[i])
    && (forall i | n < i < |states| :: r.states[i] == states[i])
  }

  lemma StopsLater<V, S>(states: seq<State<V, S>>, answers: seq<Prepared<V, S>>, rest: PreparedAll<V, S>, n: nat)
    requires |states| == |answers| > 0 && answers[0].Ready?
    requires StopsAt(states[1..], answers[1..], rest, n)
    ensures StopsAt(states, answers, ThrewAll([answers[0].state] + rest.states, rest.error), n + 1)
  {
  }

  lemma {:induction false} GatherPointwise<V, S>(states: seq<State<V, S>>, answers: seq<Prepared<V, S>>)
    requires |states| == |answers|
    ensures var r := Gather(states, answers);
            if r.ReadyAll? then
              && |r.hooks| == |r.states| == |answers|
              && forall i | 0 <= i < |answers| :: answers[i] == Ready(r.states[i], r.hooks[i])
            else
              exists n: nat :: StopsAt(states, answers, r, n)
    decreases answers
  {
    if answers != [] {
      var r := Gather(states, answers);
      if answers[0].Ready? {
        GatherPointwise(states[1..], answers[1..]);
        var q := Gather(states[1..], answers[1..]);
        if q.ThrewAll? {
          var n: nat :| StopsAt(states[1..], answers[1..], q, n);
          StopsLater(states, answers, q, n);
        }
      } else {
        assert StopsAt(states, answers, r, 0);
      }
    }
  }

  lemma GatherReadyIs<V(!new), S(!new)>(
    states: seq<State<V, S>>, answers: seq<Prepared<V, S>>, states': seq<State<V, S>>, hooks: seq<Hook<V>>)
    requires |states| == |answers| == |states'| == |hooks|
    requires forall i | 0 <= i < |answers| :: answers[i] == Ready(states'[i], hooks[i])
    ensures Gather(states, answers) == ReadyAll(states', hooks)
  {
    GatherPointwise(states, answers);
    var r := Gather(states, answers);
    assert r.ReadyAll?;
    assert r.states == states' && r.hooks == hooks;
  }

  lemma GatherThrowsIs<V(!new), S(!new)>(
    states: seq<State<V, S>>, answers: seq<Prepared<V, S>>, states': seq<State<V, S>>, e: Error, n: nat)
    requires |states| == |answers| && StopsAt(states, answers, ThrewAll(states', e), n)
    ensures Gather(states, answers) == ThrewAll(states', e)
  {
    GatherPointwise(states, answers);
    var r := Gather(states, answers);
    assert r.ThrewAll?;
    var k: nat :| StopsAt(states, answers, r, k);
    assert k == n;
    assert r.states == states';
  }

  ghost predicate FailsAt<V, S>(states: seq<State<V, S>>, answers: seq<Committed<V, S>>, r: CommittedAll<V, S>, n: nat) {
    && r.FailedAll? && n < |answers| == |states| == |r.states|
    && answers[n] == Failed(r.states[n], r.error)
    && (forall i | 0 <= i < n :: answers[i] == Done(r.states[i]))
    && (forall i | n < i < |states| :: r.states[i] == states[i])
  }

  lemma {:induction false} GatherCommitsPointwise<V, S>(states: seq<State<V, S>>, answers: seq<Committed<V, S>>)
    requires |states| == |answers|
    ensures var r := GatherCommits(states, answers);
            if r.DoneAll? then
              && |r.states| == |answers|
              && forall i | 0 <= i < |answers| :: answers[i] == Done(r.states[i])
            else
              exists n: nat :: FailsAt(states, answers, r, n)
    decreases answers
  {
    if answers != [] {
      var r := GatherCommits(states, answers);
      if answers[0].Done? {
        GatherCommitsPointwise(states[1..], answers[1..]);
        var q := GatherCommits(states[1..], answers[1..]);
        if q.FailedAll? {
          var n: nat :| FailsAt(states[1..], answers[1..], q, n);
          assert FailsAt(states, answers, r, n + 1);
        }
      } else {
        assert FailsAt(states, answers, r, 0);
      }
    }
  }

  lemma GatherDoneIs<V(!new), S(!new)>(
    states: seq<State<V, S>>, answers: seq<Committed<V, S>>, states': seq<State<V, S>>)
    requires |states| == |answers| == |states'|
    requires forall i | 0 <= i < |answers| :: answers[i] == Done(states'[i])
    ensures GatherCommits(states, answers) == DoneAll(states')
  {
    GatherCommitsPointwise(states, answers);
    var r := GatherCommits(states, answers);
    assert r.DoneAll?;
    assert r.states == states';
  }

  lemma GatherFailsIs<V(!new), S(!new)>(
    states: seq<State<V, S>>, answers: seq<Committed<V, S>>, states': seq<State<V, S>>, e: Error, n: nat)
    requires |states| == |answers| && FailsAt(states, answers, FailedAll(states', e), n)
    ensures GatherCommits(states, answers) == FailedAll(states', e)
  {
    GatherCommitsPointwise(states, answers);
    var r := GatherCommits(states, answers);
    assert r.FailedAll?;
    var k: nat :| FailsAt(states, answers, r, k);
    assert k == n;
    assert r.states == states';
  }

  // ---- One update, both phases -------------------------------------------

  /** What one update does to a tree that represents `m`. Preparing only adds
      empty groups and throws exactly when the tree `Refuses`; committing throws
      exactly when it `CommitRefuses`, and otherwise represents the updated
      items. Neither phase meets an absent bucket or group. */
  ghost predicate Behaves<V(!new), S(!new)>(spec: Spec<V, S>, st: State<V, S>, m: map<Id, V>, u: Update<V>) {
    var p := Prepare(spec, st, u);
    && Grows(spec, st, p.state)
    && (p.Threw? <==> Refuses(spec, m, u))
    && (p.Threw? ==> p.error == Conflict)
    && (p.Ready? ==> Commits(spec, p.state, p.hook, m, u))
  }

  ghost predicate Commits<V(!new), S(!new)>(
    spec: Spec<V, S>, st: State<V, S>, h: Hook<V>, m: map<Id, V>, u: Update<V>)
  {
    Ends(spec, Commit(spec, st, h), m, u)
  }

  ghost predicate Ends<V(!new), S(!new)>(spec: Spec<V, S>, c: Committed<V, S>, m: map<Id, V>, u: Update<V>) {
    && (c.Failed? <==> CommitRefuses(spec, m, u))
    && (c.Failed? ==> c.error == Conflict && Torn(spec, c.state, m, u))
    && (c.Done? ==> Represents(spec, c.state, Apply(m, u)))
  }

  lemma LeafBehaves<V(!new), S(!new)>(spec: Spec<V, S>, st: State<V, S>, m: map<Id, V>, u: Update<V>)
    requires spec.Hash? || spec.Unique? || spec.BTree? || spec.Fold?
    requires LawfulTree(spec) && Represents(spec, st, m) && Legal(m, u)
    ensures Behaves(spec, st, m, u)
  {
    match spec {
      case Unique =>
        InverseKeys(st.owners, m);
        if !UniqueRefuses(st.owners.Keys, u) {
          UniqueCommitCorrect(st.owners, m, u);
        }
      case Fold(ops) => FoldStepCorrect(ops, m, u);
      case _ => BucketCommitCorrect(m, u);
    }
  }

  lemma PremapCommits<V(!new), S(!new)>(
    f: V -> Option<V>, inner: Spec<V, S>, st: State<V, S>, h: Hook<V>, m: map<Id, V>, u: Update<V>)
    requires Legal(m, u) && FilterMapUpdate(f, u).Some?
    requires Commits(inner, st, h, FilterMap(f, m), FilterMapUpdate(f, u).value)
    ensures Commits(Premap(f, inner), PremapState(st), Inner(h), m, u)
  {
    FilterMapSquare(f, m, u);
    var c := Commit(inner, st, h);
    assert Commit(Premap(f, inner), PremapState(st), Inner(h)) == CommitPremap(inner, st, Inner(h));
  }

  lemma PremapBehaves<V(!new), S(!new)>(
    f: V -> Option<V>, inner: Spec<V, S>, st: State<V, S>, m: map<Id, V>, u: Update<V>)
    requires Represents(Premap(f, inner), st, m) && Legal(m, u)
    requires FilterMapUpdate(f, u).Some? ==> Behaves(inner, st.inner, FilterMap(f, m), FilterMapUpdate(f, u).value)
    ensures Behaves(Premap(f, inner), st, m, u)
  {
    match FilterMapUpdate(f, u) {
      case None => FilterMapSquare(f, m, u);
      case Some(w) =>
        var p := Prepare(inner, st.inner, w);
        if p.Ready? {
          PremapCommits(f, inner, p.state, p.hook, m, u);
        }
    }
  }

  /** Only an UPDATE can throw while committing, and a DELETE never throws. */
  lemma {:induction false} AddDeleteCommit<V(!new), S(!new)>(spec: Spec<V, S>, m: map<Id, V>, u: Update<V>)
    requires !u.UpdateUpdate?
    ensures !CommitRefuses(spec, m, u)
    ensures u.DeleteUpdate? ==> !Refuses(spec, m, u)
    decreases spec
  {
    match spec {
      case Premap(f, inner) =>
        match FilterMapUpdate(f, u) {
          case None =>
          case Some(w) => AddDeleteCommit(inner, FilterMap(f, m), w);
        }
      case Zip(specs) =>
        forall i | 0 <= i < |specs|
          ensures !CommitRefuses(specs[i], m, u)
          ensures u.DeleteUpdate? ==> !Refuses(specs[i], m, u)
        {
          AddDeleteCommit(specs[i], m, u);
        }
      case _ =>
    }
  }

  // ---- Groups ------------------------------------------------------------

  /** The update stays inside group `key`. */
  predicate Within<V(==)>(g: V -> V, key: V, u: Update<V>) {
    match u
    case AddUpdate(_, value) => g(value) == key
    case UpdateUpdate(_, oldValue, newValue) => g(oldValue) == key && g(newValue) == key
    case DeleteUpdate(_, oldValue) => g(oldValue) == key
  }

  lemma PartWithin<V(!new)>(g: V -> V, key: V, m: map<Id, V>, u: Update<V>)
    requires Legal(m, u) && Within(g, key, u)
    ensures Legal(Part(g, key, m), u)
    ensures Part(g, key, Apply(m, u)) == Apply(Part(g, key, m), u)
    ensures forall k | k != key :: Part(g, k, Apply(m, u)) == Part(g, k, m)
  {
  }

  /** A change of group is a DELETE for the old group and an ADD for the new. */
  lemma PartMove<V(!new)>(g: V -> V, m: map<Id, V>, u: Update<V>)
    requires Legal(m, u) && u.UpdateUpdate? && g(u.oldValue) != g(u.newValue)
    ensures var from, to := g(u.oldValue), g(u.newValue);
            var del, add := DeleteUpdate(u.id, u.oldValue), AddUpdate(u.id, u.newValue);
            && Legal(Part(g, from, m), del) && Part(g, from, Apply(m, u)) == Apply(Part(g, from, m), del)
            && Legal(Part(g, to, m), add) && Part(g, to, Apply(m, u)) == Apply(Part(g, to, m), add)
    ensures forall k | k != g(u.oldValue) && k != g(u.newValue) :: Part(g, k, Apply(m, u)) == Part(g, k, m)
  {
    FilterMapSquare(GroupFilter(g, g(u.oldValue)), m, u);
    FilterMapSquare(GroupFilter(g, g(u.newValue)), m, u);
    forall k | k != g(u.oldValue) && k != g(u.newValue)
      ensures Part(g, k, Apply(m, u)) == Part(g, k, m)
    {
      FilterMapSquare(GroupFilter(g, k), m, u);
    }
  }

  lemma WithinKeys<V(!new)>(g: V -> V, key: V, m: map<Id, V>, u: Update<V>, keys: set<V>)
    requires Legal(m, u) && Within(g, key, u) && key in keys
    requires forall id | id in m :: g(m[id]) in keys
    ensures forall id | id in Apply(m, u) :: g(Apply(m, u)[id]) in keys
  {
  }

  /** Replacing one group by its updated index. */
  lemma GroupRepresentsIn<V(!new), S(!new)>(
    g: V -> V, inner: Spec<V, S>, groups: map<V, State<V, S>>, key: V, st: State<V, S>, m: map<Id, V>, u: Update<V>)
    requires Represents(Group(g, inner), GroupState(groups), m)
    requires Legal(m, u) && key in groups && Within(g, key, u)
    requires Represents(inner, st, Apply(Part(g, key, m), u))
    ensures Represents(Group(g, inner), GroupState(groups[key := st]), Apply(m, u))
  {
    PartWithin(g, key, m, u);
    WithinKeys(g, key, m, u, groups.Keys);
    var m' := Apply(m, u);
    forall k | k in groups[key := st]
      ensures Represents(inner, groups[key := st][k], Part(g, k, m'))
    {
    }
  }

  /** The whole group index after one group's index has ended as `c`. */
  ghost function InOneGroup<V(!new), S(!new)>(groups: map<V, State<V, S>>, key: V, c: Committed<V, S>): Committed<V, S> {
    match c
    case Done(st) => Done(GroupState(groups[key := st]))
    case Failed(st, e) => Failed(GroupState(groups[key := st]), e)
  }

  lemma CommitInIs<V(!new), S(!new)>(
    inner: Spec<V, S>, groups: map<V, State<V, S>>, key: V, hook: Hook<V>, c: Committed<V, S>)
    requires key in groups && c == Trees.Commit(inner, groups[key], hook)
    ensures CommitIn(inner, groups, key, hook) == InOneGroup(groups, key, c)
  {
  }

  lemma GroupEndsIn<V(!new), S(!new)>(
    g: V -> V, inner: Spec<V, S>, groups: map<V, State<V, S>>, key: V, m: map<Id, V>, u: Update<V>, c: Committed<V, S>)
    requires Represents(Group(g, inner), GroupState(groups), m)
    requires Legal(m, u) && key in groups && Within(g, key, u)
    requires Ends(inner, c, Part(g, key, m), u)
    ensures Ends(Group(g, inner), InOneGroup(groups, key, c), m, u)
  {
    if c.Done? {
      GroupRepresentsIn(g, inner, groups, key, c.state, m, u);
    }
    if !u.UpdateUpdate? {
      AddDeleteCommit(inner, Part(g, key, m), u);
    }
  }

  lemma CommitInGroupIs<V(!new), S(!new)>(g: V -> V, inner: Spec<V, S>, groups: map<V, State<V, S>>, key: V, h: Hook<V>)
    requires key in groups
    ensures Commit(Group(g, inner), GroupState(groups), InGroup(key, h)) ==
              InOneGroup(groups, key, Commit(inner, groups[key], h))
  {
    CommitInIs(inner, groups, key, h, Commit(inner, groups[key], h));
    assert Commit(Group(g, inner), GroupState(groups), InGroup(key, h)) ==
             CommitGroup(inner, groups, InGroup(key, h)) == CommitIn(inner, groups, key, h);
  }

  lemma GroupCommitsIn<V(!new), S(!new)>(
    g: V -> V, inner: Spec<V, S>, groups: map<V, State<V, S>>, key: V, h: Hook<V>, m: map<Id, V>, u: Update<V>)
    requires Represents(Group(g, inner), GroupState(groups), m)
    requires Legal(m, u) && key in groups && Within(g, key, u)
    requires Commits(inner, groups[key], h, Part(g, key, m), u)
    ensures Commits(Group(g, inner), GroupState(groups), InGroup(key, h), m, u)
  {
    CommitInGroupIs(g, inner, groups, key, h);
    GroupEndsIn(g, inner, groups, key, m, u, Commit(inner, groups[key], h));
  }

  lemma GroupGrowsIn<V(!new), S(!new)>(
    g: V -> V, inner: Spec<V, S>, st: State<V, S>, key: V, kst: State<V, S>)
    requires st.GroupState?
    requires Grows(inner, GetOrCreate(st.groups, key, inner)[key], kst)
    ensures Grows(Group(g, inner), st, GroupState(st.groups[key := kst]))
  {
    forall k | k in st.groups && k != key
      ensures Grows(inner, st.groups[k], st.groups[k])
    {
      GrowsRefl(inner, st.groups[k]);
    }
  }

  lemma GroupPreparesIn<V(!new), S(!new)>(
    g: V -> V, inner: Spec<V, S>, st: State<V, S>, key: V, u: Update<V>)
    requires st.GroupState? && Within(g, key, u)
    requires u.AddUpdate? || key in st.groups
    requires Grows(inner, GetOrCreate(st.groups, key, inner)[key], Prepare(inner, GetOrCreate(st.groups, key, inner)[key], u).state)
    ensures var q := Prepare(inner, GetOrCreate(st.groups, key, inner)[key], u);
            var groups := st.groups[key := q.state];
            && Prepare(Group(g, inner), st, u) ==
                 (match q
                  case Ready(_, h) => Ready(GroupState(groups), InGroup(key, h))
                  case Threw(_, e) => Threw(GroupState(groups), e))
            && Grows(Group(g, inner), st, GroupState(groups))
  {
    var groups := GetOrCreate(st.groups, key, inner);
    var q := Prepare(inner, groups[key], u);
    assert Prepare(Group(g, inner), st, u) == PrepareGroup(g, inner, st.groups, u) == PrepareIn(inner, groups, key, u);
    assert groups[key := q.state] == st.groups[key := q.state];
    GroupGrowsIn(g, inner, st, key, q.state);
  }

  /** An update inside one group is that group's update. */
  lemma GroupBehavesIn<V(!new), S(!new)>(
    g: V -> V, inner: Spec<V, S>, st: State<V, S>, key: V, m: map<Id, V>, u: Update<V>)
    requires Represents(Group(g, inner), st, m)
    requires Legal(m, u) && Within(g, key, u)
    requires u.AddUpdate? || key in st.groups
    requires Behaves(inner, GetOrCreate(st.groups, key, inner)[key], Part(g, key, m), u)
    ensures Behaves(Group(g, inner), st, m, u)
  {
    var q := Prepare(inner, GetOrCreate(st.groups, key, inner)[key], u);
    GroupPreparesIn(g, inner, st, key, u);
    if u.DeleteUpdate? {
      AddDeleteCommit(inner, Part(g, key, m), u);
    }
    if q.Ready? {
      GrowsRepresents(Group(g, inner), st, GroupState(st.groups[key := q.state]), m);
      GroupCommitsIn(g, inner, st.groups[key := q.state], key, q.hook, m, u);
    }
  }

  /** An ADD or DELETE prepared and committed in one go. */
  ghost predicate Runs<V(!new), S(!new)>(spec: Spec<V, S>, st: State<V, S>, m: map<Id, V>, u: Update<V>) {
    var r := Update1(spec, st, u);
    && (r.Failed? <==> Refuses(spec, m, u))
    && (r.Failed? ==> r.error == Conflict && Grows(spec, st, r.state))
    && (r.Done? ==> Represents(spec, r.state, Apply(m, u)))
  }

  lemma AddDeleteRuns<V(!new), S(!new)>(spec: Spec<V, S>, st: State<V, S>, m: map<Id, V>, u: Update<V>)
    requires !u.UpdateUpdate? && Behaves(spec, st, m, u)
    ensures Runs(spec, st, m, u)
  {
    AddDeleteCommit(spec, m, u);
    var p := Prepare(spec, st, u);
    if p.Ready? {
      assert Commits(spec, p.state, p.hook, m, u);
    }
  }

  lemma RunInIs<V(!new), S(!new)>(
    inner: Spec<V, S>, groups: map<V, State<V, S>>, key: V, u: Update<V>, c: Committed<V, S>)
    requires key in groups && c == Update1(inner, groups[key], u)
    ensures RunIn(inner, groups, key, u) == InOneGroup(groups, key, c)
  {
  }

  ghost predicate RunsIn<V(!new), S(!new)>(
    g: V -> V, inner: Spec<V, S>, groups: map<V, State<V, S>>, key: V, m: map<Id, V>, u: Update<V>)
  {
    RanIn(g, inner, groups, key, m, u, RunIn(inner, groups, key, u))
  }

  ghost predicate RanIn<V(!new), S(!new)>(
    g: V -> V, inner: Spec<V, S>, groups: map<V, State<V, S>>, key: V, m: map<Id, V>, u: Update<V>, r: Committed<V, S>)
  {
    && (r.Failed? <==> Refuses(inner, Part(g, key, m), u))
    && (r.Failed? ==> r.error == Conflict && Represents(Group(g, inner), r.state, m))
    && (r.Done? ==>
          && Represents(Group(g, inner), r.state, Apply(m, u))
          && r.state.groups.Keys == groups.Keys
          && forall k | k in groups && k != key :: r.state.groups[k] == groups[k])
  }

  lemma GroupRanIn<V(!new), S(!new)>(
    g: V -> V, inner: Spec<V, S>, groups: map<V, State<V, S>>, key: V, m: map<Id, V>, u: Update<V>, c: Committed<V, S>)
    requires Represents(Group(g, inner), GroupState(groups), m)
    requires Legal(m, u) && key in groups && Within(g, key, u)
    requires c.Failed? <==> Refuses(inner, Part(g, key, m), u)
    requires c.Failed? ==> c.error == Conflict && Grows(inner, groups[key], c.state)
    requires c.Done? ==> Represents(inner, c.state, Apply(Part(g, key, m), u))
    ensures RanIn(g, inner, groups, key, m, u, InOneGroup(groups, key, c))
  {
    if c.Done? {
      GroupRepresentsIn(g, inner, groups, key, c.state, m, u);
    } else {
      GroupGrowsIn(g, inner, GroupState(groups), key, c.state);
      GrowsRepresents(Group(g, inner), GroupState(groups), GroupState(groups[key := c.state]), m);
    }
  }

  lemma GroupRunsIn<V(!new), S(!new)>(
    g: V -> V, inner: Spec<V, S>, groups: map<V, State<V, S>>, key: V, m: map<Id, V>, u: Update<V>)
    requires Represents(Group(g, inner), GroupState(groups), m)
    requires Legal(m, u) && key in groups && Within(g, key, u)
    requires Runs(inner, groups[key], Part(g, key, m), u)
    ensures RunsIn(g, inner, groups, key, m, u)
  {
    var c := Update1(inner, groups[key], u);
    RunInIs(inner, groups, key, u, c);
    GroupRanIn(g, inner, groups, key, m, u, c);
  }

  lemma MoveCommitIs<V(!new), S(!new)>(
    g: V -> V, inner: Spec<V, S>, groups: map<V, State<V, S>>, from: V, to: V, del: Update<V>, add: Update<V>,
    half: map<V, State<V, S>>)
    requires RunIn(inner, groups, from, del) == Done(GroupState(half))
    ensures Commit(Group(g, inner), GroupState(groups), Move(from, to, del, add)) == RunIn(inner, half, to, add)
  {
  }

  lemma MoveMaps<V(!new)>(g: V -> V, m: map<Id, V>, u: Update<V>)
    requires Legal(m, u) && u.UpdateUpdate? && g(u.oldValue) != g(u.newValue)
    ensures Apply(m - {u.id}, AddUpdate(u.id, u.newValue)) == Apply(m, u)
    ensures Part(g, g(u.newValue), m - {u.id}) == Part(g, g(u.newValue), m)
  {
  }

  lemma MoveEnds<V(!new), S(!new)>(
    g: V -> V, inner: Spec<V, S>, r: Committed<V, S>, m: map<Id, V>, u: Update<V>, rest: map<Id, V>)
    requires u.UpdateUpdate? && g(u.oldValue) != g(u.newValue)
    requires rest == m - {u.id} && Apply(rest, AddUpdate(u.id, u.newValue)) == Apply(m, u)
    requires Part(g, g(u.newValue), rest) == Part(g, g(u.newValue), m)
    requires && (r.Failed? <==> Refuses(inner, Part(g, g(u.newValue), rest), AddUpdate(u.id, u.newValue)))
             && (r.Failed? ==> r.error == Conflict && Represents(Group(g, inner), r.state, rest))
             && (r.Done? ==> Represents(Group(g, inner), r.state, Apply(rest, AddUpdate(u.id, u.newValue))))
    ensures Ends(Group(g, inner), r, m, u)
  {
  }

  lemma MoveCommits<V(!new), S(!new)>(
    g: V -> V, inner: Spec<V, S>, groups: map<V, State<V, S>>, m: map<Id, V>, u: Update<V>,
    half: map<V, State<V, S>>)
    requires Legal(m, u) && u.UpdateUpdate? && g(u.oldValue) != g(u.newValue)
    requires RunIn(inner, groups, g(u.oldValue), DeleteUpdate(u.id, u.oldValue)) == Done(GroupState(half))
    requires RunsIn(g, inner, half, g(u.newValue), m - {u.id}, AddUpdate(u.id, u.newValue))
    ensures Commits(Group(g, inner), GroupState(groups),
                    Move(g(u.oldValue), g(u.newValue), DeleteUpdate(u.id, u.oldValue), AddUpdate(u.id, u.newValue)), m, u)
  {
    var from, to := g(u.oldValue), g(u.newValue);
    var del, add := DeleteUpdate(u.id, u.oldValue), AddUpdate(u.id, u.newValue);
    MoveCommitIs(g, inner, groups, from, to, del, add, half);
    MoveMaps(g, m, u);
    MoveEnds(g, inner, RunIn(inner, half, to, add), m, u, m - {u.id});
  }

  lemma MoveRuns<V(!new), S(!new)>(
    g: V -> V, inner: Spec<V, S>, groups: map<V, State<V, S>>, m: map<Id, V>, u: Update<V>)
    returns (half: map<V, State<V, S>>)
    requires Represents(Group(g, inner), GroupState(groups), m)
    requires Legal(m, u) && u.UpdateUpdate? && g(u.oldValue) != g(u.newValue)
    requires g(u.oldValue) in groups && g(u.newValue) in groups
    requires Runs(inner, groups[g(u.oldValue)], Part(g, g(u.oldValue), m), DeleteUpdate(u.id, u.oldValue))
    requires Runs(inner, groups[g(u.newValue)], Part(g, g(u.newValue), m), AddUpdate(u.id, u.newValue))
    ensures RunIn(inner, groups, g(u.oldValue), DeleteUpdate(u.id, u.oldValue)) == Done(GroupState(half))
    ensures RunsIn(g, inner, half, g(u.newValue), m - {u.id}, AddUpdate(u.id, u.newValue))
  {
    var from, to := g(u.oldValue), g(u.newValue);
    var del, add := DeleteUpdate(u.id, u.oldValue), AddUpdate(u.id, u.newValue);
    AddDeleteCommit(inner, Part(g, from, m), del);
    GroupRunsIn(g, inner, groups, from, m, del);
    half := RunIn(inner, groups, from, del).state.groups;
    PartWithin(g, from, m, del);
    GroupRunsIn(g, inner, half, to, m - {u.id}, add);
  }

  lemma MovePrepares<V(!new), S(!new)>(g: V -> V, inner: Spec<V, S>, st: State<V, S>, u: Update<V>)
    requires st.GroupState? && u.UpdateUpdate? && g(u.oldValue) != g(u.newValue)
    ensures var groups := GetOrCreate(st.groups, g(u.newValue), inner);
            && Prepare(Group(g, inner), st, u) ==
                 Ready(GroupState(groups),
                       Move(g(u.oldValue), g(u.newValue), DeleteUpdate(u.id, u.oldValue), AddUpdate(u.id, u.newValue)))
            && Grows(Group(g, inner), st, GroupState(groups))
  {
  }

  /** A change of group throws, if at all, with the item out of its old group
      and not in its new one. */
  lemma MoveBehaves<V(!new), S(!new)>(
    g: V -> V, inner: Spec<V, S>, st: State<V, S>, m: map<Id, V>, u: Update<V>)
    requires Represents(Group(g, inner), st, m)
    requires Legal(m, u) && u.UpdateUpdate? && g(u.oldValue) != g(u.newValue)
    requires var from, to := g(u.oldValue), g(u.newValue);
             var groups := GetOrCreate(st.groups, to, inner);
             && from in groups
             && Runs(inner, groups[from], Part(g, from, m), DeleteUpdate(u.id, u.oldValue))
             && Runs(inner, groups[to], Part(g, to, m), AddUpdate(u.id, u.newValue))
    ensures Behaves(Group(g, inner), st, m, u)
  {
    var groups := GetOrCreate(st.groups, g(u.newValue), inner);
    MovePrepares(g, inner, st, u);
    GrowsRepresents(Group(g, inner), st, GroupState(groups), m);
    var half := MoveRuns(g, inner, groups, m, u);
    MoveCommits(g, inner, groups, m, u, half);
  }

  // ---- Zip ---------------------------------------------------------------

  /** `propagateUpdate` and `ZipIndex._onUpdate`: the two loops over a list of
      indexes that all represent `m`. */
  ghost predicate BehavesAll<V(!new), S(!new)>(
    specs: seq<Spec<V, S>>, states: seq<State<V, S>>, m: map<Id, V>, u: Update<V>)
    requires |specs| == |states|
  {
    var p := PrepareAll(specs, states, u);
    && |p.states| == |specs|
    && (forall i | 0 <= i < |specs| :: Grows(specs[i], states[i], p.states[i]))
    && (p.ThrewAll? <==> exists i | 0 <= i < |specs| :: Refuses(specs[i], m, u))
    && (p.ThrewAll? ==> p.error == Conflict)
    && (p.ReadyAll? ==> |p.hooks| == |specs| && CommitsAll(specs, p.states, p.hooks, m, u))
  }

  ghost predicate CommitsAll<V(!new), S(!new)>(
    specs: seq<Spec<V, S>>, states: seq<State<V, S>>, hooks: seq<Hook<V>>, m: map<Id, V>, u: Update<V>)
    requires |specs| == |states| == |hooks|
  {
    var c := CommitAll(specs, states, hooks);
    && |c.states| == |specs|
    && (c.FailedAll? <==> exists i | 0 <= i < |specs| :: CommitRefuses(specs[i], m, u))
    && (c.FailedAll? ==> c.error == Conflict && Torn(Zip(specs), ZipState(c.states), m, u))
    && (c.DoneAll? ==> RepresentsAll(specs, c.states, Apply(m, u)))
  }

  lemma ListCommits<V(!new), S(!new)>(
    specs: seq<Spec<V, S>>, states: seq<State<V, S>>, hooks: seq<Hook<V>>, m: map<Id, V>, u: Update<V>)
    requires |specs| == |states| == |hooks|
    requires forall i | 0 <= i < |specs| :: Represents(specs[i], states[i], m)
    requires forall i | 0 <= i < |specs| :: Commits(specs[i], states[i], hooks[i], m, u)
    ensures CommitsAll(specs, states, hooks, m, u)
  {
    var answers := CommitAnswers(specs, states, hooks);
    GatherCommitsPointwise(states, answers);
    var c := CommitAll(specs, states, hooks);
    assert c == GatherCommits(states, answers);
    if c.FailedAll? {
      var n: nat :| FailsAt(states, answers, c, n);
      assert answers[n] == Commit(specs[n], states[n], hooks[n]);
      assert CommitRefuses(specs[n], m, u) && Torn(specs[n], c.states[n], m, u);
      forall i | 0 <= i < n
        ensures !CommitRefuses(specs[i], m, u) && Represents(specs[i], c.states[i], Apply(m, u))
      {
        assert answers[i] == Commit(specs[i], states[i], hooks[i]);
      }
      assert FirstRefusal(specs, m, u, n) && SplitAt(specs, c.states, m, u, n);
    } else {
      forall i | 0 <= i < |specs|
        ensures !CommitRefuses(specs[i], m, u) && Represents(specs[i], c.states[i], Apply(m, u))
      {
        assert answers[i] == Commit(specs[i], states[i], hooks[i]);
      }
    }
  }

  lemma ListThrows<V(!new), S(!new)>(
    specs: seq<Spec<V, S>>, states: seq<State<V, S>>, m: map<Id, V>, u: Update<V>)
    requires |specs| == |states|
    requires PrepareAll(specs, states, u).ThrewAll?
    requires forall i | 0 <= i < |specs| :: Behaves(specs[i], states[i], m, u)
    ensures BehavesAll(specs, states, m, u)
  {
    var answers := PrepareAnswers(specs, states, u);
    GatherPointwise(states, answers);
    var p := PrepareAll(specs, states, u);
    assert p == Gather(states, answers);
    var n: nat :| StopsAt(states, answers, p, n);
    assert answers[n] == Prepare(specs[n], states[n], u);
    assert Refuses(specs[n], m, u);
    forall i | 0 <= i < |specs|
      ensures Grows(specs[i], states[i], p.states[i])
    {
      if i > n {
        GrowsRefl(specs[i], states[i]);
      } else {
        assert answers[i] == Prepare(specs[i], states[i], u);
      }
    }
  }

  lemma ListReady<V(!new), S(!new)>(
    specs: seq<Spec<V, S>>, states: seq<State<V, S>>, m: map<Id, V>, u: Update<V>)
    requires RepresentsAll(specs, states, m)
    requires PrepareAll(specs, states, u).ReadyAll?
    requires forall i | 0 <= i < |specs| :: Behaves(specs[i], states[i], m, u)
    ensures BehavesAll(specs, states, m, u)
  {
    var answers := PrepareAnswers(specs, states, u);
    GatherPointwise(states, answers);
    var p := PrepareAll(specs, states, u);
    assert p == Gather(states, answers);
    forall i | 0 <= i < |specs|
      ensures !Refuses(specs[i], m, u) && Grows(specs[i], states[i], p.states[i])
      ensures Represents(specs[i], p.states[i], m) && Commits(specs[i], p.states[i], p.hooks[i], m, u)
    {
      assert answers[i] == Prepare(specs[i], states[i], u);
      GrowsRepresents(specs[i], states[i], p.states[i], m);
    }
    ListCommits(specs, p.states, p.hooks, m, u);
  }

  lemma ZipBehaves<V(!new), S(!new)>(specs: seq<Spec<V, S>>, st: State<V, S>, m: map<Id, V>, u: Update<V>)
    requires Represents(Zip(specs), st, m)
    requires BehavesAll(specs, st.children, m, u)
    ensures Behaves(Zip(specs), st, m, u)
  {
    var p := Prepare(Zip(specs), st, u);
    assert p == PrepareZip(specs, st.children, u);
    if p.Ready? {
      assert Commit(Zip(specs), p.state, p.hook) == CommitZip(specs, p.state.children, p.hook.hooks);
    }
  }

  // ---- The tree theorem --------------------------------------------------

  /** Every tree of combinators over lawful leaves behaves. */
  lemma {:induction false} UpdateCorrect<V(!new), S(!new)>(spec: Spec<V, S>, st: State<V, S>, m: map<Id, V>, u: Update<V>)
    requires LawfulTree(spec) && Represents(spec, st, m) && Legal(m, u)
    ensures Behaves(spec, st, m, u)
    decreases spec, 0
  {
    match spec {
      case Premap(f, inner) =>
        FilterMapSquare(f, m, u);
        if FilterMapUpdate(f, u).Some? {
          UpdateCorrect(inner, st.inner, FilterMap(f, m), FilterMapUpdate(f, u).value);
        }
        PremapBehaves(f, inner, st, m, u);
      case Group(g, inner) =>
        GroupUpdateCorrect(g, inner, st, m, u);
      case Zip(specs) =>
        forall i | 0 <= i < |specs|
          ensures Behaves(specs[i], st.children[i], m, u)
        {
          UpdateCorrect(specs[i], st.children[i], m, u);
        }
        if PrepareAll(specs, st.children, u).ReadyAll? {
          ListReady(specs, st.children, m, u);
        } else {
          ListThrows(specs, st.children, m, u);
        }
        ZipBehaves(specs, st, m, u);
      case _ => LeafBehaves(spec, st, m, u);
    }
  }

  lemma {:induction false} GroupUpdateCorrect<V(!new), S(!new)>(
    g: V -> V, inner: Spec<V, S>, st: State<V, S>, m: map<Id, V>, u: Update<V>)
    requires LawfulTree(inner) && Represents(Group(g, inner), st, m) && Legal(m, u)
    ensures Behaves(Group(g, inner), st, m, u)
    decreases inner, 4
  {
    if u.UpdateUpdate? && g(u.oldValue) != g(u.newValue) {
      KeyMoveCorrect(g, inner, st, m, u);
      MoveBehaves(g, inner, st, m, u);
    } else {
      var key := g(if u.AddUpdate? then u.value else u.oldValue);
      PartWithin(g, key, m, u);
      KeyUpdateCorrect(g, inner, st, key, m, u);
      GroupBehavesIn(g, inner, st, key, m, u);
    }
  }

  lemma {:induction false} KeyMoveCorrect<V(!new), S(!new)>(
    g: V -> V, inner: Spec<V, S>, st: State<V, S>, m: map<Id, V>, u: Update<V>)
    requires LawfulTree(inner) && Represents(Group(g, inner), st, m) && Legal(m, u)
    requires u.UpdateUpdate? && g(u.oldValue) != g(u.newValue)
    ensures var from, to := g(u.oldValue), g(u.newValue);
            var groups := GetOrCreate(st.groups, to, inner);
            && from in groups
            && Runs(inner, groups[from], Part(g, from, m), DeleteUpdate(u.id, u.oldValue))
            && Runs(inner, groups[to], Part(g, to, m), AddUpdate(u.id, u.newValue))
    decreases inner, 3
  {
    PartMove(g, m, u);
    KeyRuns(g, inner, st, g(u.oldValue), m, DeleteUpdate(u.id, u.oldValue));
    KeyRuns(g, inner, st, g(u.newValue), m, AddUpdate(u.id, u.newValue));
    assert g(m[u.id]) in st.groups;
  }

  lemma {:induction false} KeyRuns<V(!new), S(!new)>(
    g: V -> V, inner: Spec<V, S>, st: State<V, S>, key: V, m: map<Id, V>, u: Update<V>)
    requires LawfulTree(inner) && Represents(Group(g, inner), st, m)
    requires !u.UpdateUpdate? && Legal(Part(g, key, m), u)
    ensures Runs(inner, GetOrCreate(st.groups, key, inner)[key], Part(g, key, m), u)
    decreases inner, 2
  {
    KeyUpdateCorrect(g, inner, st, key, m, u);
    AddDeleteRuns(inner, GetOrCreate(st.groups, key, inner)[key], Part(g, key, m), u);
  }

  lemma {:induction false} KeyUpdateCorrect<V(!new), S(!new)>(
    g: V -> V, inner: Spec<V, S>, st: State<V, S>, key: V, m: map<Id, V>, u: Update<V>)
    requires LawfulTree(inner) && Represents(Group(g, inner), st, m) && Legal(Part(g, key, m), u)
    ensures Behaves(inner, GetOrCreate(st.groups, key, inner)[key], Part(g, key, m), u)
    decreases inner, 1
  {
    if key !in st.groups {
      assert Part(g, key, m) == map[];
      RegisterRepresents(inner);
    }
    UpdateCorrect(inner, GetOrCreate(st.groups, key, inner)[key], Part(g, key, m), u);
  }
}
