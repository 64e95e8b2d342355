/** Index objects on the heap (core/src/core/Index.ts, core/src/indexes/ZipIndex.ts).

    `Index` stands for the abstract class; its `kind` says which subclass the
    object is, and dispatch is a match on it. Only leaves and `GroupedIndex` hold
    fields that change. The methods are proved against `Prepare` and `Commit`. */
module Indexes {
  import opened Updates
  import opened Trees
  import opened TreeProofs
  import opened HashIndexes
  import opened SmallIndexes
  import opened BTreeIndexes

  datatype Kind<!V(==, !new), !S(!new)> =
    | HashKind(hash: HashIndex<V>)
    | UniqueKind(unique: UniqueHashIndex<V>)
    | BTreeKind(btree: BTreeIndex<V>)
    | FoldKind(fold: FoldIndex<V, S>)
    | PremapKind(f: V -> Option<V>, inner: Index<V, S>)
    | GroupKind(grouped: GroupedIndex<V, S>)
    | ZipKind(children: seq<Index<V, S>>)

  /** What `_onUpdate` gives back: a hook, or an exception. */
  datatype Reply<+V> = Hooked(hook: Hook<V>) | Thrown(error: Error)

  ghost predicate Answers<V(!new), S(!new)>(r: Reply<V>, st: State<V, S>, p: Prepared<V, S>) {
    && st == p.state
    && match p
       case Ready(_, hook) => r == Hooked(hook)
       case Threw(_, e) => r == Thrown(e)
  }

  ghost predicate Finishes<V(!new), S(!new)>(e: Option<Error>, st: State<V, S>, c: Committed<V, S>) {
    && st == c.state
    && e == (if c.Done? then None else Some(c.error))
  }

  // One group's answer inside the whole group index.

  lemma PrepareInIs<V(!new), S(!new)>(
    inner: Spec<V, S>, groups: map<V, State<V, S>>, key: V, u: Update<V>, p: Prepared<V, S>)
    requires key in groups && p == Prepare(inner, groups[key], u)
    ensures PrepareIn(inner, groups, key, u) ==
              match p
              case Ready(st, h) => Ready(GroupState(groups[key := st]), InGroup(key, h))
              case Threw(st, e) => Threw(GroupState(groups[key := st]), e)
  {
  }

  class GroupedIndex<V(==, !new), S(!new)> {
    const group: V -> V
    const inner: Spec<V, S>
    var ixs: map<V, Index<V, S>>

    constructor (group: V -> V, inner: Spec<V, S>)
      ensures this.group == group && this.inner == inner && ixs == map[]
    {
      this.group, this.inner := group, inner;
      ixs := map[];
    }
  }

  class Index<V(==, !new), S(!new)> {
    const kind: Kind<V, S>
    /** The unregistered index this object was made from. */
    ghost const spec: Spec<V, S>
    ghost var Repr: set<object>

    /** `child` is a part of this object. */
    ghost predicate Owns(child: Index<V, S>)
      reads this, Repr
    {
      child in Repr && child.Repr <= Repr && this !in child.Repr
    }

    ghost predicate Valid()
      reads this, Repr
      decreases spec
    {
      && this in Repr
      && match kind
         case HashKind(h) =>
           spec.Hash? && h.ix in Repr && h.ix.Repr <= Repr && this !in h.ix.Repr && h.ix.Valid()
         case UniqueKind(u) => spec.Unique? && u in Repr
         case BTreeKind(b) =>
           && spec.BTree? && b.less == spec.less && b in Repr
           && b.ix in Repr && b.ix.Repr <= Repr && this !in b.ix.Repr && b.Valid()
         case FoldKind(f) => spec.Fold? && f.ops == spec.ops && f in Repr
         case PremapKind(f, inner) =>
           spec.Premap? && spec.f == f && Owns(inner) && inner.spec == spec.inner && inner.Valid()
         case GroupKind(g) =>
           && spec.Group? && g.group == spec.group && g.inner == spec.inner && Ordered(g.inner)
           && g in Repr
           && (forall k | k in g.ixs :: Owns(g.ixs[k]) && g !in g.ixs[k].Repr && g.ixs[k].spec == spec.inner && g.ixs[k].Valid())
           && (forall j, k | j in g.ixs && k in g.ixs && j != k :: g.ixs[j].Repr !! g.ixs[k].Repr)
         case ZipKind(cs) =>
           && spec.Zip? && |cs| == |spec.specs|
           && (forall i | 0 <= i < |cs| :: Owns(cs[i]) && cs[i].spec == spec.specs[i] && cs[i].Valid())
           && (forall i, j | 0 <= i < |cs| && 0 <= j < |cs| && i != j :: cs[i].Repr !! cs[j].Repr)
    }

    /** The value-level state this object holds. */
    ghost function Abs(): State<V, S>
      requires Valid()
      reads this, Repr
      decreases spec
    {
      match kind
      case HashKind(h) => HashState(h.ix.buckets)
      case UniqueKind(u) => UniqueState(u.ix)
      case BTreeKind(b) => BTreeState(b.ix.buckets)
      case FoldKind(f) => FoldState(f.state)
      case PremapKind(_, inner) => PremapState(inner.Abs())
      case GroupKind(g) => GroupState(map k | k in g.ixs :: g.ixs[k].Abs())
      case ZipKind(cs) => ZipState(seq(|cs|, i requires 0 <= i < |cs| && Valid() reads this, Repr => cs[i].Abs()))
    }

    constructor (kind: Kind<V, S>, ghost spec: Spec<V, S>, ghost parts: set<object>)
      ensures this.kind == kind && this.spec == spec && Repr == {this} + parts
    {
      this.kind, this.spec := kind, spec;
      Repr := {this} + parts;
    }

    // ---- Leaves and premap -----------------------------------------------

    predicate IsLeaf() {
      kind.HashKind? || kind.UniqueKind? || kind.BTreeKind? || kind.FoldKind?
    }

    method PrepareLeaf(u: Update<V>) returns (r: Reply<V>)
      requires Valid() && IsLeaf()
      ensures Answers(r, Abs(), Prepare(spec, Abs(), u))
    {
      match kind {
        case UniqueKind(unique) =>
          var ok := unique.Check(u);
          r := if ok then Hooked(Deliver(u)) else Thrown(Conflict);
        case _ =>
          r := Hooked(Deliver(u));
      }
    }

    method CommitLeaf(hook: Hook<V>) returns (e: Option<Error>)
      requires Valid() && IsLeaf()
      modifies Repr
      ensures Valid() && fresh(Repr - old(Repr))
      ensures Finishes(e, Abs(), Trees.Commit(spec, old(Abs()), hook))
    {
      if !hook.Deliver? {
        return Some(TypeError);
      }
      match kind {
        case HashKind(hash) =>
          var ok := hash.Run(hook.u);
          Repr := Repr + hash.ix.Repr;
          e := if ok then None else Some(TypeError);
        case UniqueKind(unique) =>
          unique.Run(hook.u);
          e := None;
        case BTreeKind(btree) =>
          btree.Run(hook.u);
          Repr := Repr + btree.ix.Repr;
          e := None;
        case FoldKind(fold) =>
          fold.Run(hook.u);
          e := None;
      }
    }

    method OnUpdatePremap(u: Update<V>) returns (r: Reply<V>)
      requires Valid() && kind.PremapKind?
      modifies Repr
      ensures Valid() && fresh(Repr - old(Repr))
      ensures Answers(r, Abs(), Prepare(spec, old(Abs()), u))
      decreases spec, 0
    {
      var w := FilterMapUpdate(kind.f, u);
      if w.None? {
        r := Hooked(Skip);
      } else {
        var q := kind.inner.OnUpdate(w.value);
        Repr := Repr + kind.inner.Repr;
        r := if q.Hooked? then Hooked(Trees.Inner(q.hook)) else q;
      }
    }

    /** The objects of a part, which may have become more. */
    ghost method Absorb(ix: Index<V, S>)
      requires ix.Valid() && this !in ix.Repr
      modifies this`Repr
      ensures Repr == old(Repr) + ix.Repr && ix.Repr == old(ix.Repr)
      ensures ix.Valid() && ix.Abs() == old(ix.Abs())
    {
      Repr := Repr + ix.Repr;
    }

    // ---- Groups ----------------------------------------------------------

    ghost function Groups(): map<V, State<V, S>>
      requires Valid() && kind.GroupKind?
      reads this, Repr
    {
      Abs().groups
    }

    /** After one group's index has worked on its own objects, the whole is valid
        and only that group's state has changed. */
    twostate lemma OneGroupChanged(key: V)
      requires old(Valid()) && kind.GroupKind?
      requires key in kind.grouped.ixs && unchanged(kind.grouped)
      requires kind.grouped.ixs[key].Valid()
      requires fresh(kind.grouped.ixs[key].Repr - old(kind.grouped.ixs[key].Repr))
      requires Repr == old(Repr) + kind.grouped.ixs[key].Repr
      requires forall o: object | o in old(Repr) && o != this && o !in old(kind.grouped.ixs[key].Repr) :: unchanged(o)
      ensures Valid()
      ensures Groups() == old(Groups())[key := kind.grouped.ixs[key].Abs()]
    {
      var g := kind.grouped;
      forall k | k in g.ixs && k != key
        ensures g.ixs[k].Repr == old(g.ixs[k].Repr)
        ensures g.ixs[k].Valid() && g.ixs[k].Abs() == old(g.ixs[k].Abs())
      {
        assert old(g.ixs[k].Valid()) && old(g.ixs[k].Repr !! g.ixs[key].Repr);
        assert forall o: object | o in old(g.ixs[k].Repr) :: unchanged(o);
      }
    }

    twostate lemma GroupsKept(key: V)
      requires old(Valid()) && kind.GroupKind?
      requires key in kind.grouped.ixs && old(kind.grouped.ixs) == kind.grouped.ixs - {key}
      requires forall o: object | o in old(Repr) && o != this && o != kind.grouped :: unchanged(o)
      ensures forall k | k in old(kind.grouped.ixs) ::
                var ix := kind.grouped.ixs[k];
                && ix == old(kind.grouped.ixs[k]) && ix.Repr == old(ix.Repr) && ix.Repr <= old(Repr)
                && ix.Valid() && ix.Abs() == old(ix.Abs())
    {
      var g := kind.grouped;
      forall k | k in old(g.ixs)
        ensures g.ixs[k] == old(g.ixs[k]) && g.ixs[k].Repr == old(g.ixs[k].Repr)
        ensures g.ixs[k].Valid() && g.ixs[k].Abs() == old(g.ixs[k].Abs())
      {
        assert old(g.ixs[k].Valid());
        assert forall o: object | o in old(g.ixs[k].Repr) :: unchanged(o);
      }
    }

    twostate lemma GroupAdded(key: V)
      requires old(Valid()) && kind.GroupKind?
      requires key in kind.grouped.ixs && old(kind.grouped.ixs) == kind.grouped.ixs - {key}
      requires kind.grouped.ixs[key].spec == spec.inner
      requires kind.grouped.ixs[key].Valid() && fresh(kind.grouped.ixs[key].Repr)
      requires Repr == old(Repr) + kind.grouped.ixs[key].Repr
      requires forall o: object | o in old(Repr) && o != this && o != kind.grouped :: unchanged(o)
      ensures Valid()
      ensures Groups() == old(Groups())[key := kind.grouped.ixs[key].Abs()]
    {
      var g := kind.grouped;
      GroupsKept(key);
      forall k | k in g.ixs
        ensures Owns(g.ixs[k]) && g !in g.ixs[k].Repr && g.ixs[k].spec == spec.inner && g.ixs[k].Valid()
      {
        assert k == key || k in old(g.ixs);
      }
      forall j, k | j in g.ixs && k in g.ixs && j != k
        ensures g.ixs[j].Repr !! g.ixs[k].Repr
      {
        assert (j in old(g.ixs) && k in old(g.ixs)) || j == key || k == key;
      }
      assert Valid();
      GroupsAre(old(Groups()), key);
    }

    /** Reading the groups off a valid group index. */
    lemma GroupsAre(groups: map<V, State<V, S>>, key: V)
      requires Valid() && kind.GroupKind? && key in kind.grouped.ixs
      requires groups.Keys + {key} == kind.grouped.ixs.Keys
      requires forall k | k in groups && k != key :: groups[k] == kind.grouped.ixs[k].Abs()
      ensures Groups() == groups[key := kind.grouped.ixs[key].Abs()]
    {
    }

    /** `getOrCreateGroup`. */
    method GetOrCreateGroup(key: V)
      requires Valid() && kind.GroupKind?
      modifies Repr
      ensures Valid() && fresh(Repr - old(Repr))
      ensures Groups() == GetOrCreate(old(Groups()), key, spec.inner)
      decreases spec, 1
    {
      if key !in kind.grouped.ixs {
        AddGroup(key);
      }
    }

    method AddGroup(key: V)
      requires Valid() && kind.GroupKind? && key !in kind.grouped.ixs
      modifies this, kind.grouped
      ensures Valid() && fresh(Repr - old(Repr))
      ensures Groups() == old(Groups())[key := Register(spec.inner)]
      decreases spec, 0
    {
      var g := kind.grouped;
      var ix := NewIndex(g.inner);
      g.ixs := g.ixs[key := ix];
      Repr := Repr + ix.Repr;
      assert g.ixs - {key} == old(g.ixs) && ix.Valid() && ix.Abs() == Register(spec.inner);
      GroupAdded(key);
    }

    method PrepareInGroup(key: V, u: Update<V>) returns (r: Reply<V>)
      requires Valid() && kind.GroupKind?
      modifies Repr
      ensures Valid() && fresh(Repr - old(Repr))
      ensures Answers(r, Abs(), PrepareIn(spec.inner, old(Groups()), key, u))
      decreases spec, 0
    {
      var g := kind.grouped;
      if key !in g.ixs {
        return Thrown(TypeError);
      }
      ghost var p := Prepare(spec.inner, Groups()[key], u);
      PrepareInIs(spec.inner, Groups(), key, u, p);
      var q := g.ixs[key].OnUpdate(u);
      Repr := Repr + g.ixs[key].Repr;
      OneGroupChanged(key);
      r := if q.Hooked? then Hooked(InGroup(key, q.hook)) else q;
    }

    method OnUpdateGroup(u: Update<V>) returns (r: Reply<V>)
      requires Valid() && kind.GroupKind?
      modifies Repr
      ensures Valid() && fresh(Repr - old(Repr))
      ensures Answers(r, Abs(), Prepare(spec, old(Abs()), u))
      decreases spec, 2
    {
      var g := kind.grouped;
      assert Prepare(spec, Abs(), u) == PrepareGroup(spec.group, spec.inner, Groups(), u);
      match u {
        case AddUpdate(_, value) =>
          GetOrCreateGroup(g.group(value));
          r := PrepareInGroup(g.group(value), u);
        case UpdateUpdate(id, oldValue, newValue) =>
          if g.group(oldValue) == g.group(newValue) {
            r := PrepareInGroup(g.group(oldValue), u);
          } else {
            GetOrCreateGroup(g.group(newValue));
            r := Hooked(Move(g.group(oldValue), g.group(newValue), DeleteUpdate(id, oldValue), AddUpdate(id, newValue)));
          }
        case DeleteUpdate(_, oldValue) =>
          r := PrepareInGroup(g.group(oldValue), u);
      }
    }

    method CommitInGroup(key: V, hook: Hook<V>) returns (e: Option<Error>)
      requires Valid() && kind.GroupKind?
      modifies Repr
      ensures Valid() && fresh(Repr - old(Repr))
      ensures Finishes(e, Abs(), CommitIn(spec.inner, old(Groups()), key, hook))
      decreases spec, 1
    {
      if key !in kind.grouped.ixs {
        return Some(TypeError);
      }
      CommitInIs(spec.inner, Groups(), key, hook, Trees.Commit(spec.inner, Groups()[key], hook));
      e := CommitGroupAt(key, hook);
      OneGroupChanged(key);
    }

    /** The hook of one group that is there, on that group's objects alone. */
    method CommitGroupAt(key: V, hook: Hook<V>) returns (e: Option<Error>)
      requires Valid() && kind.GroupKind? && key in kind.grouped.ixs
      modifies this`Repr, kind.grouped.ixs[key].Repr
      ensures var ix := kind.grouped.ixs[key];
              && ix.Valid() && fresh(ix.Repr - old(ix.Repr)) && Repr == old(Repr) + ix.Repr
              && Finishes(e, ix.Abs(), Trees.Commit(spec.inner, old(ix.Abs()), hook))
      ensures unchanged(kind.grouped)
      decreases spec, 0
    {
      var ix := kind.grouped.ixs[key];
      assert this !in ix.Repr;
      e := ix.Commit(hook);
      Absorb(ix);
    }

    /** `ix._onUpdate(u)()` on one group's index. */
    method RunInGroup(key: V, u: Update<V>) returns (e: Option<Error>)
      requires Valid() && kind.GroupKind?
      modifies Repr
      ensures Valid() && fresh(Repr - old(Repr))
      ensures Finishes(e, Abs(), RunIn(spec.inner, old(Groups()), key, u))
      decreases spec, 1
    {
      if key !in kind.grouped.ixs {
        return Some(TypeError);
      }
      RunInIs(spec.inner, Groups(), key, u, Update1(spec.inner, Groups()[key], u));
      e := RunGroupAt(key, u);
      OneGroupChanged(key);
    }

    method RunGroupAt(key: V, u: Update<V>) returns (e: Option<Error>)
      requires Valid() && kind.GroupKind? && key in kind.grouped.ixs
      modifies this`Repr, kind.grouped.ixs[key].Repr
      ensures var ix := kind.grouped.ixs[key];
              && ix.Valid() && fresh(ix.Repr - old(ix.Repr)) && Repr == old(Repr) + ix.Repr
              && Finishes(e, ix.Abs(), Update1(spec.inner, old(ix.Abs()), u))
      ensures unchanged(kind.grouped)
      decreases spec, 0
    {
      var ix := kind.grouped.ixs[key];
      assert this !in ix.Repr;
      e := ix.UpdateNow(u);
      Absorb(ix);
    }

    method CommitGroup(hook: Hook<V>) returns (e: Option<Error>)
      requires Valid() && kind.GroupKind?
      modifies Repr
      ensures Valid() && fresh(Repr - old(Repr))
      ensures Finishes(e, Abs(), Trees.Commit(spec, old(Abs()), hook))
      decreases spec, 2
    {
      assert Trees.Commit(spec, Abs(), hook) == Trees.CommitGroup(spec.inner, Groups(), hook);
      match hook {
        case InGroup(key, inner) =>
          e := CommitInGroup(key, inner);
        case Move(from, to, del, add) =>
          e := RunInGroup(from, del);
          if e.None? {
            e := RunInGroup(to, add);
          }
        case _ =>
          e := Some(TypeError);
      }
    }

    method CommitPremap(hook: Hook<V>) returns (e: Option<Error>)
      requires Valid() && kind.PremapKind?
      modifies Repr
      ensures Valid() && fresh(Repr - old(Repr))
      ensures Finishes(e, Abs(), Trees.Commit(spec, old(Abs()), hook))
      decreases spec, 0
    {
      match hook {
        case Skip => e := None;
        case Inner(h) =>
          e := kind.inner.Commit(h);
          Repr := Repr + kind.inner.Repr;
        case _ => e := Some(TypeError);
      }
    }

    /** `ix._onUpdate(u)()`. */
    method UpdateNow(u: Update<V>) returns (e: Option<Error>)
      requires Valid()
      modifies Repr
      ensures Valid() && fresh(Repr - old(Repr))
      ensures Finishes(e, Abs(), Update1(spec, old(Abs()), u))
      decreases spec, 4
    {
      var q := OnUpdate(u);
      if q.Thrown? {
        e := Some(q.error);
      } else {
        e := Commit(q.hook);
      }
    }

    // ---- Zip -------------------------------------------------------------

    /** What a valid zip says about its list of indexes. */
    lemma ZipChildren()
      requires Valid() && kind.ZipKind?
      ensures var cs, frame := kind.children, Repr - {this};
              Apart(cs, frame) && SpecsOf(cs) == spec.specs && Abs() == ZipState(AbsAll(cs, frame))
    {
    }

    lemma ZipFromChildren()
      requires kind.ZipKind? && this in Repr && spec.Zip? && SpecsOf(kind.children) == spec.specs
      requires Apart(kind.children, Repr - {this})
      ensures Valid() && Abs() == ZipState(AbsAll(kind.children, Repr - {this}))
    {
    }

    method OnUpdateZip(u: Update<V>) returns (r: Reply<V>)
      requires Valid() && kind.ZipKind?
      modifies Repr
      ensures Valid() && fresh(Repr - old(Repr))
      ensures Answers(r, Abs(), Prepare(spec, old(Abs()), u))
      decreases spec, 1
    {
      ZipChildren();
      PrepareZipIs(spec.specs, AbsAll(kind.children, Repr - {this}), u);
      ghost var frame;
      var q;
      q, frame := PrepareEach(kind.children, u, Repr - {this});
      Repr := {this} + frame;
      assert Repr - {this} == frame;
      ZipFromChildren();
      r := if q.HookedAll? then Hooked(All(q.hooks)) else Thrown(q.error);
    }

    method CommitZip(hook: Hook<V>) returns (e: Option<Error>)
      requires Valid() && kind.ZipKind?
      modifies Repr
      ensures Valid() && fresh(Repr - old(Repr))
      ensures Finishes(e, Abs(), Trees.Commit(spec, old(Abs()), hook))
      decreases spec, 1
    {
      ZipChildren();
      if !hook.All? || |hook.hooks| != |kind.children| {
        return Some(TypeError);
      }
      CommitZipIs(spec.specs, AbsAll(kind.children, Repr - {this}), hook.hooks);
      ghost var frame;
      e, frame := CommitEach(kind.children, hook.hooks, Repr - {this});
      Repr := {this} + frame;
      assert Repr - {this} == frame;
      ZipFromChildren();
    }

    // ---- Dispatch --------------------------------------------------------

    method OnUpdate(u: Update<V>) returns (r: Reply<V>)
      requires Valid()
      modifies Repr
      ensures Valid() && fresh(Repr - old(Repr))
      ensures Answers(r, Abs(), Prepare(spec, old(Abs()), u))
      decreases spec, 3
    {
      match kind {
        case PremapKind(_, _) => r := OnUpdatePremap(u);
        case GroupKind(_) => r := OnUpdateGroup(u);
        case ZipKind(_) => r := OnUpdateZip(u);
        case _ => r := PrepareLeaf(u);
      }
    }

    method Commit(hook: Hook<V>) returns (e: Option<Error>)
      requires Valid()
      modifies Repr
      ensures Valid() && fresh(Repr - old(Repr))
      ensures Finishes(e, Abs(), Trees.Commit(spec, old(Abs()), hook))
      decreases spec, 3
    {
      match kind {
        case PremapKind(_, _) => e := CommitPremap(hook);
        case GroupKind(_) => e := CommitGroup(hook);
        case ZipKind(_) => e := CommitZip(hook);
        case _ => e := CommitLeaf(hook);
      }
    }
  }

  // ---- Lists of indexes --------------------------------------------------

  datatype ReplyAll<+V> = HookedAll(hooks: seq<Hook<V>>) | ThrownAll(error: Error)

  /** Valid indexes within a set of objects, no two sharing any. */
  ghost predicate Apart<V(!new), S(!new)>(cs: seq<Index<V, S>>, frame: set<object>)
    reads cs, frame
  {
    && (forall i | 0 <= i < |cs| :: cs[i] in frame && cs[i].Repr <= frame && cs[i].Valid())
    && (forall i, j | 0 <= i < |cs| && 0 <= j < |cs| && i != j :: cs[i].Repr !! cs[j].Repr)
  }

  ghost function SpecsOf<V(!new), S(!new)>(cs: seq<Index<V, S>>): seq<Spec<V, S>> {
    seq(|cs|, i requires 0 <= i < |cs| => cs[i].spec)
  }

  ghost function AbsAll<V(!new), S(!new)>(cs: seq<Index<V, S>>, frame: set<object>): seq<State<V, S>>
    requires Apart(cs, frame)
    reads cs, frame
  {
    seq(|cs|, i requires 0 <= i < |cs| && Apart(cs, frame) reads cs, frame => cs[i].Abs())
  }

  datatype Place<!V(==, !new), !S(!new)> = Place(cs: seq<Index<V, S>>, n: nat, frame: set<object>)

  /** After the `n`-th index has worked on its own objects, the list is still apart
      and the other indexes are as they were. */
  twostate lemma OneChanged<V(!new), S(!new)>(at: Place<V, S>)
    requires at.n < |at.cs| && old(Apart(at.cs, at.frame))
    requires at.cs[at.n].Valid() && fresh(at.cs[at.n].Repr - old(at.cs[at.n].Repr))
    requires forall o: object | o in at.frame && o !in old(at.cs[at.n].Repr) :: unchanged(o)
    ensures Apart(at.cs, at.frame + at.cs[at.n].Repr)
    ensures forall i | 0 <= i < |at.cs| && i != at.n :: at.cs[i].Abs() == old(at.cs[i].Abs())
  {
    var cs, n := at.cs, at.n;
    forall i | 0 <= i < |cs| && i != n
      ensures cs[i].Repr == old(cs[i].Repr)
      ensures cs[i].Valid() && cs[i].Abs() == old(cs[i].Abs())
    {
      assert old(cs[i].Valid()) && old(cs[i].Repr !! cs[n].Repr);
      assert forall o: object | o in old(cs[i].Repr) :: unchanged(o);
    }
  }

  method PrepareOne<V(==, !new), S(!new)>(cs: seq<Index<V, S>>, n: nat, u: Update<V>, ghost frame: set<object>)
    returns (r: Reply<V>)
    requires n < |cs| && Apart(cs, frame)
    modifies cs[n].Repr
    ensures fresh(cs[n].Repr - old(cs[n].Repr)) && Apart(cs, frame + cs[n].Repr)
    ensures forall i | 0 <= i < |cs| && i != n :: cs[i].Abs() == old(cs[i].Abs())
    ensures Answers(r, cs[n].Abs(), Prepare(cs[n].spec, old(cs[n].Abs()), u))
    decreases cs[n].spec, 4
  {
    r := cs[n].OnUpdate(u);
    OneChanged(Place(cs, n, frame));
  }

  method CommitOne<V(==, !new), S(!new)>(cs: seq<Index<V, S>>, n: nat, hook: Hook<V>, ghost frame: set<object>)
    returns (e: Option<Error>)
    requires n < |cs| && Apart(cs, frame)
    modifies cs[n].Repr
    ensures fresh(cs[n].Repr - old(cs[n].Repr)) && Apart(cs, frame + cs[n].Repr)
    ensures forall i | 0 <= i < |cs| && i != n :: cs[i].Abs() == old(cs[i].Abs())
    ensures Finishes(e, cs[n].Abs(), Trees.Commit(cs[n].spec, old(cs[n].Abs()), hook))
    decreases cs[n].spec, 4
  {
    e := cs[n].Commit(hook);
    OneChanged(Place(cs, n, frame));
  }

  lemma PrepareZipIs<V(!new), S(!new)>(specs: seq<Spec<V, S>>, states: seq<State<V, S>>, u: Update<V>)
    requires |specs| == |states|
    ensures Prepare(Zip(specs), ZipState(states), u) ==
              match PrepareAll(specs, states, u)
              case ReadyAll(states', hooks) => Ready(ZipState(states'), All(hooks))
              case ThrewAll(states', e) => Threw(ZipState(states'), e)
  {
  }

  lemma CommitZipIs<V(!new), S(!new)>(specs: seq<Spec<V, S>>, states: seq<State<V, S>>, hooks: seq<Hook<V>>)
    requires |specs| == |states| == |hooks|
    ensures Trees.Commit(Zip(specs), ZipState(states), All(hooks)) ==
              match CommitAll(specs, states, hooks)
              case DoneAll(states') => Done(ZipState(states'))
              case FailedAll(states', e) => Failed(ZipState(states'), e)
  {
  }

  ghost predicate AnswersAll<V(!new), S(!new)>(r: ReplyAll<V>, states: seq<State<V, S>>, p: PreparedAll<V, S>) {
    p == match r
         case HookedAll(hooks) => ReadyAll(states, hooks)
         case ThrownAll(e) => ThrewAll(states, e)
  }

  ghost predicate FinishesAll<V(!new), S(!new)>(e: Option<Error>, states: seq<State<V, S>>, c: CommittedAll<V, S>) {
    c == if e.None? then DoneAll(states) else FailedAll(states, e.value)
  }

  lemma EachThrew<V(!new), S(!new)>(
    now: seq<State<V, S>>, was: seq<State<V, S>>, answers: seq<Prepared<V, S>>, e: Error, n: nat)
    requires n < |now| == |was| == |answers|
    requires forall j | 0 <= j < n :: answers[j].Ready? && answers[j].state == now[j]
    requires answers[n] == Threw(now[n], e)
    requires forall j | n < j < |now| :: now[j] == was[j]
    ensures Gather(was, answers) == ThrewAll(now, e)
  {
    assert StopsAt(was, answers, ThrewAll(now, e), n);
    GatherThrowsIs(was, answers, now, e, n);
  }

  lemma EachFailed<V(!new), S(!new)>(
    now: seq<State<V, S>>, was: seq<State<V, S>>, answers: seq<Committed<V, S>>, e: Error, n: nat)
    requires n < |now| == |was| == |answers|
    requires forall j | 0 <= j < n :: answers[j] == Done(now[j])
    requires answers[n] == Failed(now[n], e)
    requires forall j | n < j < |now| :: now[j] == was[j]
    ensures GatherCommits(was, answers) == FailedAll(now, e)
  {
    assert FailsAt(was, answers, FailedAll(now, e), n);
    GatherFailsIs(was, answers, now, e, n);
  }

  /** The first loop of `propagateUpdate` and of `ZipIndex._onUpdate`. */
  method PrepareEach<V(==, !new), S(!new)>(cs: seq<Index<V, S>>, u: Update<V>, ghost frame: set<object>)
    returns (r: ReplyAll<V>, ghost frame': set<object>)
    requires Apart(cs, frame)
    modifies frame
    ensures frame <= frame' && fresh(frame' - frame) && Apart(cs, frame')
    ensures AnswersAll(r, AbsAll(cs, frame'), PrepareAll(SpecsOf(cs), old(AbsAll(cs, frame)), u))
    ensures r.HookedAll? ==> |r.hooks| == |cs|
    decreases SpecsOf(cs), 0
  {
    frame' := frame;
    ghost var was := AbsAll(cs, frame);
    ghost var answers := PrepareAnswers(SpecsOf(cs), was, u);
    var hooks := [];
    for i := 0 to |cs|
      invariant frame <= frame' && fresh(frame' - frame) && Apart(cs, frame')
      invariant |hooks| == i
      invariant forall j | 0 <= j < i :: answers[j] == Ready(cs[j].Abs(), hooks[j])
      invariant forall j | i <= j < |cs| :: cs[j].Abs() == was[j]
    {
      assert answers[i] == Prepare(cs[i].spec, cs[i].Abs(), u);
      var q := PrepareOne(cs, i, u, frame');
      frame' := frame' + cs[i].Repr;
      if q.Thrown? {
        EachThrew(AbsAll(cs, frame'), was, answers, q.error, i);
        return ThrownAll(q.error), frame';
      }
      hooks := hooks + [q.hook];
    }
    GatherReadyIs(was, answers, AbsAll(cs, frame'), hooks);
    r := HookedAll(hooks);
  }

  /** The second loop: run the hooks until one throws. */
  method CommitEach<V(==, !new), S(!new)>(cs: seq<Index<V, S>>, hooks: seq<Hook<V>>, ghost frame: set<object>)
    returns (e: Option<Error>, ghost frame': set<object>)
    requires Apart(cs, frame) && |hooks| == |cs|
    modifies frame
    ensures frame <= frame' && fresh(frame' - frame) && Apart(cs, frame')
    ensures FinishesAll(e, AbsAll(cs, frame'), CommitAll(SpecsOf(cs), old(AbsAll(cs, frame)), hooks))
    decreases SpecsOf(cs), 0
  {
    frame' := frame;
    ghost var was := AbsAll(cs, frame);
    ghost var answers := CommitAnswers(SpecsOf(cs), was, hooks);
    for i := 0 to |cs|
      invariant frame <= frame' && fresh(frame' - frame) && Apart(cs, frame')
      invariant forall j | 0 <= j < i :: answers[j] == Done(cs[j].Abs())
      invariant forall j | i <= j < |cs| :: cs[j].Abs() == was[j]
    {
      assert answers[i] == Trees.Commit(cs[i].spec, cs[i].Abs(), hooks[i]);
      var thrown := CommitOne(cs, i, hooks[i], frame');
      frame' := frame' + cs[i].Repr;
      if thrown.Some? {
        EachFailed(AbsAll(cs, frame'), was, answers, thrown.value, i);
        return thrown, frame';
      }
    }
    GatherDoneIs(was, answers, AbsAll(cs, frame'));
    e := None;
  }

  /** `_register`. */
  method NewIndex<V(==, !new), S(!new)>(spec: Spec<V, S>) returns (ix: Index<V, S>)
    requires Ordered(spec)
    ensures ix.Valid() && fresh(ix.Repr) && ix.spec == spec && ix.Abs() == Register(spec)
    decreases spec, 0
  {
    match spec {
      case Premap(f, innerSpec) =>
        var inner := NewIndex(innerSpec);
        ix := NewPremap(f, inner);
      case Group(group, innerSpec) =>
        ix := NewGroup(group, innerSpec);
      case Zip(specs) =>
        ghost var frame;
        var cs;
        cs, frame := NewIndexes(specs);
        ix := NewZip(cs, frame);
      case _ =>
        ix := NewLeaf(spec);
    }
  }

  method NewPremap<V(==, !new), S(!new)>(f: V -> Option<V>, inner: Index<V, S>) returns (ix: Index<V, S>)
    requires inner.Valid()
    ensures ix.Valid() && fresh(ix.Repr - inner.Repr) && ix.spec == Premap(f, inner.spec)
    ensures ix.Abs() == PremapState(inner.Abs())
  {
    ix := new Index(PremapKind(f, inner), Premap(f, inner.spec), inner.Repr);
  }

  method NewZip<V(==, !new), S(!new)>(cs: seq<Index<V, S>>, ghost frame: set<object>) returns (ix: Index<V, S>)
    requires Apart(cs, frame)
    ensures ix.Valid() && fresh(ix.Repr - frame) && ix.spec == Zip(SpecsOf(cs))
    ensures ix.Abs() == ZipState(AbsAll(cs, frame))
  {
    ix := new Index(ZipKind(cs), Zip(SpecsOf(cs)), frame);
    assert ix.Repr - {ix} == frame;
    ix.ZipFromChildren();
  }

  method NewGroup<V(==, !new), S(!new)>(group: V -> V, innerSpec: Spec<V, S>) returns (ix: Index<V, S>)
    requires Ordered(innerSpec)
    ensures ix.Valid() && fresh(ix.Repr) && ix.spec == Group(group, innerSpec)
    ensures ix.Abs() == GroupState(map[])
  {
    var grouped := new GroupedIndex(group, innerSpec);
    ix := new Index(GroupKind(grouped), Group(group, innerSpec), {grouped});
    assert ix.Abs() == GroupState(map[]);
  }

  method NewLeaf<V(==, !new), S(!new)>(spec: Spec<V, S>) returns (ix: Index<V, S>)
    requires Ordered(spec) && (spec.Hash? || spec.Unique? || spec.BTree? || spec.Fold?)
    ensures ix.Valid() && fresh(ix.Repr) && ix.spec == spec && ix.Abs() == Register(spec)
  {
    match spec {
      case Hash =>
        var hash := new HashIndex();
        ix := new Index(HashKind(hash), spec, hash.ix.Repr);
      case Unique =>
        var unique := new UniqueHashIndex();
        ix := new Index(UniqueKind(unique), spec, {unique});
      case BTree(less) =>
        var btree := new BTreeIndex(less);
        ix := new Index(BTreeKind(btree), spec, {btree} + btree.ix.Repr);
      case Fold(ops) =>
        var fold := new FoldIndex(ops);
        ix := new Index(FoldKind(fold), spec, {fold});
    }
  }

  method NewIndexes<V(==, !new), S(!new)>(specs: seq<Spec<V, S>>)
    returns (cs: seq<Index<V, S>>, ghost frame: set<object>)
    requires forall i | 0 <= i < |specs| :: Ordered(specs[i])
    ensures Apart(cs, frame) && fresh(frame)
    ensures SpecsOf(cs) == specs && AbsAll(cs, frame) == RegisterAll(specs)
    decreases specs, 0
  {
    cs, frame := [], {};
    for i := 0 to |specs|
      invariant |cs| == i && fresh(frame) && Apart(cs, frame)
      invariant forall j | 0 <= j < i :: cs[j].spec == specs[j] && cs[j].Abs() == Register(specs[j])
    {
      var ix := NewIndex(specs[i]);
      cs, frame := cs + [ix], frame + ix.Repr;
    }
  }
}
