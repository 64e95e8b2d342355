/** The plain denotation of an index tree, what can be reached inside it, and what
    a query there may answer. */
module Denotation {
  import opened Updates
  import opened Folds
  import opened Leaves
  import opened Trees
  import opened TreeProofs

  // ---- The canonical state -----------------------------------------------

  ghost function InverseOf<V(!new)>(m: map<Id, V>): map<V, Id> {
    map k | k in m.Values :: var id :| id in m && m[id] == k; id
  }

  /** The state a tree should have over the items `m`, computed from scratch:
      no history, no empty groups. */
  ghost function Denote<V(!new), S(!new)>(spec: Spec<V, S>, m: map<Id, V>): State<V, S>
    decreases spec
  {
    match spec
    case Hash => HashState(BucketsOf(m))
    case BTree(_) => BTreeState(BucketsOf(m))
    case Unique => UniqueState(InverseOf(m))
    case Fold(ops) => FoldState(FoldOf(ops, m))
    case Premap(f, inner) => PremapState(Denote(inner, FilterMap(f, m)))
    case Group(g, inner) => GroupState(map k | k in (set id | id in m :: g(m[id])) :: Denote(inner, Part(g, k, m)))
    case Zip(specs) => ZipState(seq(|specs|, i requires 0 <= i < |specs| => Denote(specs[i], m)))
  }

  lemma InverseOfInverse<V(!new)>(m: map<Id, V>)
    requires Injective(m)
    ensures Inverse(InverseOf(m), m)
  {
  }

  lemma {:induction false} DenoteEmpty<V(!new), S(!new)>(spec: Spec<V, S>)
    ensures Denote(spec, map[]) == Register(spec)
    decreases spec
  {
    match spec {
      case Hash => assert BucketsOf<V>(map[]) == map[];
      case BTree(_) => assert BucketsOf<V>(map[]) == map[];
      case Unique => assert InverseOf<V>(map[]) == map[];
      case Premap(f, inner) =>
        assert FilterMap(f, map[]) == map[];
        DenoteEmpty(inner);
      case Group(g, inner) =>
        assert Denote(spec, map[]).groups == map[];
      case Zip(specs) =>
        forall i | 0 <= i < |specs|
          ensures Denote(specs[i], map[]) == Register(specs[i])
        {
          DenoteEmpty(specs[i]);
        }
        assert Denote(spec, map[]).children == RegisterAll(specs);
      case _ =>
    }
  }

  lemma {:induction false} DenoteRepresents<V(!new), S(!new)>(spec: Spec<V, S>, m: map<Id, V>)
    requires Consistent(spec, m)
    ensures Represents(spec, Denote(spec, m), m)
    decreases spec
  {
    match spec {
      case Unique => InverseOfInverse(m);
      case Premap(f, inner) => DenoteRepresents(inner, FilterMap(f, m));
      case Group(g, inner) =>
        var groups := Denote(spec, m).groups;
        forall k | k in groups
          ensures Represents(inner, groups[k], Part(g, k, m))
        {
          DenoteRepresents(inner, Part(g, k, m));
        }
        assert forall id | id in m :: g(m[id]) in groups;
      case Zip(specs) =>
        forall i | 0 <= i < |specs|
          ensures Represents(specs[i], Denote(specs[i], m), m)
        {
          DenoteRepresents(specs[i], m);
        }
      case _ =>
    }
  }

  /** A state that stands for `m` is the denotation over `m` up to empty groups. */
  lemma {:induction false} RepresentsGrown<V(!new), S(!new)>(spec: Spec<V, S>, st: State<V, S>, m: map<Id, V>)
    requires Represents(spec, st, m)
    ensures Grows(spec, Denote(spec, m), st)
    decreases spec
  {
    match spec {
      case Unique =>
        InverseKeys(st.owners, m);
        InverseOfInverse(m);
        InverseUnique(st.owners, InverseOf(m), m);
      case Premap(f, inner) => RepresentsGrown(inner, st.inner, FilterMap(f, m));
      case Group(g, inner) =>
        var groups := Denote(spec, m).groups;
        forall k | k in st.groups
          ensures Grows(inner, if k in groups then groups[k] else Register(inner), st.groups[k])
        {
          RepresentsGrown(inner, st.groups[k], Part(g, k, m));
          if k !in groups {
            assert Part(g, k, m) == map[];
            DenoteEmpty(inner);
          }
        }
        assert groups.Keys <= st.groups.Keys;
      case Zip(specs) =>
        forall i | 0 <= i < |specs|
          ensures Grows(specs[i], Denote(specs[i], m), st.children[i])
        {
          RepresentsGrown(specs[i], st.children[i], m);
        }
      case _ =>
    }
  }

  /** The two characterisations agree: standing for `m` is being the denotation
      over indexable items `m`, up to groups that are empty. */
  lemma DenotationCharacterised<V(!new), S(!new)>(spec: Spec<V, S>, st: State<V, S>, m: map<Id, V>)
    ensures Represents(spec, st, m) <==> Consistent(spec, m) && Grows(spec, Denote(spec, m), st)
  {
    if Represents(spec, st, m) {
      RepresentsConsistent(spec, st, m);
      RepresentsGrown(spec, st, m);
    }
    if Consistent(spec, m) && Grows(spec, Denote(spec, m), st) {
      DenoteRepresents(spec, m);
      GrowsRepresents(spec, Denote(spec, m), st, m);
    }
  }

  // ---- Reaching inside a tree --------------------------------------------

  /** `PremapIndex.get`, `GroupedIndex.get(key)` and `ZipIndex.get()[i]`. */
  datatype Access<+V> = GetInner | GetGroup(key: V) | GetChild(index: nat)

  function Reach<V(==), S>(spec: Spec<V, S>, st: State<V, S>, path: seq<Access<V>>): Option<(Spec<V, S>, State<V, S>)>
    decreases path
  {
    if path == [] then Some((spec, st))
    else if !SameKind(spec, st) then None
    else
      match (spec, path[0])
      case (Premap(_, inner), GetInner) => Reach(inner, st.inner, path[1..])
      case (Group(_, inner), GetGroup(key)) =>
        if key in st.groups then Reach(inner, st.groups[key], path[1..]) else None
      case (Zip(specs), GetChild(i)) =>
        if i < |specs| then Reach(specs[i], st.children[i], path[1..]) else None
      case _ => None
  }

  /** One access: an inner index and a child are there, a group only if it was made. */
  lemma ReachOne<V(!new), S(!new)>(spec: Spec<V, S>, st: State<V, S>, access: Access<V>)
    ensures Reach(spec, st, [access]) ==
              match (spec, st, access)
              case (Premap(_, inner), PremapState(x), GetInner) => Some((inner, x))
              case (Group(_, inner), GroupState(groups), GetGroup(k)) =>
                if k in groups then Some((inner, groups[k])) else None
              case (Zip(specs), ZipState(cs), GetChild(i)) =>
                if |cs| == |specs| && i < |specs| then Some((specs[i], cs[i])) else None
              case _ => None
  {
    assert [access][1..] == [];
  }

  /** A longer path goes on from where a shorter one ends. */
  lemma {:induction false} ReachConcat<V(!new), S(!new)>(
    spec: Spec<V, S>, st: State<V, S>, path: seq<Access<V>>, more: seq<Access<V>>)
    ensures Reach(spec, st, path + more) ==
              match Reach(spec, st, path)
              case None => None
              case Some(found) => Reach(found.0, found.1, more)
    decreases path
  {
    if path == [] {
      assert path + more == more;
    } else {
      assert (path + more)[1..] == path[1..] + more;
      match (spec, path[0]) {
        case (Premap(_, inner), GetInner) =>
          if st.PremapState? {
            ReachConcat(inner, st.inner, path[1..], more);
          }
        case (Group(_, inner), GetGroup(k)) =>
          if st.GroupState? && k in st.groups {
            ReachConcat(inner, st.groups[k], path[1..], more);
          }
        case (Zip(specs), GetChild(i)) =>
          if SameKind(spec, st) && i < |specs| {
            ReachConcat(specs[i], st.children[i], path[1..], more);
          }
        case _ =>
      }
    }
  }

  /** The first `n` accesses lead to a group index that has no group for the next key. */
  ghost predicate GroupMissing<V(!new), S(!new)>(spec: Spec<V, S>, st: State<V, S>, path: seq<Access<V>>, n: nat) {
    n < |path|
    && match Reach(spec, st, path[..n])
       case Some(found) => found.1.GroupState? && path[n].GetGroup? && path[n].key !in found.1.groups
       case None => false
  }

  /** Some group on the path was never made. */
  ghost predicate Absent<V(!new), S(!new)>(spec: Spec<V, S>, st: State<V, S>, path: seq<Access<V>>) {
    exists n: nat :: GroupMissing(spec, st, path, n)
  }

  lemma GroupMissingLater<V(!new), S(!new)>(
    spec: Spec<V, S>, st: State<V, S>, path: seq<Access<V>>, inner: Spec<V, S>, x: State<V, S>)
    requires path != [] && Reach(spec, st, path[..1]) == Some((inner, x))
    ensures !GroupMissing(spec, st, path, 0) ==>
              (Absent(spec, st, path) <==> Absent(inner, x, path[1..]))
  {
    forall n: nat | n < |path[1..]|
      ensures GroupMissing(spec, st, path, n + 1) <==> GroupMissing(inner, x, path[1..], n)
    {
      assert path[..n + 1] == path[..1] + path[1..][..n];
      ReachConcat(spec, st, path[..1], path[1..][..n]);
    }
    if Absent(inner, x, path[1..]) {
      var n: nat :| GroupMissing(inner, x, path[1..], n);
      assert GroupMissing(spec, st, path, n + 1);
    }
    if !GroupMissing(spec, st, path, 0) && Absent(spec, st, path) {
      var n: nat :| GroupMissing(spec, st, path, n);
      assert GroupMissing(inner, x, path[1..], n - 1);
    }
  }

  /** The state has the shape of the tree. */
  ghost predicate Fits<V(!new), S(!new)>(spec: Spec<V, S>, st: State<V, S>)
    decreases spec
  {
    SameKind(spec, st)
    && match spec
       case Premap(_, inner) => Fits(inner, st.inner)
       case Group(_, inner) => forall k | k in st.groups :: Fits(inner, st.groups[k])
       case Zip(specs) => forall i | 0 <= i < |specs| :: Fits(specs[i], st.children[i])
       case _ => true
  }

  lemma {:induction false} RepresentsFits<V(!new), S(!new)>(spec: Spec<V, S>, st: State<V, S>, m: map<Id, V>)
    requires Represents(spec, st, m)
    ensures Fits(spec, st)
    decreases spec
  {
    match spec {
      case Premap(f, inner) => RepresentsFits(inner, st.inner, FilterMap(f, m));
      case Group(g, inner) =>
        forall k | k in st.groups
          ensures Fits(inner, st.groups[k])
        {
          RepresentsFits(inner, st.groups[k], Part(g, k, m));
        }
      case Zip(specs) =>
        forall i | 0 <= i < |specs|
          ensures Fits(specs[i], st.children[i])
        {
          RepresentsFits(specs[i], st.children[i], m);
        }
      case _ =>
    }
  }

  /** On a path that follows the tree nothing is found exactly when some group on the
      way was never made. */
  lemma {:induction false} ReachNoneIff<V(!new), S(!new)>(spec: Spec<V, S>, st: State<V, S>, path: seq<Access<V>>)
    requires Fits(spec, st) && Target(spec, path).Some?
    ensures Reach(spec, st, path).None? <==> Absent(spec, st, path)
    decreases path
  {
    if path != [] {
      assert path[..1] == [path[0]] && path[..0] == [];
      ReachOne(spec, st, path[0]);
      match (spec, path[0]) {
        case (Premap(f, inner), GetInner) =>
          ReachNoneIff(inner, st.inner, path[1..]);
          GroupMissingLater(spec, st, path, inner, st.inner);
        case (Group(g, inner), GetGroup(k)) =>
          if k in st.groups {
            ReachNoneIff(inner, st.groups[k], path[1..]);
            GroupMissingLater(spec, st, path, inner, st.groups[k]);
          } else {
            assert GroupMissing(spec, st, path, 0);
          }
        case (Zip(specs), GetChild(i)) =>
          ReachNoneIff(specs[i], st.children[i], path[1..]);
          GroupMissingLater(spec, st, path, specs[i], st.children[i]);
        case _ =>
      }
    }
  }

  /** The kind of index at the end of a path, if the path follows the tree. */
  function Target<V, S>(spec: Spec<V, S>, path: seq<Access<V>>): Option<Spec<V, S>>
    decreases path
  {
    if path == [] then Some(spec)
    else
      match (spec, path[0])
      case (Premap(_, inner), GetInner) => Target(inner, path[1..])
      case (Group(_, inner), GetGroup(_)) => Target(inner, path[1..])
      case (Zip(specs), GetChild(i)) => if i < |specs| then Target(specs[i], path[1..]) else None
      case _ => None
  }

  /** Whatever is found is of the kind the tree has there. */
  lemma {:induction false} ReachTarget<V(!new), S(!new)>(spec: Spec<V, S>, st: State<V, S>, path: seq<Access<V>>)
    ensures Reach(spec, st, path).Some? ==> Target(spec, path) == Some(Reach(spec, st, path).value.0)
    decreases path
  {
    if path != [] && SameKind(spec, st) {
      match (spec, path[0]) {
        case (Premap(_, inner), GetInner) => ReachTarget(inner, st.inner, path[1..]);
        case (Group(_, inner), GetGroup(k)) =>
          if k in st.groups {
            ReachTarget(inner, st.groups[k], path[1..]);
          }
        case (Zip(specs), GetChild(i)) =>
          if i < |specs| {
            ReachTarget(specs[i], st.children[i], path[1..]);
          }
        case _ =>
      }
    }
  }

  /** The path leads to an index with an `eq` query. */
  predicate EndsInLookup<V, S>(spec: Spec<V, S>, path: seq<Access<V>>) {
    match Target(spec, path)
    case Some(t) => t.Hash? || t.BTree? || t.Unique?
    case None => false
  }

  /** The value under which the index at the end of the path files an item `v`. */
  function Through<V(==), S>(spec: Spec<V, S>, path: seq<Access<V>>, v: V): Option<V>
    decreases path
  {
    if path == [] then Some(v)
    else
      match (spec, path[0])
      case (Premap(f, inner), GetInner) =>
        (match f(v)
         case None => None
         case Some(w) => Through(inner, path[1..], w))
      case (Group(g, inner), GetGroup(key)) =>
        if g(v) == key then Through(inner, path[1..], v) else None
      case (Zip(specs), GetChild(i)) =>
        if i < |specs| then Through(specs[i], path[1..], v) else None
      case _ => None
  }

  function Seen<V(==), S>(spec: Spec<V, S>, path: seq<Access<V>>): V -> Option<V> {
    v => Through(spec, path, v)
  }

  lemma SeenStep<V(!new), S(!new)>(spec: Spec<V, S>, path: seq<Access<V>>, m: map<Id, V>)
    requires path != []
    ensures match (spec, path[0])
            case (Premap(f, inner), GetInner) =>
              FilterMap(Seen(inner, path[1..]), FilterMap(f, m)) == FilterMap(Seen(spec, path), m)
            case (Group(g, inner), GetGroup(key)) =>
              FilterMap(Seen(inner, path[1..]), Part(g, key, m)) == FilterMap(Seen(spec, path), m)
            case (Zip(specs), GetChild(i)) =>
              i < |specs| ==> FilterMap(Seen(specs[i], path[1..]), m) == FilterMap(Seen(spec, path), m)
            case _ => true
  {
  }

  /** The index at the end of a path stands for exactly the items that pass along
      it; when a group on the path was never made, no item passes. */
  lemma {:induction false} ReachRepresents<V(!new), S(!new)>(
    spec: Spec<V, S>, st: State<V, S>, path: seq<Access<V>>, m: map<Id, V>)
    requires Represents(spec, st, m) && Target(spec, path).Some?
    ensures match Reach(spec, st, path)
            case Some(found) =>
              && found.0 == Target(spec, path).value
              && Represents(found.0, found.1, FilterMap(Seen(spec, path), m))
            case None => FilterMap(Seen(spec, path), m) == map[]
    decreases path
  {
    if path == [] {
      assert FilterMap(Seen(spec, path), m) == m;
    } else {
      SeenStep(spec, path, m);
      match (spec, path[0]) {
        case (Premap(f, inner), GetInner) =>
          ReachRepresents(inner, st.inner, path[1..], FilterMap(f, m));
        case (Group(g, inner), GetGroup(key)) =>
          if key in st.groups {
            ReachRepresents(inner, st.groups[key], path[1..], Part(g, key, m));
          } else {
            assert Part(g, key, m) == map[];
          }
        case (Zip(specs), GetChild(i)) =>
          ReachRepresents(specs[i], st.children[i], path[1..], m);
        case _ =>
      }
    }
  }

  /** The ids filed under `k` at a path, straight from the items. */
  ghost function Filed<V(!new), S(!new)>(spec: Spec<V, S>, path: seq<Access<V>>, k: V, m: map<Id, V>): set<Id> {
    set id | id in m && Through(spec, path, m[id]) == Some(k)
  }

  /** `eq` of the index at a path: ids, or nothing for another kind of index. */
  function EqAt<V(==), S>(spec: Spec<V, S>, st: State<V, S>, path: seq<Access<V>>, k: V): set<Id> {
    match Reach(spec, st, path)
    case Some(found) => EqLeaf(found.1, k)
    case None => {}
  }

  function EqLeaf<V(==), S>(leaf: State<V, S>, k: V): set<Id> {
    match leaf
    case HashState(buckets) => if k in buckets then buckets[k] else {}
    case BTreeState(buckets) => if k in buckets then buckets[k] else {}
    case UniqueState(owners) => if k in owners then {owners[k]} else {}
    case _ => {}
  }

  lemma EqLeafIsFiled<V(!new), S(!new)>(spec: Spec<V, S>, leaf: State<V, S>, k: V, m: map<Id, V>)
    requires spec.Hash? || spec.BTree? || spec.Unique?
    requires Represents(spec, leaf, m)
    ensures EqLeaf(leaf, k) == set id | id in m && m[id] == k
  {
  }

  lemma FiledIsSeen<V(!new), S(!new)>(spec: Spec<V, S>, path: seq<Access<V>>, k: V, m: map<Id, V>)
    ensures var seen := FilterMap(Seen(spec, path), m);
            Filed(spec, path, k, m) == set id | id in seen && seen[id] == k
  {
  }

  /** Lookups anywhere in a tree answer exactly the items filed under the key. */
  lemma EqIsFiled<V(!new), S(!new)>(spec: Spec<V, S>, st: State<V, S>, path: seq<Access<V>>, k: V, m: map<Id, V>)
    requires Represents(spec, st, m) && EndsInLookup(spec, path)
    ensures EqAt(spec, st, path, k) == Filed(spec, path, k, m)
  {
    ReachRepresents(spec, st, path, m);
    var seen := FilterMap(Seen(spec, path), m);
    FiledIsSeen(spec, path, k, m);
    match Reach(spec, st, path) {
      case None =>
      case Some(found) => EqLeafIsFiled(found.0, found.1, k, seen);
    }
  }

  /** `value()` of the fold at a path: its result function applied to its state. */
  function ValueAt<V(==), S, R>(spec: Spec<V, S>, st: State<V, S>, path: seq<Access<V>>, ret: S -> R): Option<R> {
    match Reach(spec, st, path)
    case Some(found) => if found.1.FoldState? then Some(ret(found.1.acc)) else None
    case None => None
  }

  /** It is the result for the fold of the items that pass. */
  lemma FoldAtIsFold<V(!new), S(!new), R>(
    spec: Spec<V, S>, st: State<V, S>, path: seq<Access<V>>, m: map<Id, V>, ret: S -> R)
    requires Represents(spec, st, m) && Target(spec, path).Some? && Target(spec, path).value.Fold?
    ensures var ops, seen := Target(spec, path).value.ops, FilterMap(Seen(spec, path), m);
            match ValueAt(spec, st, path, ret)
            case Some(v) => v == ret(FoldOf(ops, seen))
            case None => seen == map[]
    ensures ValueAt(spec, st, path, ret).None? <==> Absent(spec, st, path)
  {
    ReachRepresents(spec, st, path, m);
    RepresentsFits(spec, st, m);
    ReachNoneIff(spec, st, path);
  }

  /** `countDistinct` of the index at a path. */
  function DistinctAt<V(==), S>(spec: Spec<V, S>, st: State<V, S>, path: seq<Access<V>>): nat {
    match Reach(spec, st, path)
    case Some(found) => DistinctLeaf(found.1)
    case None => 0
  }

  function DistinctLeaf<V(==), S>(leaf: State<V, S>): nat {
    match leaf
    case HashState(buckets) => |buckets|
    case BTreeState(buckets) => |buckets|
    case UniqueState(owners) => |owners|
    case _ => 0
  }

  lemma DistinctLeafIsValues<V(!new), S(!new)>(spec: Spec<V, S>, leaf: State<V, S>, m: map<Id, V>)
    requires spec.Hash? || spec.BTree? || spec.Unique?
    requires Represents(spec, leaf, m)
    ensures DistinctLeaf(leaf) == |m.Values|
  {
    if spec.Unique? {
      InverseKeys(leaf.owners, m);
      assert leaf.owners.Keys == m.Values;
    } else {
      assert leaf.buckets.Keys == m.Values;
    }
  }

  /** It counts the distinct keys under which items are filed at the path. */
  lemma DistinctIsValues<V(!new), S(!new)>(spec: Spec<V, S>, st: State<V, S>, path: seq<Access<V>>, m: map<Id, V>)
    requires Represents(spec, st, m) && EndsInLookup(spec, path)
    ensures DistinctAt(spec, st, path) == |FilterMap(Seen(spec, path), m).Values|
  {
    ReachRepresents(spec, st, path, m);
    var seen := FilterMap(Seen(spec, path), m);
    match Reach(spec, st, path) {
      case None => assert seen.Values == {};
      case Some(found) => DistinctLeafIsValues(found.0, found.1, seen);
    }
  }

  // ---- Groups partition the input ----------------------------------------

  lemma PartMember<V(!new)>(g: V -> V, m: map<Id, V>)
    ensures forall k, id :: id in Part(g, k, m) <==> id in m && g(m[id]) == k
    ensures forall k, id | id in Part(g, k, m) :: Part(g, k, m)[id] == m[id]
  {
  }

  /** The groups' contents are disjoint, together are the whole input, and each
      holds exactly the items that map to it. */
  lemma GroupsPartition<V(!new), S(!new)>(g: V -> V, inner: Spec<V, S>, st: State<V, S>, m: map<Id, V>)
    requires Represents(Group(g, inner), st, m)
    ensures forall k | k in st.groups :: Represents(inner, st.groups[k], Part(g, k, m))
    ensures forall j, k | j in st.groups && k in st.groups && j != k :: Part(g, j, m).Keys !! Part(g, k, m).Keys
    ensures (set k, id | k in st.groups && id in Part(g, k, m) :: (id, Part(g, k, m)[id])) == m.Items
  {
    PartMember(g, m);
    var items := set k, id | k in st.groups && id in Part(g, k, m) :: (id, Part(g, k, m)[id]);
    forall item | item in m.Items
      ensures item in items
    {
      assert g(m[item.0]) in st.groups && item.0 in Part(g, g(m[item.0]), m);
    }
  }
}
