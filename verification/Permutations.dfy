/** Which answers depend only on the multiset of stored values, and so survive any
    reordering of an add-only call list. */
module Permutations {
  import opened Updates
  import opened Folds
  import opened Leaves
  import opened Trees
  import opened Acceptance
  import opened Denotation
  import opened Engine

  ghost function ValuesOf<V>(m: map<Id, V>): multiset<V>
    decreases |m|
  {
    if m == map[] then multiset{}
    else
      var id :| id in m;
      ValuesOf(m - {id}) + multiset{m[id]}
  }

  lemma {:induction false} ValuesPeel<V(!new)>(m: map<Id, V>, id: Id)
    requires id in m
    ensures ValuesOf(m) == ValuesOf(m - {id}) + multiset{m[id]}
    decreases |m|
  {
    var last :| last in m && ValuesOf(m) == ValuesOf(m - {last}) + multiset{m[last]};
    if last != id {
      assert m - {last} - {id} == m - {id} - {last};
      ValuesPeel(m - {last}, id);
      ValuesPeel(m - {id}, last);
    }
  }

  /** Every occurring value has an id. */
  lemma {:induction false} ValueHasId<V(!new)>(m: map<Id, V>, v: V) returns (id: Id)
    requires v in ValuesOf(m)
    ensures id in m && m[id] == v
    decreases |m|
  {
    var last :| last in m && ValuesOf(m) == ValuesOf(m - {last}) + multiset{m[last]};
    if m[last] == v {
      id := last;
    } else {
      id := ValueHasId(m - {last}, v);
    }
  }

  /** Maps with the same values shed the same value together. */
  lemma PeelBoth<V(!new)>(a: map<Id, V>, b: map<Id, V>, i: Id) returns (j: Id)
    requires ValuesOf(a) == ValuesOf(b) && i in a
    ensures j in b && b[j] == a[i]
    ensures ValuesOf(a - {i}) == ValuesOf(b - {j})
  {
    ValuesPeel(a, i);
    j := ValueHasId(b, a[i]);
    ValuesPeel(b, j);
    assert ValuesOf(a - {i}) == ValuesOf(a) - multiset{a[i]};
    assert ValuesOf(b - {j}) == ValuesOf(b) - multiset{b[j]};
  }

  lemma EmptyByValues<V(!new)>(a: map<Id, V>, b: map<Id, V>)
    requires ValuesOf(a) == ValuesOf(b) && a == map[]
    ensures b == map[]
  {
  }

  /** The state of a lawful fold depends only on the multiset of values. */
  lemma {:induction false} FoldByValues<V(!new), S(!new)>(ops: FoldOps<V, S>, a: map<Id, V>, b: map<Id, V>)
    requires Lawful(ops) && ValuesOf(a) == ValuesOf(b)
    ensures FoldOf(ops, a) == FoldOf(ops, b)
    decreases |a|
  {
    if a == map[] {
      EmptyByValues(a, b);
    } else {
      var i :| i in a;
      var j := PeelBoth(a, b, i);
      FoldByValues(ops, a - {i}, b - {j});
      FoldPeel(ops, a, i);
      FoldPeel(ops, b, j);
    }
  }

  lemma FilterMapDrop<V(!new)>(f: V -> Option<V>, m: map<Id, V>, id: Id)
    requires id in m
    ensures FilterMap(f, m - {id}) == FilterMap(f, m) - {id}
    ensures f(m[id]).None? ==> FilterMap(f, m - {id}) == FilterMap(f, m)
  {
  }

  /** What passes a premap or into a group, as values, depends only on the values. */
  lemma {:induction false} FilterByValues<V(!new)>(f: V -> Option<V>, a: map<Id, V>, b: map<Id, V>)
    requires ValuesOf(a) == ValuesOf(b)
    ensures ValuesOf(FilterMap(f, a)) == ValuesOf(FilterMap(f, b))
    decreases |a|
  {
    if a == map[] {
      EmptyByValues(a, b);
    } else {
      var i :| i in a;
      var j := PeelBoth(a, b, i);
      FilterByValues(f, a - {i}, b - {j});
      FilterMapDrop(f, a, i);
      FilterMapDrop(f, b, j);
      if f(a[i]).Some? {
        ValuesPeel(FilterMap(f, a), i);
        ValuesPeel(FilterMap(f, b), j);
      }
    }
  }

  /** So does being free of duplicate keys. */
  lemma InjectiveByValues<V(!new)>(a: map<Id, V>, b: map<Id, V>)
    requires ValuesOf(a) == ValuesOf(b) && Injective(a)
    ensures Injective(b)
  {
    forall i, j | i in b && j in b && b[i] == b[j]
      ensures i == j
    {
      var k := PeelBoth(b, a, i);
      if j in b - {i} {
        var l := PeelBoth(b - {i}, a - {k}, j);
      }
    }
  }

  lemma {:induction false} ConsistentByValues<V(!new), S(!new)>(spec: Spec<V, S>, a: map<Id, V>, b: map<Id, V>)
    requires ValuesOf(a) == ValuesOf(b) && Consistent(spec, a)
    ensures Consistent(spec, b)
    decreases spec
  {
    match spec {
      case Unique => InjectiveByValues(a, b);
      case Premap(f, inner) =>
        FilterByValues(f, a, b);
        ConsistentByValues(inner, FilterMap(f, a), FilterMap(f, b));
      case Group(g, inner) =>
        forall k
          ensures Consistent(inner, Part(g, k, b))
        {
          FilterByValues(GroupFilter(g, k), a, b);
          ConsistentByValues(inner, Part(g, k, a), Part(g, k, b));
        }
      case Zip(specs) =>
        forall i | 0 <= i < |specs|
          ensures Consistent(specs[i], b)
        {
          ConsistentByValues(specs[i], a, b);
        }
      case _ =>
    }
  }

  lemma HoldingDrop<V(!new)>(m: map<Id, V>, id: Id, k: V)
    requires id in m
    ensures Holding(m, k) == Holding(m - {id}, k) + if m[id] == k then {id} else {}
    ensures id !in Holding(m - {id}, k)
  {
  }

  /** The size of a bucket is the multiplicity of its value. */
  lemma {:induction false} BucketSize<V(!new)>(m: map<Id, V>, k: V)
    ensures |Holding(m, k)| == ValuesOf(m)[k]
    decreases |m|
  {
    if m == map[] {
      assert Holding(m, k) == {};
    } else {
      var last :| last in m && ValuesOf(m) == ValuesOf(m - {last}) + multiset{m[last]};
      BucketSize(m - {last}, k);
      HoldingDrop(m, last, k);
    }
  }

  lemma {:induction false} ValuesAreKeys<V(!new)>(m: map<Id, V>)
    ensures forall v :: v in m.Values <==> v in ValuesOf(m)
  {
    forall v
      ensures v in m.Values <==> v in ValuesOf(m)
    {
      if v in m.Values {
        var id :| id in m && m[id] == v;
        ValuesPeel(m, id);
      }
      if v in ValuesOf(m) {
        var id := ValueHasId(m, v);
      }
    }
  }

  // ---- Answers that depend only on the values ----------------------------

  lemma EqCount<V(!new), S(!new)>(spec: Spec<V, S>, st: State<V, S>, path: seq<Access<V>>, k: V, m: map<Id, V>)
    requires Represents(spec, st, m) && EndsInLookup(spec, path)
    ensures |EqAt(spec, st, path, k)| == ValuesOf(FilterMap(Seen(spec, path), m))[k]
  {
    EqIsFiled(spec, st, path, k, m);
    FiledIsSeen(spec, path, k, m);
    assert Filed(spec, path, k, m) == Holding(FilterMap(Seen(spec, path), m), k);
    BucketSize(FilterMap(Seen(spec, path), m), k);
  }

  /** How many items a lookup finds. */
  lemma EqCountByValues<V(!new), S(!new)>(
    spec: Spec<V, S>, x: State<V, S>, y: State<V, S>, path: seq<Access<V>>, k: V, a: map<Id, V>, b: map<Id, V>)
    requires Represents(spec, x, a) && Represents(spec, y, b) && ValuesOf(a) == ValuesOf(b)
    requires EndsInLookup(spec, path)
    ensures |EqAt(spec, x, path, k)| == |EqAt(spec, y, path, k)|
  {
    EqCount(spec, x, path, k, a);
    EqCount(spec, y, path, k, b);
    FilterByValues(Seen(spec, path), a, b);
  }

  lemma SameValueSets<V(!new)>(a: map<Id, V>, b: map<Id, V>)
    requires ValuesOf(a) == ValuesOf(b)
    ensures a.Values == b.Values
  {
    ValuesAreKeys(a);
    ValuesAreKeys(b);
  }

  /** `countDistinct` anywhere in a tree. */
  lemma DistinctByValues<V(!new), S(!new)>(
    spec: Spec<V, S>, x: State<V, S>, y: State<V, S>, path: seq<Access<V>>, a: map<Id, V>, b: map<Id, V>)
    requires Represents(spec, x, a) && Represents(spec, y, b) && ValuesOf(a) == ValuesOf(b)
    requires EndsInLookup(spec, path)
    ensures DistinctAt(spec, x, path) == DistinctAt(spec, y, path)
  {
    DistinctIsValues(spec, x, path, a);
    DistinctIsValues(spec, y, path, b);
    FilterByValues(Seen(spec, path), a, b);
    SameValueSets(FilterMap(Seen(spec, path), a), FilterMap(Seen(spec, path), b));
  }

  /** The state, and so the value, of a fold anywhere in a tree. */
  lemma FoldAtByValues<V(!new), S(!new)>(
    spec: Spec<V, S>, x: State<V, S>, y: State<V, S>, path: seq<Access<V>>, a: map<Id, V>, b: map<Id, V>)
    requires Represents(spec, x, a) && Represents(spec, y, b) && ValuesOf(a) == ValuesOf(b)
    requires Target(spec, path).Some? && Target(spec, path).value.Fold? && Lawful(Target(spec, path).value.ops)
    requires Reach(spec, x, path).Some? && Reach(spec, y, path).Some?
    ensures Reach(spec, x, path) == Reach(spec, y, path)
  {
    ReachRepresents(spec, x, path, a);
    ReachRepresents(spec, y, path, b);
    FilterByValues(Seen(spec, path), a, b);
    FoldByValues(Target(spec, path).value.ops, FilterMap(Seen(spec, path), a), FilterMap(Seen(spec, path), b));
  }

  // ---- Add-only call lists -----------------------------------------------

  function Adds<V, S>(values: seq<V>): seq<Op<V, S>> {
    if values == [] then [] else [Add(values[0])] + Adds(values[1..])
  }

  /** The store after adding the values in order under consecutive ids. */
  function Added<V>(store: map<Id, V>, last: Id, values: seq<V>): map<Id, V>
    requires last + |values| < ID_LIMIT
    decreases values
  {
    if values == [] then store else Added(store[last + 1 := values[0]], last + 1, values[1..])
  }

  lemma {:induction false} AddedGrows<V(!new)>(store: map<Id, V>, last: Id, values: seq<V>)
    requires last + |values| < ID_LIMIT
    requires UpTo(store, last)
    ensures Submap(store, Added(store, last, values))
    decreases values
  {
    if values != [] {
      AddedGrows(store[last + 1 := values[0]], last + 1, values[1..]);
    }
  }

  lemma ValuesAdd<V(!new)>(store: map<Id, V>, id: Id, value: V)
    requires id !in store
    ensures ValuesOf(store[id := value]) == ValuesOf(store) + multiset{value}
  {
    ValuesPeel(store[id := value], id);
    assert store[id := value] - {id} == store;
  }

  lemma {:induction false} AddedValues<V(!new)>(store: map<Id, V>, last: Id, values: seq<V>)
    requires last + |values| < ID_LIMIT
    requires UpTo(store, last)
    ensures ValuesOf(Added(store, last, values)) == ValuesOf(store) + multiset(values)
    decreases values
  {
    if values == [] {
      NoMoreValues(ValuesOf(store), values);
    } else {
      AddedFirst(store, last, values);
      AddedValues(store[last + 1 := values[0]], last + 1, values[1..]);
    }
  }

  /** The first value added, and the store it leaves to the others. */
  lemma AddedFirst<V(!new)>(store: map<Id, V>, last: Id, values: seq<V>)
    requires values != [] && last + |values| < ID_LIMIT
    requires UpTo(store, last)
    ensures var next := store[last + 1 := values[0]];
            && UpTo(next, last + 1)
            && Added(store, last, values) == Added(next, last + 1, values[1..])
            && ValuesOf(next) + multiset(values[1..]) == ValuesOf(store) + multiset(values)
  {
    ValuesAdd(store, last + 1, values[0]);
    MultisetHead(ValuesOf(store), values);
  }

  lemma NoMoreValues<V(!new)>(a: multiset<V>, values: seq<V>)
    requires values == []
    ensures a == a + multiset(values)
  {
  }

  lemma MultisetHead<V(!new)>(a: multiset<V>, values: seq<V>)
    requires values != []
    ensures a + multiset{values[0]} + multiset(values[1..]) == a + multiset(values)
  {
    assert values == [values[0]] + values[1..];
  }

  lemma AllConsistentSub<V(!new), S(!new)>(specs: seq<Spec<V, S>>, small: map<Id, V>, big: map<Id, V>)
    requires AllConsistent(specs, big)
    requires Submap(small, big)
    ensures AllConsistent(specs, small)
  {
    forall i | 0 <= i < |specs|
      ensures Consistent(specs[i], small)
    {
      ConsistentSub(specs[i], small, big);
    }
  }

  function AddAll<V(==), S>(db: Db<V, S>, values: seq<V>): Outcome<V, S>
    decreases values
  {
    if values == [] then Returned(db)
    else
      match AddOp(db, values[0])
      case Raised(db', e) => Raised(db', e)
      case Returned(db') => AddAll(db', values[1..])
  }

  lemma {:induction false} RunAdds<V(!new), S(!new)>(truthy: V -> bool, db: Db<V, S>, values: seq<V>)
    ensures Run(truthy, db, Adds(values)) == AddAll(db, values)
    decreases values
  {
    if values != [] {
      var op: Op<V, S> := Add(values[0]);
      assert Adds<V, S>(values) == [op] + Adds(values[1..]);
      assert Adds<V, S>(values)[1..] == Adds(values[1..]);
      assert Step(truthy, db, op) == AddOp(db, values[0]);
      if AddOp(db, values[0]).Returned? {
        RunAdds(truthy, AddOp(db, values[0]).db, values[1..]);
      }
    }
  }

  /** An add-only list goes through iff what it would store is indexable. */
  lemma {:induction false} AddsReturnIff<V(!new), S(!new)>(db: Db<V, S>, values: seq<V>)
    requires Good(db) && Bounded(db) && db.last + |values| < ID_LIMIT
    ensures var r := AddAll(db, values);
            var all := Added(db.store, db.last, values);
            && (r.Returned? <==> AllConsistent(db.specs, all))
            && (r.Returned? ==> Good(r.db) && r.db.store == all && r.db.specs == db.specs)
    decreases values
  {
    if values == [] {
      AllRepresentConsistent(db.specs, db.indexes, db.store);
    } else {
      NextIdSteps(db.last);
      AddReturnsIff(db, values[0]);
      AddCorrect(db, values[0]);
      var r := AddOp(db, values[0]);
      if r.Returned? {
        AddsReturnIff(r.db, values[1..]);
      } else {
        FirstAddBlocks(db.specs, db.store, db.last, values);
      }
    }
  }

  lemma FirstAddBlocks<V(!new), S(!new)>(specs: seq<Spec<V, S>>, store: map<Id, V>, last: Id, values: seq<V>)
    requires values != [] && last + |values| < ID_LIMIT
    requires UpTo(store, last)
    requires !AllConsistent(specs, store[last + 1 := values[0]])
    ensures !AllConsistent(specs, Added(store, last, values))
  {
    var next, all := store[last + 1 := values[0]], Added(store, last, values);
    AddedGrows(next, last + 1, values[1..]);
    if AllConsistent(specs, all) {
      AllConsistentSub(specs, next, all);
    }
  }

  /** Permuting an add-only list: both orders throw or neither does, and when they
      do not, both stores hold the same multiset of values, so `EqCountByValues`,
      `DistinctByValues` and `FoldAtByValues` apply to every registered index. */
  lemma AddsCommute<V(!new), S(!new)>(truthy: V -> bool, db: Db<V, S>, left: seq<V>, right: seq<V>)
    requires Good(db) && Bounded(db) && multiset(left) == multiset(right) && db.last + |left| < ID_LIMIT
    ensures |left| == |right|
    ensures var l, r := Run(truthy, db, Adds(left)), Run(truthy, db, Adds(right));
            && (l.Returned? <==> r.Returned?)
            && (l.Returned? ==> Good(l.db) && Good(r.db) && l.db.specs == r.db.specs
                                && ValuesOf(l.db.store) == ValuesOf(r.db.store))
  {
    assert |left| == |multiset(left)| == |multiset(right)| == |right|;
    RunAdds(truthy, db, left);
    RunAdds(truthy, db, right);
    AddsReturnIff(db, left);
    AddsReturnIff(db, right);
    AddedValues(db.store, db.last, left);
    AddedValues(db.store, db.last, right);
    var a, b := Added(db.store, db.last, left), Added(db.store, db.last, right);
    forall i | 0 <= i < |db.specs|
      ensures Consistent(db.specs[i], a) <==> Consistent(db.specs[i], b)
    {
      if Consistent(db.specs[i], a) {
        ConsistentByValues(db.specs[i], a, b);
      }
      if Consistent(db.specs[i], b) {
        ConsistentByValues(db.specs[i], b, a);
      }
    }
  }
}
