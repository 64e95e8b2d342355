/** Folds over change events (core/src/indexes/FoldIndex.ts): when the state kept
    incrementally is the fold of the current values, in whatever order. */
module Folds {
  import opened Updates

  datatype FoldOps<!V, !S> = FoldOps(
    init: S,
    add: (S, V) -> S,
    update: (S, V, V) -> S,
    del: (S, V) -> S)

  /** The laws that make a fold order-independent and reversible. */
  ghost predicate Lawful<V(!new), S(!new)>(ops: FoldOps<V, S>) {
    && (forall s, a, b :: ops.add(ops.add(s, a), b) == ops.add(ops.add(s, b), a))
    && (forall s, a :: ops.del(ops.add(s, a), a) == s)
    && (forall s, a, b :: ops.update(ops.add(s, a), a, b) == ops.add(s, b))
  }

  /** One commit of a fold index. */
  function FoldStep<V, S>(ops: FoldOps<V, S>, s: S, u: Update<V>): S {
    match u
    case AddUpdate(_, value) => ops.add(s, value)
    case UpdateUpdate(_, oldValue, newValue) => ops.update(s, oldValue, newValue)
    case DeleteUpdate(_, oldValue) => ops.del(s, oldValue)
  }

  function FoldStream<V, S>(ops: FoldOps<V, S>, s: S, us: seq<Update<V>>): S {
    if us == [] then s else FoldStream(ops, FoldStep(ops, s, us[0]), us[1..])
  }

  /** The fold of a map's values, taken in some unspecified order. */
  ghost function FoldOf<V, S>(ops: FoldOps<V, S>, m: map<Id, V>): S
    decreases |m|
  {
    if m == map[] then ops.init
    else
      var id :| id in m;
      ops.add(FoldOf(ops, m - {id}), m[id])
  }

  /** The fold along a given order of ids. */
  function FoldAlong<V, S>(ops: FoldOps<V, S>, m: map<Id, V>, order: seq<Id>): S
    requires forall id | id in order :: id in m
  {
    if order == [] then ops.init
    else
      var last := order[|order| - 1];
      ops.add(FoldAlong(ops, m, order[..|order| - 1]), m[last])
  }

  /** Any id may be the one folded last. */
  lemma {:induction false} FoldPeel<V(!new), S(!new)>(ops: FoldOps<V, S>, m: map<Id, V>, id: Id)
    requires Lawful(ops) && id in m
    ensures FoldOf(ops, m) == ops.add(FoldOf(ops, m - {id}), m[id])
    decreases |m|
  {
    var last :| last in m && FoldOf(ops, m) == ops.add(FoldOf(ops, m - {last}), m[last]);
    if last != id {
      var rest := m - {last} - {id};
      assert rest == m - {id} - {last};
      FoldPeel(ops, m - {last}, id);
      FoldPeel(ops, m - {id}, last);
    }
  }

  /** The state kept by add, update and delete stays the fold of the contents. */
  lemma FoldStepCorrect<V(!new), S(!new)>(ops: FoldOps<V, S>, m: map<Id, V>, u: Update<V>)
    requires Lawful(ops) && Legal(m, u)
    ensures FoldStep(ops, FoldOf(ops, m), u) == FoldOf(ops, Apply(m, u))
  {
    var m' := Apply(m, u);
    match u {
      case AddUpdate(id, value) =>
        assert m' - {id} == m;
        FoldPeel(ops, m', id);
      case UpdateUpdate(id, oldValue, newValue) =>
        assert m' - {id} == m - {id};
        FoldPeel(ops, m, id);
        FoldPeel(ops, m', id);
      case DeleteUpdate(id, oldValue) =>
        FoldPeel(ops, m, id);
    }
  }

  /** After every legal run of updates. */
  lemma {:induction false} FoldStreamCorrect<V(!new), S(!new)>(ops: FoldOps<V, S>, m: map<Id, V>, us: seq<Update<V>>)
    requires Lawful(ops) && LegalStream(m, us)
    ensures FoldStream(ops, FoldOf(ops, m), us) == FoldOf(ops, ApplyStream(m, us))
    decreases us
  {
    if us != [] {
      FoldStepCorrect(ops, m, us[0]);
      FoldStreamCorrect(ops, Apply(m, us[0]), us[1..]);
    }
  }

  // ---- Which function runs -----------------------------------------------

  datatype Change<+V> = Added(value: V) | Changed(oldValue: V, newValue: V) | Removed(oldValue: V)

  /** A fold that only keeps a record of its calls. */
  function Recorder<V>(): FoldOps<V, seq<Change<V>>> {
    FoldOps(
      [],
      (s: seq<Change<V>>, v) => s + [Added(v)],
      (s: seq<Change<V>>, oldValue, newValue) => s + [Changed(oldValue, newValue)],
      (s: seq<Change<V>>, oldValue) => s + [Removed(oldValue)])
  }

  function Changes<V>(us: seq<Update<V>>): seq<Change<V>> {
    if us == [] then []
    else
      [match us[0]
       case AddUpdate(_, v) => Added(v)
       case UpdateUpdate(_, oldValue, newValue) => Changed(oldValue, newValue)
       case DeleteUpdate(_, oldValue) => Removed(oldValue)]
      + Changes(us[1..])
  }

  /** Lawful or not, a fold gets one call for each update: `add` for an ADD, `update`
      for an UPDATE and `delete` for a DELETE, with the values of the update. */
  lemma {:induction false} OneCallEach<V>(s: seq<Change<V>>, us: seq<Update<V>>)
    ensures FoldStream(Recorder(), s, us) == s + Changes(us)
    decreases us
  {
    if us != [] {
      var next := FoldStep(Recorder(), s, us[0]);
      OneCallEach(next, us[1..]);
      assert next == s + Changes(us)[..1];
      assert Changes(us) == Changes(us)[..1] + Changes(us[1..]);
    }
  }

  ghost predicate Enumerates<K(!new)>(order: seq<K>, keys: set<K>) {
    && (forall i, j | 0 <= i < j < |order| :: order[i] != order[j])
    && (forall k :: k in order <==> k in keys)
  }

  lemma EnumeratesFront<K(!new)>(order: seq<K>, keys: set<K>)
    requires Enumerates(order, keys) && order != []
    ensures Enumerates(order[..|order| - 1], keys - {order[|order| - 1]})
  {
  }

  /** Every duplicate-free order of the ids gives the same fold. */
  lemma {:induction false} FoldAnyOrder<V(!new), S(!new)>(ops: FoldOps<V, S>, m: map<Id, V>, order: seq<Id>)
    requires Lawful(ops) && Enumerates(order, m.Keys)
    ensures FoldAlong(ops, m, order) == FoldOf(ops, m)
    decreases |order|
  {
    if order == [] {
      assert m == map[];
    } else {
      var n := |order| - 1;
      var front, last := order[..n], order[n];
      EnumeratesFront(order, m.Keys);
      assert (m - {last}).Keys == m.Keys - {last};
      FoldAnyOrder(ops, m - {last}, front);
      FoldAlongSubmap(ops, m, m - {last}, front);
      assert last in order;
      FoldPeel(ops, m, last);
    }
  }

  lemma {:induction false} FoldAlongSubmap<V, S>(ops: FoldOps<V, S>, m: map<Id, V>, m': map<Id, V>, order: seq<Id>)
    requires forall id | id in order :: id in m && id in m' && m[id] == m'[id]
    ensures FoldAlong(ops, m, order) == FoldAlong(ops, m', order)
    decreases |order|
  {
    if order != [] {
      var n := |order| - 1;
      assert order[n] in order;
      FoldAlongSubmap(ops, m, m', order[..n]);
    }
  }

  // ---- Algebraic groups --------------------------------------------------

  datatype GroupOps<!S> = GroupOps(empty: S, append: (S, S) -> S, inverse: S -> S)

  ghost predicate Abelian<S(!new)>(g: GroupOps<S>) {
    && (forall a :: g.append(g.empty, a) == a)
    && (forall a :: g.append(a, g.inverse(a)) == g.empty)
    && (forall a, b :: g.append(a, b) == g.append(b, a))
    && (forall a, b, c :: g.append(g.append(a, b), c) == g.append(a, g.append(b, c)))
  }

  /** `algebraicGroupIndex(g).premap(view)`: the fold of an abelian group over
      values seen through `view`. With the identity view it is `algebraicGroupIndex`. */
  function AlgebraicGroup<V, S>(g: GroupOps<S>, view: V -> S): FoldOps<V, S> {
    FoldOps(
      g.empty,
      (s, v) => g.append(s, view(v)),
      (s, oldValue, newValue) => g.append(s, g.append(g.inverse(view(oldValue)), view(newValue))),
      (s, oldValue) => g.append(s, g.inverse(view(oldValue))))
  }

  lemma AbelianIsLawful<V(!new), S(!new)>(g: GroupOps<S>, view: V -> S)
    requires Abelian(g)
    ensures Lawful(AlgebraicGroup(g, view))
  {
  }

  ghost predicate GroupLaws<S(!new)>(g: GroupOps<S>) {
    && (forall a :: g.append(g.empty, a) == a && g.append(a, g.empty) == a)
    && (forall a :: g.append(a, g.inverse(a)) == g.empty && g.append(g.inverse(a), a) == g.empty)
    && (forall a, b, c :: g.append(g.append(a, b), c) == g.append(a, g.append(b, c)))
  }

  /** Any group undoes the value added last, by `delete` and by `update`. */
  lemma GroupUndoesLast<V(!new), S(!new)>(g: GroupOps<S>, view: V -> S, s: S, a: V, b: V)
    requires GroupLaws(g)
    ensures var ops := AlgebraicGroup(g, view);
            && ops.add(s, a) == g.append(s, view(a))
            && ops.del(ops.add(s, a), a) == s
            && ops.update(ops.add(s, a), a, b) == ops.add(s, b)
  {
    var x, y := view(a), view(b);
    assert g.append(g.append(s, x), g.inverse(x)) == g.append(s, g.append(x, g.inverse(x))) == s;
    calc {
      g.append(g.append(s, x), g.append(g.inverse(x), y));
      g.append(g.append(g.append(s, x), g.inverse(x)), y);
      g.append(s, y);
    }
  }

  /** The documentation asks for a group; the fold is independent of order exactly if
      the group is commutative. */
  lemma LawfulIffCommutative<S(!new)>(g: GroupOps<S>)
    requires GroupLaws(g)
    ensures Lawful(AlgebraicGroup(g, (s: S) => s)) <==> forall a, b :: g.append(a, b) == g.append(b, a)
  {
    var ops := AlgebraicGroup(g, (s: S) => s);
    if Lawful(ops) {
      forall a, b
        ensures g.append(a, b) == g.append(b, a)
      {
        assert ops.add(ops.add(g.empty, a), b) == ops.add(ops.add(g.empty, b), a);
      }
    }
    if forall a, b :: g.append(a, b) == g.append(b, a) {
      assert Abelian(g);
      AbelianIsLawful(g, (s: S) => s);
    }
  }

  // ---- sumIndex, arithmeticMeanIndex, countIndex -------------------------

  const SUM_GROUP: GroupOps<real> := GroupOps(0.0, (a: real, b: real) => a + b, (a: real) => 0.0 - a)

  function SumOps<V>(num: V -> real): FoldOps<V, real> {
    AlgebraicGroup(SUM_GROUP, num)
  }

  datatype Stat = Stat(sum: real, count: int)

  const MEAN_GROUP: GroupOps<Stat> := GroupOps(
    Stat(0.0, 0),
    (a: Stat, b: Stat) => Stat(a.sum + b.sum, a.count + b.count),
    (a: Stat) => Stat(0.0 - a.sum, 0 - a.count))

  function MeanOps<V>(num: V -> real): FoldOps<V, Stat> {
    AlgebraicGroup(MEAN_GROUP, v => Stat(num(v), 1))
  }

  function CountOps<V>(): FoldOps<V, int> {
    FoldOps(0, (st, _) => st + 1, (st, _, _) => st, (st, _) => st - 1)
  }

  ghost function SumOf<V>(num: V -> real, m: map<Id, V>): real
    decreases |m|
  {
    if m == map[] then 0.0
    else
      var id :| id in m;
      num(m[id]) + SumOf(num, m - {id})
  }

  lemma SumLawful<V(!new)>(num: V -> real)
    ensures Lawful(SumOps(num))
  {
  }

  lemma SumPeel<V(!new)>(num: V -> real, m: map<Id, V>, id: Id)
    requires id in m
    ensures FoldOf(SumOps(num), m) == FoldOf(SumOps(num), m - {id}) + num(m[id])
  {
    SumLawful(num);
    FoldPeel(SumOps(num), m, id);
  }

  /** `sumIndex` keeps the sum of the current values. */
  lemma {:induction false} SumIsFold<V(!new)>(num: V -> real, m: map<Id, V>)
    ensures FoldOf(SumOps(num), m) == SumOf(num, m)
    decreases |m|
  {
    if m != map[] {
      var id :| id in m && SumOf(num, m) == num(m[id]) + SumOf(num, m - {id});
      SumIsFold(num, m - {id});
      SumPeel(num, m, id);
    }
  }

  lemma CountLawful<V(!new)>()
    ensures Lawful(CountOps<V>())
  {
  }

  /** `countIndex` keeps the number of current values. */
  lemma {:induction false} CountIsSize<V(!new)>(m: map<Id, V>)
    ensures FoldOf(CountOps(), m) == |m|
    decreases |m|
  {
    if m != map[] {
      var id :| id in m;
      CountIsSize(m - {id});
      assert m.Keys == (m - {id}).Keys + {id};
      CountLawful<V>();
      FoldPeel(CountOps(), m, id);
    }
  }

  lemma MeanLawful<V(!new)>(num: V -> real)
    ensures Lawful(MeanOps(num))
  {
  }

  lemma MeanPeel<V(!new)>(num: V -> real, m: map<Id, V>, id: Id)
    requires id in m
    ensures var rest := FoldOf(MeanOps(num), m - {id});
            FoldOf(MeanOps(num), m) == Stat(rest.sum + num(m[id]), rest.count + 1)
  {
    MeanLawful(num);
    FoldPeel(MeanOps(num), m, id);
  }

  /** `arithmeticMeanIndex` keeps the sum and the number of current values. */
  lemma {:induction false} MeanIsSumOverCount<V(!new)>(num: V -> real, m: map<Id, V>)
    ensures FoldOf(MeanOps(num), m) == Stat(SumOf(num, m), |m|)
    decreases |m|
  {
    if m != map[] {
      var id :| id in m && SumOf(num, m) == num(m[id]) + SumOf(num, m - {id});
      MeanIsSumOverCount(num, m - {id});
      assert m.Keys == (m - {id}).Keys + {id};
      MeanPeel(num, m, id);
    }
  }

  /** The `result` of `arithmeticMeanIndex`, where it is defined. */
  function MeanResult(s: Stat): real
    requires s.count != 0
  {
    s.sum / s.count as real
  }

  lemma SizeOfSome<V(!new)>(m: map<Id, V>)
    requires m != map[]
    ensures |m| != 0
  {
    var id :| id in m;
    assert m.Keys == (m - {id}).Keys + {id};
  }

  /** On a non-empty collection the mean is the sum over the number of values. */
  lemma MeanValue<V(!new)>(num: V -> real, m: map<Id, V>)
    requires m != map[]
    ensures FoldOf(MeanOps(num), m).count == |m| != 0
    ensures MeanResult(FoldOf(MeanOps(num), m)) == SumOf(num, m) / |m| as real
  {
    SizeOfSome(m);
    MeanIsSumOverCount(num, m);
    var s := FoldOf(MeanOps(num), m);
    assert s == Stat(SumOf(num, m), |m|);
  }
}
