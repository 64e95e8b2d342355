/** Chains of `map` and `premap` on aggregate indexes (core/src/indexes/AggregateIndex.ts).

    The first call wraps the aggregate in a `MapAggregateIndex`; later calls fuse
    into it instead of nesting. Functions are taken on `Option` arguments, because
    the fused form hands the result of one premap to the next without checking it
    for `undefined`. */
module Aggregates {
  import opened Updates
  import opened Folds

  datatype Call<!V, !R> =
    | MapCall(f: R -> R)
    | PremapCall(g: Option<V> -> Option<V>)

  /** The single premap of the fused index after a chain of calls. */
  function FusedPremap<V, R>(chain: seq<Call<V, R>>, v: Option<V>): Option<V> {
    if chain == [] then v
    else
      var front, last := chain[..|chain| - 1], chain[|chain| - 1];
      match last
      case MapCall(_) => FusedPremap(front, v)
      case PremapCall(g) => FusedPremap(front, g(v))
  }

  function FusedMap<V, R>(chain: seq<Call<V, R>>, r: R): R {
    if chain == [] then r
    else
      var front, last := chain[..|chain| - 1], chain[|chain| - 1];
      match last
      case MapCall(f) => f(FusedMap(front, r))
      case PremapCall(_) => FusedMap(front, r)
  }

  function Guard<V>(g: Option<V> -> Option<V>): V -> Option<V> { v => g(Some(v)) }

  function FusedFilter<V, R>(chain: seq<Call<V, R>>): V -> Option<V> { v => FusedPremap(chain, Some(v)) }

  /** The updates the innermost fold receives from the fused index. */
  function FusedStream<V, R>(chain: seq<Call<V, R>>, us: seq<Update<V>>): seq<Update<V>> {
    RewriteStream(FusedFilter(chain), us)
  }

  /** The updates the innermost fold would receive from one wrapper per call, each
      with its own check for `undefined`. */
  function NestedStream<V, R>(chain: seq<Call<V, R>>, us: seq<Update<V>>): seq<Update<V>>
    decreases |chain|
  {
    if chain == [] then us
    else
      var front, last := chain[..|chain| - 1], chain[|chain| - 1];
      match last
      case MapCall(_) => NestedStream(front, RewriteStream(v => Some(v), us))
      case PremapCall(g) => NestedStream(front, RewriteStream(Guard(g), us))
  }

  function NestedFilter<V, R>(chain: seq<Call<V, R>>): V -> Option<V>
    decreases |chain|
  {
    if chain == [] then v => Some(v)
    else
      var front, last := chain[..|chain| - 1], chain[|chain| - 1];
      match last
      case MapCall(_) => NestedFilter(front)
      case PremapCall(g) => Compose(Guard(g), NestedFilter(front))
  }

  /** `value()` climbing out of the nested wrappers, innermost first. */
  function NestedValue<V, R>(chain: seq<Call<V, R>>, r: R): R {
    if chain == [] then r
    else NestedValue(chain[1..], if chain[0].MapCall? then chain[0].f(r) else r)
  }

  lemma {:induction false} RewriteIdentity<V>(us: seq<Update<V>>)
    ensures RewriteStream((v: V) => Some(v), us) == us
  {
    if us != [] {
      RewriteIdentity(us[1..]);
      assert us == [us[0]] + us[1..];
    }
  }

  lemma {:induction false} NestedStreamIsFilter<V, R>(chain: seq<Call<V, R>>, us: seq<Update<V>>)
    ensures NestedStream(chain, us) == RewriteStream(NestedFilter(chain), us)
    decreases |chain|
  {
    RewriteIdentity(us);
    if chain != [] {
      var front := chain[..|chain| - 1];
      match chain[|chain| - 1] {
        case MapCall(_) => NestedStreamIsFilter(front, us);
        case PremapCall(g) =>
          NestedStreamIsFilter(front, RewriteStream(Guard(g), us));
          RewriteStreamCompose(Guard(g), NestedFilter(front), us);
      }
    }
  }

  // ---- What fusing is ----------------------------------------------------

  /** A fused `premap` is applied to whatever it is given, and a fused `map` leaves
      the premap alone. */
  lemma FusedPremapOne<V, R>(call: Call<V, R>, v: Option<V>)
    ensures FusedPremap([call], v) == if call.PremapCall? then call.g(v) else v
  {
    assert [call][..0] == [];
  }

  lemma FusedMapOne<V, R>(call: Call<V, R>, r: R)
    ensures FusedMap([call], r) == if call.MapCall? then call.f(r) else r
  {
    assert [call][..0] == [];
  }

  /** Fusing one chain after another composes the premaps, without a check for
      `undefined` between them. */
  lemma {:induction false} FusedPremapConcat<V, R>(a: seq<Call<V, R>>, b: seq<Call<V, R>>, v: Option<V>)
    ensures FusedPremap(a + b, v) == FusedPremap(a, FusedPremap(b, v))
    decreases |b|
  {
    if b == [] {
      assert a + b == a;
    } else {
      var front, last := b[..|b| - 1], b[|b| - 1];
      assert (a + b)[..|a + b| - 1] == a + front && (a + b)[|a + b| - 1] == last;
      FusedPremapConcat(a, front, if last.PremapCall? then last.g(v) else v);
    }
  }

  lemma {:induction false} FusedMapConcat<V, R>(a: seq<Call<V, R>>, b: seq<Call<V, R>>, r: R)
    ensures FusedMap(a + b, r) == FusedMap(b, FusedMap(a, r))
    decreases |b|
  {
    if b == [] {
      assert a + b == a;
    } else {
      var front, last := b[..|b| - 1], b[|b| - 1];
      assert (a + b)[..|a + b| - 1] == a + front && (a + b)[|a + b| - 1] == last;
      FusedMapConcat(a, front, r);
    }
  }

  /** Plain composition of the premaps of a chain on `Option`, from the innermost out. */
  function Composed<V, R>(chain: seq<Call<V, R>>): Option<V> -> Option<V> {
    if chain == [] then v => v
    else
      var rest := Composed(chain[1..]);
      match chain[0]
      case MapCall(_) => rest
      case PremapCall(g) => v => g(rest(v))
  }

  lemma {:induction false} FusedIsComposed<V, R>(chain: seq<Call<V, R>>, v: Option<V>)
    ensures FusedPremap(chain, v) == Composed(chain)(v)
    decreases |chain|
  {
    if chain != [] {
      var first, rest := [chain[0]], chain[1..];
      assert chain == first + rest;
      FusedIsComposed(rest, v);
      FusedPremapConcat(first, rest, v);
      FusedPremapOne(chain[0], FusedPremap(rest, v));
    }
  }

  // ---- Leaks -------------------------------------------------------------

  /** On input `v`, the premap at place `n` is the first to yield `undefined`, coming
      from outside, and the premaps below it turn that `undefined` back into a value. */
  predicate LeaksAt<V, R>(chain: seq<Call<V, R>>, v: V, n: nat)
    requires n < |chain|
  {
    && chain[n].PremapCall?
    && NestedFilter(chain[n + 1..])(v).Some?
    && chain[n].g(NestedFilter(chain[n + 1..])(v)).None?
    && Composed(chain[..n])(None).Some?
  }

  predicate Leaks<V, R>(chain: seq<Call<V, R>>, v: V) {
    exists n: nat | n < |chain| :: LeaksAt(chain, v, n)
  }

  /** What reaches the calls before the last one. */
  lemma NestedFilterLast<V, R>(chain: seq<Call<V, R>>, last: Call<V, R>, v: V)
    ensures NestedFilter(chain + [last])(v) ==
              match last
              case MapCall(_) => NestedFilter(chain)(v)
              case PremapCall(g) => match g(Some(v)) case None => None case Some(w) => NestedFilter(chain)(w)
  {
    assert (chain + [last])[..|chain|] == chain;
  }

  lemma LeaksBefore<V, R>(front: seq<Call<V, R>>, last: Call<V, R>, v: V, n: nat)
    requires n < |front|
    ensures LeaksAt(front + [last], v, n) <==>
              match last
              case MapCall(_) => LeaksAt(front, v, n)
              case PremapCall(g) => match g(Some(v)) case None => false case Some(w) => LeaksAt(front, w, n)
  {
    var chain := front + [last];
    assert chain[n + 1..] == front[n + 1..] + [last] && chain[..n] == front[..n] && chain[n] == front[n];
    NestedFilterLast(front[n + 1..], last, v);
  }

  lemma LeaksLast<V, R>(front: seq<Call<V, R>>, last: Call<V, R>, v: V)
    ensures LeaksAt(front + [last], v, |front|) <==>
              last.PremapCall? && last.g(Some(v)).None? && FusedPremap(front, None).Some?
  {
    var chain := front + [last];
    assert chain[|front| + 1..] == [] && chain[..|front|] == front && chain[|front|] == last;
    FusedIsComposed(front, None);
  }

  lemma LeaksUp<V, R>(front: seq<Call<V, R>>, last: Call<V, R>, v: V, w: V)
    requires if last.PremapCall? then last.g(Some(v)) == Some(w) else w == v
    requires Leaks(front, w)
    ensures Leaks(front + [last], v)
  {
    var n: nat :| n < |front| && LeaksAt(front, w, n);
    LeaksBefore(front, last, v, n);
  }

  lemma LeaksDown<V, R>(front: seq<Call<V, R>>, last: Call<V, R>, v: V)
    requires Leaks(front + [last], v)
    ensures match last
            case MapCall(_) => Leaks(front, v)
            case PremapCall(g) =>
              match g(Some(v))
              case None => FusedPremap(front, None).Some?
              case Some(w) => Leaks(front, w)
  {
    var n: nat :| n < |front + [last]| && LeaksAt(front + [last], v, n);
    if n < |front| {
      LeaksBefore(front, last, v, n);
    } else {
      LeaksLast(front, last, v);
    }
  }

  /** The fused premap is the nested one exactly where nothing leaks. */
  lemma {:induction false} FusedIffNoLeak<V, R>(chain: seq<Call<V, R>>, v: V)
    ensures FusedFilter(chain)(v) == NestedFilter(chain)(v) <==> !Leaks(chain, v)
    decreases |chain|
  {
    if chain != [] {
      var front, last := chain[..|chain| - 1], chain[|chain| - 1];
      assert chain == front + [last];
      if last.PremapCall? && last.g(Some(v)).None? {
        DroppedIffNoLeak(front, last, v);
      } else {
        var w := if last.PremapCall? then last.g(Some(v)).value else v;
        FusedIffNoLeak(front, w);
        LeaksThrough(front, last, v, w);
      }
    }
  }

  lemma LeaksThrough<V, R>(front: seq<Call<V, R>>, last: Call<V, R>, v: V, w: V)
    requires if last.PremapCall? then last.g(Some(v)) == Some(w) else w == v
    ensures Leaks(front + [last], v) <==> Leaks(front, w)
  {
    if Leaks(front + [last], v) {
      LeaksDown(front, last, v);
    }
    if Leaks(front, w) {
      LeaksUp(front, last, v, w);
    }
  }

  lemma DroppedIffNoLeak<V, R>(front: seq<Call<V, R>>, last: Call<V, R>, v: V)
    requires last.PremapCall? && last.g(Some(v)).None?
    ensures FusedFilter(front + [last])(v) == NestedFilter(front + [last])(v) <==> !Leaks(front + [last], v)
  {
    NestedFilterLast(front, last, v);
    FusedPremapConcat(front, [last], Some(v));
    FusedPremapOne(last, Some(v));
    LeaksLast(front, last, v);
    if Leaks(front + [last], v) {
      LeaksDown(front, last, v);
    }
  }

  lemma {:induction false} RewriteByValues<V(!new)>(f: V -> Option<V>, g: V -> Option<V>, us: seq<Update<V>>)
    requires forall v :: f(v) == g(v)
    ensures RewriteStream(f, us) == RewriteStream(g, us)
  {
    if us != [] {
      RewriteByValues(f, g, us[1..]);
    }
  }

  ghost predicate Fuses<V(!new), R>(chain: seq<Call<V, R>>) {
    forall us: seq<Update<V>> :: FusedStream(chain, us) == NestedStream(chain, us)
  }

  ghost predicate LeakFree<V(!new), R>(chain: seq<Call<V, R>>) {
    forall v :: !Leaks(chain, v)
  }

  /** Fusion is invisible for every update stream iff no input value leaks. */
  lemma FusionCorrectIff<V(!new), R>(chain: seq<Call<V, R>>)
    ensures Fuses(chain) <==> LeakFree(chain)
  {
    if LeakFree(chain) {
      forall v
        ensures FusedFilter(chain)(v) == NestedFilter(chain)(v)
      {
        FusedIffNoLeak(chain, v);
      }
      forall us: seq<Update<V>>
        ensures FusedStream(chain, us) == NestedStream(chain, us)
      {
        RewriteByValues(FusedFilter(chain), NestedFilter(chain), us);
        NestedStreamIsFilter(chain, us);
      }
    } else {
      var v :| Leaks(chain, v);
      FusedIffNoLeak(chain, v);
      var us := LeakShows(chain, v);
      assert !Fuses(chain);
    }
  }

  /** A difference on one value is seen with a single ADD. */
  lemma LeakShows<V(!new), R>(chain: seq<Call<V, R>>, v: V) returns (us: seq<Update<V>>)
    requires FusedFilter(chain)(v) != NestedFilter(chain)(v)
    ensures us == [AddUpdate(0, v)] && FusedStream(chain, us) != NestedStream(chain, us)
  {
    var u: Update<V> := AddUpdate(0, v);
    us := [u];
    NestedStreamIsFilter(chain, [u]);
    RewriteOne(FusedFilter(chain), u);
    RewriteOne(NestedFilter(chain), u);
  }

  lemma RewriteOne<V>(f: V -> Option<V>, u: Update<V>)
    ensures RewriteStream(f, [u]) == match FilterMapUpdate(f, u) case None => [] case Some(w) => [w]
  {
  }

  /** Chains whose premaps after the first are total do not leak. */
  lemma TotalPremapsDoNotLeak<V(!new), R>(chain: seq<Call<V, R>>, v: V)
    requires forall i, w | 0 < i < |chain| && chain[i].PremapCall? :: chain[i].g(Some(w)).Some?
    ensures !Leaks(chain, v)
  {
    forall n: nat | n < |chain|
      ensures !LeaksAt(chain, v, n)
    {
      if n == 0 {
        assert chain[..0] == [];
      } else if NestedFilter(chain[n + 1..])(v).Some? {
        assert NestedFilter(chain[n + 1..])(v) == Some(NestedFilter(chain[n + 1..])(v).value);
      }
    }
  }

  lemma {:induction false} NestedValueLast<V, R>(chain: seq<Call<V, R>>, last: Call<V, R>, r: R)
    ensures NestedValue(chain + [last], r) ==
              if last.MapCall? then last.f(NestedValue(chain, r)) else NestedValue(chain, r)
    decreases |chain|
  {
    if chain == [] {
      assert [last][1..] == [];
      assert chain + [last] == [last];
    } else {
      assert (chain + [last])[1..] == chain[1..] + [last];
      NestedValueLast(chain[1..], last, if chain[0].MapCall? then chain[0].f(r) else r);
    }
  }

  lemma {:induction false} ValueFuses<V, R>(chain: seq<Call<V, R>>, r: R)
    ensures FusedMap(chain, r) == NestedValue(chain, r)
    decreases |chain|
  {
    if chain != [] {
      var front, last := chain[..|chain| - 1], chain[|chain| - 1];
      ValueFuses(front, r);
      NestedValueLast(front, last, r);
      assert chain == front + [last];
    }
  }

  /** When nothing leaks, the fused index over any fold has, after every stream, the
      `value()` of the nested one. */
  lemma FusedValue<V(!new), S, R>(
    chain: seq<Call<V, R>>, ops: FoldOps<V, S>, result: S -> R, us: seq<Update<V>>)
    requires LeakFree(chain)
    ensures FusedMap(chain, result(FoldStream(ops, ops.init, FusedStream(chain, us)))) ==
            NestedValue(chain, result(FoldStream(ops, ops.init, NestedStream(chain, us))))
  {
    FusionCorrectIff(chain);
    ValueFuses(chain, result(FoldStream(ops, ops.init, FusedStream(chain, us))));
  }

  /** A leak: a default supplied for `undefined` by the first premap turns values
      dropped by the second into counted ones. */
  lemma LeakExample()
    ensures var keepSmall := PremapCall((v: Option<int>) => if v.Some? && v.value < 10 then v else None);
            var orZero := PremapCall((v: Option<int>) => if v.Some? then v else Some(0));
            var chain: seq<Call<int, int>> := [orZero, keepSmall];
            var us := [AddUpdate(1, 50)];
            && FoldStream(CountOps(), 0, FusedStream(chain, us)) == 1
            && FoldStream(CountOps(), 0, NestedStream(chain, us)) == 0
  {
    var keepSmall := PremapCall((v: Option<int>) => if v.Some? && v.value < 10 then v else None);
    var orZero := PremapCall((v: Option<int>) => if v.Some? then v else Some(0));
    var chain: seq<Call<int, int>> := [orZero, keepSmall];
    var u: Update<int> := AddUpdate(1, 50);
    assert chain[..1] == [orZero] && [orZero][..0] == [];
    assert FusedPremap(chain, Some(50)) == FusedPremap([orZero], None) == Some(0);
    RewriteOne(FusedFilter(chain), u);
    NestedStreamIsFilter(chain, [u]);
    RewriteOne(NestedFilter(chain), u);
    assert NestedFilter(chain)(50) == None;
    assert FoldStream(CountOps(), 0, [AddUpdate(1, 0)]) == 1;
  }
}
