/** Queries on a live collection: walk to an index object and ask it. On a good
    collection the answers are those of the plain denotation over the store, and
    every item carries the value stored under its id. */
module Queries {
  import opened Updates
  import opened Folds
  import opened Leaves
  import opened Trees
  import opened Denotation
  import opened Bucketing
  import opened SmallIndexes
  import opened BTreeIndexes
  import opened Indexes
  import opened Engine
  import opened Collections

  /** Follows `get` calls from an index object. On a path that follows the tree the
      answer is `undefined` exactly when some group on the way was never made. */
  method Walk<V(==, !new), S(!new)>(ix: Index<V, S>, path: seq<Access<V>>) returns (r: Index?<V, S>)
    requires ix.Valid()
    ensures match Reach(ix.spec, ix.Abs(), path)
            case None => r == null
            case Some(found) => r != null && r.Valid() && found == (r.spec, r.Abs())
    ensures r == null <==>
              Target(ix.spec, path).None? || Absent(ix.spec, ix.Abs(), path)
  {
    r := Follow(ix, path);
    AbsFits(ix);
    ReachTarget(ix.spec, ix.Abs(), path);
    if Target(ix.spec, path).Some? {
      ReachNoneIff(ix.spec, ix.Abs(), path);
    }
  }

  lemma {:induction false} AbsFits<V(!new), S(!new)>(ix: Index<V, S>)
    requires ix.Valid()
    ensures Fits(ix.spec, ix.Abs())
    decreases ix.spec
  {
    match ix.kind {
      case PremapKind(_, inner) => AbsFits(inner);
      case GroupKind(g) =>
        forall k | k in g.ixs
          ensures Fits(ix.spec.inner, g.ixs[k].Abs())
        {
          AbsFits(g.ixs[k]);
        }
      case ZipKind(cs) =>
        forall i | 0 <= i < |cs|
          ensures Fits(ix.spec.specs[i], cs[i].Abs())
        {
          AbsFits(cs[i]);
        }
      case _ =>
    }
  }

  method Follow<V(==, !new), S(!new)>(ix: Index<V, S>, path: seq<Access<V>>) returns (r: Index?<V, S>)
    requires ix.Valid()
    ensures match Reach(ix.spec, ix.Abs(), path)
            case None => r == null
            case Some(found) => r != null && r.Valid() && found == (r.spec, r.Abs())
    decreases path
  {
    if path == [] {
      return ix;
    }
    match (ix.kind, path[0]) {
      case (PremapKind(_, inner), GetInner) =>
        r := Follow(inner, path[1..]);
      case (GroupKind(g), GetGroup(key)) =>
        if key in g.ixs {
          r := Follow(g.ixs[key], path[1..]);
        } else {
          r := null;
        }
      case (ZipKind(cs), GetChild(i)) =>
        if i < |cs| {
          r := Follow(cs[i], path[1..]);
        } else {
          r := null;
        }
      case _ =>
        r := null;
    }
  }

  ghost predicate Registered<V(!new), S(!new)>(c: Collection<V, S>, i: nat)
    reads c, c.store, c.indexes, c.frame
  {
    c.Valid() && Good(c.Abstract()) && i < |c.indexes|
  }

  lemma RegisteredRepresents<V(!new), S(!new)>(c: Collection<V, S>, i: nat)
    requires Registered(c, i)
    ensures c.indexes[i].Valid()
    ensures Represents(c.indexes[i].spec, c.indexes[i].Abs(), c.store.contents)
  {
    assert c.Abstract().specs[i] == c.indexes[i].spec;
    assert c.Abstract().indexes[i] == c.indexes[i].Abs();
  }

  /** `eq` on the index at the end of a path. */
  method LookUp<V(==, !new), S(!new)>(c: Collection<V, S>, i: nat, path: seq<Access<V>>, k: V)
    returns (items: seq<Item<V>>)
    requires Registered(c, i) && EndsInLookup(c.indexes[i].spec, path)
    ensures ListsItems(items, Filed(c.indexes[i].spec, path, k, c.store.contents), c.store.contents)
    ensures forall item | item in items ::
              && item.id in c.store.contents && item.value == Some(c.store.contents[item.id])
              && Through(c.indexes[i].spec, path, c.store.contents[item.id]) == Some(k)
              && (path == [] ==> item.value == Some(k))
  {
    RegisteredRepresents(c, i);
    EqIsFiled(c.indexes[i].spec, c.indexes[i].Abs(), path, k, c.store.contents);
    ReachRepresents(c.indexes[i].spec, c.indexes[i].Abs(), path, c.store.contents);
    var r := Walk(c.indexes[i], path);
    if r == null {
      return [];
    }
    items := EqOn(r, c, k);
  }

  method EqOn<V(==, !new), S(!new)>(ix: Index<V, S>, c: Collection<V, S>, k: V) returns (items: seq<Item<V>>)
    requires ix.Valid() && c.Valid() && (ix.spec.Hash? || ix.spec.BTree? || ix.spec.Unique?)
    ensures ListsItems(items, EqLeaf(ix.Abs(), k), c.store.contents)
  {
    match ix.kind {
      case HashKind(hash) => items := hash.Eq(c.store, k);
      case BTreeKind(btree) => items := btree.Eq(c.store, k);
      case UniqueKind(unique) =>
        var item := unique.Eq(c.store, k);
        items := if item.None? then [] else [item.value];
    }
  }

  /** `range` on the B-tree index at the end of a path. */
  method RangeAt<V(==, !new), S(!new)>(
    c: Collection<V, S>, i: nat, path: seq<Access<V>>, minValue: V, maxValue: V, limit: Option<nat>)
    returns (items: seq<Item<V>>)
    requires Registered(c, i) && Target(c.indexes[i].spec, path).Some? && Target(c.indexes[i].spec, path).value.BTree?
    ensures var less := Target(c.indexes[i].spec, path).value.less;
            var seen := FilterMap(Seen(c.indexes[i].spec, path), c.store.contents);
            && ListsItems(items, InRangeIds(less, seen, minValue, maxValue, limit), c.store.contents)
            && (forall j, k | 0 <= j < k < |items| ::
                  items[j].id in seen && items[k].id in seen && !less(seen[items[k].id], seen[items[j].id]))
            && (forall item | item in items ::
                  item.id in seen && !less(seen[item.id], minValue) && !less(maxValue, seen[item.id]))
            && (limit.None? ==>
                  forall id | id in seen && !less(seen[id], minValue) && !less(maxValue, seen[id]) ::
                    id in c.store.contents && Item(id, Some(c.store.contents[id])) in items)
    ensures forall item | item in items ::
              item.id in c.store.contents && item.value == Some(c.store.contents[item.id])
  {
    var btree, seen := BTreeAt(c, i, path);
    if btree == null {
      return [];
    }
    ghost var less := btree.less;
    items := btree.Range(c.store, minValue, maxValue, limit, seen);
    assert limit.None? ==>
             forall id | id in seen && !less(seen[id], minValue) && !less(maxValue, seen[id]) ::
               ItemOf(c.store.contents, id) in items;
  }

  /** `value` of the fold index at the end of a path, if the path exists. */
  method ReadValue<V(==, !new), S(!new), R>(c: Collection<V, S>, i: nat, path: seq<Access<V>>, ret: S -> R)
    returns (value: Option<R>)
    requires Registered(c, i) && Target(c.indexes[i].spec, path).Some? && Target(c.indexes[i].spec, path).value.Fold?
    ensures var ops := Target(c.indexes[i].spec, path).value.ops;
            var seen := FilterMap(Seen(c.indexes[i].spec, path), c.store.contents);
            if value.Some? then value.value == ret(FoldOf(ops, seen)) else seen == map[]
    ensures value.None? <==> Absent(c.indexes[i].spec, c.indexes[i].Abs(), path)
  {
    var fold := FoldAt(c, i, path);
    if fold == null {
      return None;
    }
    var result := fold.Value(ret);
    value := Some(result);
  }

  /** The fold index at the end of a path, unless a group on the path was never made. */
  method FoldAt<V(==, !new), S(!new)>(c: Collection<V, S>, i: nat, path: seq<Access<V>>) returns (fold: FoldIndex?<V, S>)
    requires Registered(c, i) && Target(c.indexes[i].spec, path).Some? && Target(c.indexes[i].spec, path).value.Fold?
    ensures var ops := Target(c.indexes[i].spec, path).value.ops;
            var seen := FilterMap(Seen(c.indexes[i].spec, path), c.store.contents);
            if fold == null then seen == map[] else fold.state == FoldOf(ops, seen)
    ensures fold == null <==> Absent(c.indexes[i].spec, c.indexes[i].Abs(), path)
  {
    RegisteredRepresents(c, i);
    ReachRepresents(c.indexes[i].spec, c.indexes[i].Abs(), path, c.store.contents);
    var r := Walk(c.indexes[i], path);
    fold := null;
    if r != null {
      match r.kind {
        case FoldKind(f) => fold := f;
      }
    }
  }

  /** `countDistinct` of the index at the end of a path. */
  method CountDistinctAt<V(==, !new), S(!new)>(c: Collection<V, S>, i: nat, path: seq<Access<V>>) returns (n: nat)
    requires Registered(c, i) && EndsInLookup(c.indexes[i].spec, path)
    ensures n == |FilterMap(Seen(c.indexes[i].spec, path), c.store.contents).Values|
  {
    RegisteredRepresents(c, i);
    ghost var seen := FilterMap(Seen(c.indexes[i].spec, path), c.store.contents);
    ReachRepresents(c.indexes[i].spec, c.indexes[i].Abs(), path, c.store.contents);
    var r := Walk(c.indexes[i], path);
    if r == null {
      return 0;
    }
    DistinctLeafIsValues(r.spec, r.Abs(), seen);
    n := CountDistinctOn(r);
  }

  method CountDistinctOn<V(==, !new), S(!new)>(ix: Index<V, S>) returns (n: nat)
    requires ix.Valid() && (ix.spec.Hash? || ix.spec.BTree? || ix.spec.Unique?)
    ensures n == DistinctLeaf(ix.Abs())
  {
    match ix.kind {
      case HashKind(hash) => n := hash.CountDistinct();
      case BTreeKind(btree) => n := btree.CountDistinct();
      case UniqueKind(unique) => n := unique.CountDistinct();
    }
  }

  // ---- Extremes ----------------------------------------------------------

  /** The B-tree at the end of a path, if the path exists, and what it stands for. */
  method BTreeAt<V(==, !new), S(!new)>(c: Collection<V, S>, i: nat, path: seq<Access<V>>)
    returns (btree: BTreeIndex?<V>, ghost seen: map<Id, V>)
    requires Registered(c, i) && Target(c.indexes[i].spec, path).Some? && Target(c.indexes[i].spec, path).value.BTree?
    ensures seen == FilterMap(Seen(c.indexes[i].spec, path), c.store.contents)
    ensures if btree == null then seen == map[]
            else btree.Valid() && btree.ix.buckets == BucketsOf(seen)
                 && btree.less == Target(c.indexes[i].spec, path).value.less
  {
    RegisteredRepresents(c, i);
    seen := FilterMap(Seen(c.indexes[i].spec, path), c.store.contents);
    ReachRepresents(c.indexes[i].spec, c.indexes[i].Abs(), path, c.store.contents);
    var r := Walk(c.indexes[i], path);
    btree := null;
    if r != null {
      match r.kind {
        case BTreeKind(b) => btree := b;
      }
    }
  }

  /** `max`: the items whose key no other exceeds. */
  method MaxAt<V(==, !new), S(!new)>(c: Collection<V, S>, i: nat, path: seq<Access<V>>) returns (items: seq<Item<V>>)
    requires Registered(c, i) && Target(c.indexes[i].spec, path).Some? && Target(c.indexes[i].spec, path).value.BTree?
    ensures var less := Target(c.indexes[i].spec, path).value.less;
            var seen := FilterMap(Seen(c.indexes[i].spec, path), c.store.contents);
            ListsItems(items, GreatestIds(less, seen), c.store.contents)
    ensures forall item | item in items ::
              item.id in c.store.contents && item.value == Some(c.store.contents[item.id])
  {
    var btree, seen := BTreeAt(c, i, path);
    if btree == null {
      return [];
    }
    items := btree.Max(c.store, seen);
  }

  /** `min`: the items whose key exceeds no other. */
  method MinAt<V(==, !new), S(!new)>(c: Collection<V, S>, i: nat, path: seq<Access<V>>) returns (items: seq<Item<V>>)
    requires Registered(c, i) && Target(c.indexes[i].spec, path).Some? && Target(c.indexes[i].spec, path).value.BTree?
    ensures var less := Target(c.indexes[i].spec, path).value.less;
            var seen := FilterMap(Seen(c.indexes[i].spec, path), c.store.contents);
            ListsItems(items, LeastIds(less, seen), c.store.contents)
    ensures forall item | item in items ::
              item.id in c.store.contents && item.value == Some(c.store.contents[item.id])
  {
    var btree, seen := BTreeAt(c, i, path);
    if btree == null {
      return [];
    }
    items := btree.Min(c.store, seen);
  }

  /** `max1`: one of them, whenever an item passes. */
  method Max1At<V(==, !new), S(!new)>(c: Collection<V, S>, i: nat, path: seq<Access<V>>) returns (item: Option<Item<V>>)
    requires Registered(c, i) && Target(c.indexes[i].spec, path).Some? && Target(c.indexes[i].spec, path).value.BTree?
    ensures var less := Target(c.indexes[i].spec, path).value.less;
            var seen := FilterMap(Seen(c.indexes[i].spec, path), c.store.contents);
            match item
            case None => seen == map[]
            case Some(it) =>
              && it.id in GreatestIds(less, seen)
              && it.id in c.store.contents && it.value == Some(c.store.contents[it.id])
  {
    var btree, seen := BTreeAt(c, i, path);
    if btree == null {
      return None;
    }
    item := btree.Max1(c.store, seen);
  }

  /** `min1`: one of them, whenever an item passes. */
  method Min1At<V(==, !new), S(!new)>(c: Collection<V, S>, i: nat, path: seq<Access<V>>) returns (item: Option<Item<V>>)
    requires Registered(c, i) && Target(c.indexes[i].spec, path).Some? && Target(c.indexes[i].spec, path).value.BTree?
    ensures var less := Target(c.indexes[i].spec, path).value.less;
            var seen := FilterMap(Seen(c.indexes[i].spec, path), c.store.contents);
            match item
            case None => seen == map[]
            case Some(it) =>
              && it.id in LeastIds(less, seen)
              && it.id in c.store.contents && it.value == Some(c.store.contents[it.id])
  {
    var btree, seen := BTreeAt(c, i, path);
    if btree == null {
      return None;
    }
    item := btree.Min1(c.store, seen);
  }
}
