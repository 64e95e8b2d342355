/** core/src/indexes/BTreeIndex.ts over a sorted map: the buckets, together with
    their keys in increasing order. */
module BTreeIndexes {
  import opened Updates
  import opened Leaves
  import opened IdMaps
  import opened Bucketing

  ghost predicate Increasing<V(!new)>(less: (V, V) -> bool, keys: seq<V>) {
    forall i, j | 0 <= i < j < |keys| :: less(keys[i], keys[j])
  }

  /** The sorted map lists exactly the given keys, in increasing order. */
  ghost predicate SortedKeys<V(!new)>(less: (V, V) -> bool, keys: seq<V>, all: set<V>) {
    && Increasing(less, keys)
    && (forall k :: k in keys <==> k in all)
  }

  lemma SortedEnds<V(!new)>(less: (V, V) -> bool, keys: seq<V>, all: set<V>)
    requires SortedKeys(less, keys, all)
    ensures keys == [] ==> all == {}
    ensures keys != [] ==> keys[0] in all && keys[|keys| - 1] in all
    ensures keys != [] ==> forall k | k in all :: k == keys[|keys| - 1] || less(k, keys[|keys| - 1])
    ensures keys != [] ==> forall k | k in all :: k == keys[0] || less(keys[0], k)
  {
  }

  function InsertKey<V(==)>(less: (V, V) -> bool, keys: seq<V>, key: V): seq<V> {
    if keys == [] then [key]
    else if keys[0] == key then keys
    else if less(key, keys[0]) then [key] + keys
    else [keys[0]] + InsertKey(less, keys[1..], key)
  }

  function DropKey<V(==)>(keys: seq<V>, key: V): seq<V> {
    if keys == [] then []
    else if keys[0] == key then keys[1..]
    else [keys[0]] + DropKey(keys[1..], key)
  }

  lemma InsertMember<V(!new)>(less: (V, V) -> bool, keys: seq<V>, key: V)
    ensures forall k :: k in InsertKey(less, keys, key) <==> k in keys || k == key
  {
  }

  lemma IncreasingTail<V(!new)>(less: (V, V) -> bool, keys: seq<V>)
    requires Increasing(less, keys) && keys != []
    ensures Increasing(less, keys[1..]) && forall k | k in keys[1..] :: less(keys[0], k)
  {
  }

  lemma IncreasingCons<V(!new)>(less: (V, V) -> bool, key: V, keys: seq<V>)
    requires Increasing(less, keys) && forall k | k in keys :: less(key, k)
    ensures Increasing(less, [key] + keys)
  {
  }

  lemma {:induction false} InsertIncreasing<V(!new)>(less: (V, V) -> bool, keys: seq<V>, key: V)
    requires StrictTotal(less) && Increasing(less, keys)
    ensures Increasing(less, InsertKey(less, keys, key))
  {
    if keys != [] && keys[0] != key {
      IncreasingTail(less, keys);
      if less(key, keys[0]) {
        assert forall k | k in keys :: k == keys[0] || k in keys[1..];
        IncreasingCons(less, key, keys);
      } else {
        InsertIncreasing(less, keys[1..], key);
        InsertMember(less, keys[1..], key);
        IncreasingCons(less, keys[0], InsertKey(less, keys[1..], key));
      }
    }
  }

  lemma {:induction false} DropIncreasing<V(!new)>(less: (V, V) -> bool, keys: seq<V>, key: V)
    requires StrictTotal(less) && Increasing(less, keys)
    ensures Increasing(less, DropKey(keys, key))
    ensures forall k :: k in DropKey(keys, key) <==> k in keys && k != key
  {
    if keys != [] {
      IncreasingTail(less, keys);
      assert keys == [keys[0]] + keys[1..];
      if keys[0] != key {
        DropIncreasing(less, keys[1..], key);
        IncreasingCons(less, keys[0], DropKey(keys[1..], key));
      }
    }
  }

  // ---- getRange ----------------------------------------------------------

  predicate InRange<V(==)>(less: (V, V) -> bool, lo: V, hi: V, k: V) {
    !less(k, lo) && !less(hi, k)
  }

  function KeysIn<V(==)>(less: (V, V) -> bool, keys: seq<V>, lo: V, hi: V): seq<V> {
    if keys == [] then []
    else (if InRange(less, lo, hi, keys[0]) then [keys[0]] else []) + KeysIn(less, keys[1..], lo, hi)
  }

  lemma {:induction false} KeysInCorrect<V(!new)>(less: (V, V) -> bool, keys: seq<V>, lo: V, hi: V)
    requires Increasing(less, keys)
    ensures Increasing(less, KeysIn(less, keys, lo, hi))
    ensures forall k :: k in KeysIn(less, keys, lo, hi) <==> k in keys && !less(k, lo) && !less(hi, k)
  {
    if keys != [] {
      IncreasingTail(less, keys);
      assert keys == [keys[0]] + keys[1..];
      KeysInCorrect(less, keys[1..], lo, hi);
      if InRange(less, lo, hi, keys[0]) {
        IncreasingCons(less, keys[0], KeysIn(less, keys[1..], lo, hi));
      }
    }
  }

  /** `getRange`: the pairs with keys in the interval, in order, at most `limit`. */
  function RangeKeys<V(==)>(less: (V, V) -> bool, keys: seq<V>, lo: V, hi: V, limit: Option<nat>): seq<V> {
    var all := KeysIn(less, keys, lo, hi);
    if limit.Some? && limit.value < |all| then all[..limit.value] else all
  }

  /** The distinct keys of `m` in the interval that are below `key`. */
  ghost function KeysBelow<V(!new)>(less: (V, V) -> bool, m: map<Id, V>, lo: V, hi: V, key: V): set<V> {
    set k | k in m.Values && !less(k, lo) && !less(hi, k) && less(k, key)
  }

  /** Which ids `range` answers: those with a key in the interval, except that a
      limit admits only the lowest so many distinct keys, however many items each has. */
  ghost function InRangeIds<V(!new)>(less: (V, V) -> bool, m: map<Id, V>, lo: V, hi: V, limit: Option<nat>): set<Id> {
    set id | id in m && !less(m[id], lo) && !less(hi, m[id])
             && (limit.Some? ==> |KeysBelow(less, m, lo, hi, m[id])| < limit.value)
  }

  lemma {:induction false} DistinctCount<V(!new)>(less: (V, V) -> bool, keys: seq<V>)
    requires StrictTotal(less) && Increasing(less, keys)
    ensures |set k | k in keys| == |keys|
  {
    if keys != [] {
      IncreasingTail(less, keys);
      DistinctCount(less, keys[1..]);
      assert (set k | k in keys) == (set k | k in keys[1..]) + {keys[0]};
    }
  }

  /** In the sorted list of in-range keys, position is the number of keys below. */
  lemma RankOfKey<V(!new)>(less: (V, V) -> bool, all: seq<V>, m: map<Id, V>, lo: V, hi: V, i: nat)
    requires StrictTotal(less) && Increasing(less, all) && i < |all|
    requires forall k :: k in all <==> k in m.Values && !less(k, lo) && !less(hi, k)
    ensures |KeysBelow(less, m, lo, hi, all[i])| == i
  {
    var below := set k | k in all[..i];
    DistinctCount(less, all[..i]);
    forall k | k in KeysBelow(less, m, lo, hi, all[i])
      ensures k in below
    {
      assert k in all;
      var j :| 0 <= j < |all| && all[j] == k;
      assert j < i;
    }
    forall k | k in below
      ensures k in KeysBelow(less, m, lo, hi, all[i])
    {
      var j :| 0 <= j < |all[..i]| && all[..i][j] == k;
      assert all[j] in all;
    }
    assert KeysBelow(less, m, lo, hi, all[i]) == below;
  }

  lemma RangeKeysMember<V(!new)>(
    less: (V, V) -> bool, keys: seq<V>, m: map<Id, V>, lo: V, hi: V, limit: Option<nat>, id: Id)
    requires StrictTotal(less) && SortedKeys(less, keys, m.Values) && id in m
    ensures m[id] in RangeKeys(less, keys, lo, hi, limit) <==> id in InRangeIds(less, m, lo, hi, limit)
  {
    var all := KeysIn(less, keys, lo, hi);
    KeysInCorrect(less, keys, lo, hi);
    var taken := RangeKeys(less, keys, lo, hi, limit);
    if m[id] in all {
      var i :| 0 <= i < |all| && all[i] == m[id];
      RankOfKey(less, all, m, lo, hi, i);
      if i < |taken| {
        assert taken[i] == m[id];
      }
      if m[id] in taken {
        var j :| 0 <= j < |taken| && taken[j] == m[id];
        assert all[j] == all[i];
      }
    }
  }

  lemma RangeKeysIds<V(!new)>(less: (V, V) -> bool, keys: seq<V>, m: map<Id, V>, lo: V, hi: V, limit: Option<nat>)
    requires StrictTotal(less) && SortedKeys(less, keys, m.Values)
    ensures var taken := RangeKeys(less, keys, lo, hi, limit);
            && Increasing(less, taken)
            && (set id | id in m && m[id] in taken) == InRangeIds(less, m, lo, hi, limit)
  {
    KeysInCorrect(less, keys, lo, hi);
    forall id | id in m
      ensures m[id] in RangeKeys(less, keys, lo, hi, limit) <==> id in InRangeIds(less, m, lo, hi, limit)
    {
      RangeKeysMember(less, keys, m, lo, hi, limit, id);
    }
  }

  /** The ids whose key no other key exceeds. */
  ghost function GreatestIds<V(!new)>(less: (V, V) -> bool, m: map<Id, V>): set<Id> {
    set id | id in m && forall j | j in m :: !less(m[id], m[j])
  }

  /** The ids whose key exceeds no other key. */
  ghost function LeastIds<V(!new)>(less: (V, V) -> bool, m: map<Id, V>): set<Id> {
    set id | id in m && forall j | j in m :: !less(m[j], m[id])
  }

  function Flip<V>(less: (V, V) -> bool): (V, V) -> bool { (a, b) => less(b, a) }

  lemma LeastIsFlipped<V(!new)>(less: (V, V) -> bool, m: map<Id, V>)
    requires StrictTotal(less)
    ensures StrictTotal(Flip(less)) && LeastIds(less, m) == GreatestIds(Flip(less), m)
  {
  }

  class BTreeIndex<V(==, !new)> {
    const less: (V, V) -> bool
    const ix: Buckets<V>
    var keys: seq<V>

    ghost predicate Valid()
      reads this, ix, ix.Repr
    {
      && ix.Valid() && this !in ix.Repr
      && StrictTotal(less)
      && SortedKeys(less, keys, ix.buckets.Keys)
    }

    constructor (less: (V, V) -> bool)
      requires StrictTotal(less)
      ensures Valid() && fresh(ix) && fresh(ix.Repr) && ix.buckets == map[] && this.less == less
    {
      this.less := less;
      ix := new Buckets();
      keys := [];
    }

    method Add(id: Id, value: V)
      requires Valid()
      modifies this, ix.Repr
      ensures Valid() && fresh(ix.Repr - old(ix.Repr))
      ensures ix.buckets == BucketAdd(old(ix.buckets), id, value)
    {
      InsertIncreasing(less, keys, value);
      InsertMember(less, keys, value);
      ix.Add(id, value);
      keys := InsertKey(less, keys, value);
    }

    method Remove(id: Id, oldValue: V)
      requires Valid()
      modifies this, ix.Repr
      ensures Valid() && ix.Repr == old(ix.Repr)
      ensures ix.buckets == BTreeRemove(old(ix.buckets), id, oldValue)
    {
      var found := ix.Remove(id, oldValue);
      if oldValue !in ix.ix {
        DropIncreasing(less, keys, oldValue);
        keys := DropKey(keys, oldValue);
      }
    }

    /** The commit hook. */
    method Run(u: Update<V>)
      requires Valid()
      modifies this, ix.Repr
      ensures Valid() && fresh(ix.Repr - old(ix.Repr))
      ensures ix.buckets == BTreeCommit(old(ix.buckets), u)
    {
      match u {
        case AddUpdate(id, value) =>
          Add(id, value);
        case UpdateUpdate(id, oldValue, newValue) =>
          if oldValue != newValue {
            Remove(id, oldValue);
            Add(id, newValue);
          }
        case DeleteUpdate(id, oldValue) =>
          Remove(id, oldValue);
      }
    }

    // ---- Queries ---------------------------------------------------------

    method CountDistinct() returns (n: nat)
      requires Valid()
      ensures n == |ix.buckets|
    {
      n := ix.Count();
    }

    method Eq(ctx: IdMap<V>, value: V) returns (items: seq<Item<V>>)
      requires Valid() && ctx.Valid()
      ensures ListsItems(items, if value in ix.buckets then ix.buckets[value] else {}, ctx.contents)
    {
      items := ix.Items(ctx, value);
    }

    /** Exactly the items whose key no other key exceeds. */
    method Max(ctx: IdMap<V>, ghost m: map<Id, V>) returns (items: seq<Item<V>>)
      requires Valid() && ctx.Valid() && ix.buckets == BucketsOf(m)
      ensures ListsItems(items, GreatestIds(less, m), ctx.contents)
    {
      SortedEnds(less, keys, m.Values);
      if |keys| == 0 {
        items := [];
        NoValues(m);
      } else {
        var key := keys[|keys| - 1];
        items := ix.Items(ctx, key);
        ExtremeIds(less, m, key);
      }
    }

    /** Exactly the items whose key is below no other key's. */
    method Min(ctx: IdMap<V>, ghost m: map<Id, V>) returns (items: seq<Item<V>>)
      requires Valid() && ctx.Valid() && ix.buckets == BucketsOf(m)
      ensures ListsItems(items, LeastIds(less, m), ctx.contents)
    {
      SortedEnds(less, keys, m.Values);
      if |keys| == 0 {
        items := [];
        NoValues(m);
      } else {
        var key := keys[0];
        items := ix.Items(ctx, key);
        LeastIsFlipped(less, m);
        ExtremeIds(Flip(less), m, key);
      }
    }

    /** Some item with the greatest key, whenever there is an item. */
    method Max1(ctx: IdMap<V>, ghost m: map<Id, V>) returns (item: Option<Item<V>>)
      requires Valid() && ctx.Valid() && ix.buckets == BucketsOf(m)
      ensures item.Some? <==> m != map[]
      ensures item.Some? ==>
                var id := item.value.id;
                && id in m && (forall j | j in m :: !less(m[id], m[j]))
                && item.value.value == if id in ctx.contents then Some(ctx.contents[id]) else None
    {
      var items := Max(ctx, m);
      item := if |items| == 0 then None else Some(items[0]);
      if |items| > 0 {
        assert items[0] in items;
      }
      if m != map[] {
        var id := GreatestId(less, m);
        assert ItemOf(ctx.contents, id) in items;
      }
    }

    method Min1(ctx: IdMap<V>, ghost m: map<Id, V>) returns (item: Option<Item<V>>)
      requires Valid() && ctx.Valid() && ix.buckets == BucketsOf(m)
      ensures item.Some? <==> m != map[]
      ensures item.Some? ==>
                var id := item.value.id;
                && id in m && (forall j | j in m :: !less(m[j], m[id]))
                && item.value.value == if id in ctx.contents then Some(ctx.contents[id]) else None
    {
      var items := Min(ctx, m);
      item := if |items| == 0 then None else Some(items[0]);
      if |items| > 0 {
        assert items[0] in items;
      }
      if m != map[] {
        LeastIsFlipped(less, m);
        var id := GreatestId(Flip(less), m);
        assert ItemOf(ctx.contents, id) in items;
      }
    }

    /** Each item with a key in the closed interval once, keys never decreasing; a limit
        caps the number of distinct keys, and keeps the lowest. It caps the number of
        items, as documented, exactly when they all fit anyway or no admitted key is
        shared. */
    method Range(ctx: IdMap<V>, minValue: V, maxValue: V, limit: Option<nat>, ghost m: map<Id, V>)
      returns (items: seq<Item<V>>)
      requires Valid() && ctx.Valid() && ix.buckets == BucketsOf(m)
      ensures ListsItems(items, InRangeIds(less, m, minValue, maxValue, limit), ctx.contents)
      ensures forall i, j | 0 <= i < j < |items| :: !less(m[items[j].id], m[items[i].id])
      ensures forall item | item in items ::
                item.id in m && !less(m[item.id], minValue) && !less(maxValue, m[item.id])
      ensures limit.None? ==>
                ListsItems(items, (set id | id in m && !less(m[id], minValue) && !less(maxValue, m[id])), ctx.contents)
      ensures limit.Some? ==>
                KeepsLowest(less, m, items, (set id | id in m && !less(m[id], minValue) && !less(maxValue, m[id])))
      ensures limit.Some? ==>
                (|items| <= limit.value <==>
                   |InRangeIds(less, m, minValue, maxValue, None)| <= limit.value
                   || LowestKeysOnce(less, m, minValue, maxValue, limit.value))
    {
      var values := RangeKeys(less, keys, minValue, maxValue, limit);
      RangeKeysIds(less, keys, m, minValue, maxValue, limit);
      items := [];
      for n := 0 to |values|
        invariant RangeSoFar(less, m, values[..n], items, ctx.contents)
      {
        var part := ix.Items(ctx, values[n]);
        AppendRun(less, values, n, m, items, part, ctx.contents);
        items := items + part;
      }
      assert values[..|values|] == values;
      RangeMeans(less, m, minValue, maxValue, limit, items, ctx.contents);
      if limit.Some? {
        BoundHoldsIff(less, m, minValue, maxValue, limit.value, items, ctx.contents);
      }
    }
  }

  /** The items under the given keys, each once, keys never decreasing. */
  ghost predicate RangeSoFar<V(!new)>(
    less: (V, V) -> bool, m: map<Id, V>, keys: seq<V>, items: seq<Item<V>>, store: map<Id, V>)
  {
    && ListsItems(items, (set id | id in m && m[id] in keys), store)
    && forall i, j | 0 <= i < j < |items| ::
         items[i].id in m && items[j].id in m && !less(m[items[j].id], m[items[i].id])
  }

  lemma NoValues<V>(m: map<Id, V>)
    requires m.Values == {}
    ensures m == map[]
  {
  }

  /** The bucket of a greatest key holds exactly the items with no greater key. */
  lemma ExtremeIds<V(!new)>(less: (V, V) -> bool, m: map<Id, V>, key: V)
    requires StrictTotal(less) && key in m.Values
    requires forall k | k in m.Values :: k == key || less(k, key)
    ensures BucketsOf(m)[key] == GreatestIds(less, m)
  {
    var top := GreatestIds(less, m);
    var holder :| holder in m && m[holder] == key;
    forall id | id in m
      ensures id in top <==> m[id] == key
    {
      assert m[id] in m.Values;
      assert forall j | j in m :: m[j] in m.Values;
    }
  }

  lemma {:induction false} GreatestId<V(!new)>(less: (V, V) -> bool, m: map<Id, V>) returns (id: Id)
    requires StrictTotal(less) && m != map[]
    ensures id in m && forall j | j in m :: !less(m[id], m[j])
    decreases |m|
  {
    var one :| one in m;
    var rest := m - {one};
    id := one;
    if rest != map[] {
      var best := GreatestId(less, rest);
      if less(m[one], m[best]) {
        id := best;
      }
      forall j | j in m
        ensures !less(m[id], m[j])
      {
        assert j == one || (j in rest && !less(rest[best], rest[j]));
      }
    } else {
      assert forall j | j in m :: j == one || j in rest;
    }
  }

  /** One more bucket at the end of a range answer. */
  lemma AppendRun<V(!new)>(
    less: (V, V) -> bool, values: seq<V>, n: nat, m: map<Id, V>,
    items: seq<Item<V>>, part: seq<Item<V>>, store: map<Id, V>)
    requires StrictTotal(less) && Increasing(less, values) && n < |values|
    requires RangeSoFar(less, m, values[..n], items, store)
    requires ListsItems(part, if values[n] in BucketsOf(m) then BucketsOf(m)[values[n]] else {}, store)
    ensures RangeSoFar(less, m, values[..n + 1], items + part, store)
  {
  }

  /** What is left out has greater keys than what is listed. */
  ghost predicate KeepsLowest<V(!new)>(less: (V, V) -> bool, m: map<Id, V>, items: seq<Item<V>>, whole: set<Id>)
    requires whole <= m.Keys
  {
    forall item, id | item in items && item.id in m && id in whole ::
      less(m[item.id], m[id]) || exists other :: other in items && other.id == id
  }

  /** A range answer in plain words of the order. */
  lemma RangeMeans<V(!new)>(
    less: (V, V) -> bool, m: map<Id, V>, lo: V, hi: V, limit: Option<nat>, items: seq<Item<V>>, store: map<Id, V>)
    requires StrictTotal(less) && ListsItems(items, InRangeIds(less, m, lo, hi, limit), store)
    ensures forall item | item in items :: item.id in m && !less(m[item.id], lo) && !less(hi, m[item.id])
    ensures limit.None? ==> ListsItems(items, (set id | id in m && !less(m[id], lo) && !less(hi, m[id])), store)
    ensures limit.Some? ==> KeepsLowest(less, m, items, (set id | id in m && !less(m[id], lo) && !less(hi, m[id])))
  {
    var whole := set id | id in m && !less(m[id], lo) && !less(hi, m[id]);
    if limit.None? {
      assert InRangeIds(less, m, lo, hi, None) == whole;
    } else {
      LimitTakesLowest(less, m, lo, hi, limit.value);
      forall item, id | item in items && item.id in m && id in whole
        ensures less(m[item.id], m[id]) || exists other :: other in items && other.id == id
      {
        if id in InRangeIds(less, m, lo, hi, limit) {
          assert ItemOf(store, id) in items;
        }
      }
    }
  }

  /** A range from a key to itself is a lookup of the key. */
  lemma RangeOfOneKey<V(!new)>(less: (V, V) -> bool, m: map<Id, V>, k: V)
    requires StrictTotal(less)
    ensures InRangeIds(less, m, k, k, None) == set id | id in m && m[id] == k
  {
  }

  /** What a limit admits: as many of the distinct keys in the interval as it says, or
      all of them, and the lowest. */
  lemma LimitTakesLowest<V(!new)>(less: (V, V) -> bool, m: map<Id, V>, lo: V, hi: V, n: nat)
    requires StrictTotal(less)
    ensures var ids, whole := InRangeIds(less, m, lo, hi, Some(n)), InRangeIds(less, m, lo, hi, None);
            && ids <= whole <= m.Keys
            && |KeysOf(m, ids)| == (if |KeysOf(m, whole)| <= n then |KeysOf(m, whole)| else n)
            && forall i, j | i in ids && j in whole && j !in ids :: less(m[i], m[j])
  {
    var ids, whole := InRangeIds(less, m, lo, hi, Some(n)), InRangeIds(less, m, lo, hi, None);
    var keys := SortedList(less, m.Values);
    RangeKeyCount(less, keys, m, lo, hi, n);
    SubsetSize(KeysOf(m, ids), KeysOf(m, whole));
    forall i, j | i in ids && j in whole && j !in ids
      ensures less(m[i], m[j])
    {
      if less(m[j], m[i]) {
        SubsetSize(KeysBelow(less, m, lo, hi, m[j]), KeysBelow(less, m, lo, hi, m[i]));
      }
    }
  }

  // ---- What a limit limits -----------------------------------------------

  ghost function KeysOf<V>(m: map<Id, V>, ids: set<Id>): set<V>
    requires ids <= m.Keys
  {
    set id | id in ids :: m[id]
  }

  ghost predicate OneEach<V>(m: map<Id, V>, ids: set<Id>)
    requires ids <= m.Keys
  {
    forall i, j | i in ids && j in ids && m[i] == m[j] :: i == j
  }

  /** There are at most as many keys as items, and as many iff no key repeats. */
  lemma {:induction false} KeysAgainstItems<V(!new)>(m: map<Id, V>, ids: set<Id>)
    requires ids <= m.Keys
    ensures |KeysOf(m, ids)| <= |ids|
    ensures |KeysOf(m, ids)| == |ids| <==> OneEach(m, ids)
  {
    if ids != {} {
      var id :| id in ids;
      var rest := ids - {id};
      KeysAgainstItems(m, rest);
      if m[id] in KeysOf(m, rest) {
        assert KeysOf(m, ids) == KeysOf(m, rest);
        var other :| other in rest && m[other] == m[id];
      } else {
        assert KeysOf(m, ids) == KeysOf(m, rest) + {m[id]};
        assert OneEach(m, rest) ==> OneEach(m, ids);
        assert OneEach(m, ids) ==> OneEach(m, rest);
      }
    } else {
      assert KeysOf(m, ids) == {};
    }
  }

  /** The keys a limited range takes: all of them if they fit, else exactly so many. */
  lemma RangeKeyCount<V(!new)>(less: (V, V) -> bool, keys: seq<V>, m: map<Id, V>, lo: V, hi: V, n: nat)
    requires StrictTotal(less) && SortedKeys(less, keys, m.Values)
    ensures var ids := InRangeIds(less, m, lo, hi, Some(n));
            && ids <= InRangeIds(less, m, lo, hi, None) <= m.Keys
            && |KeysOf(m, ids)| <= n
            && (|KeysOf(m, ids)| == n || ids == InRangeIds(less, m, lo, hi, None))
  {
    var ids := InRangeIds(less, m, lo, hi, Some(n));
    var all, taken := KeysIn(less, keys, lo, hi), RangeKeys(less, keys, lo, hi, Some(n));
    RangeKeysIds(less, keys, m, lo, hi, Some(n));
    RangeKeysIds(less, keys, m, lo, hi, None);
    DistinctCount(less, taken);
    KeysInCorrect(less, keys, lo, hi);
    forall k | k in taken
      ensures k in KeysOf(m, ids)
    {
      assert k in all && k in m.Values;
      var id :| id in m && m[id] == k;
      assert id in ids;
    }
    assert KeysOf(m, ids) == set k | k in taken;
  }

  lemma {:induction false} SortedList<V(!new)>(less: (V, V) -> bool, all: set<V>) returns (keys: seq<V>)
    requires StrictTotal(less)
    ensures SortedKeys(less, keys, all)
  {
    if all == {} {
      keys := [];
    } else {
      var k :| k in all;
      var rest := SortedList(less, all - {k});
      keys := InsertKey(less, rest, k);
      InsertIncreasing(less, rest, k);
      InsertMember(less, rest, k);
    }
  }

  /** Each of the `n` lowest distinct keys of the interval is held by one item only. */
  ghost predicate LowestKeysOnce<V(!new)>(less: (V, V) -> bool, m: map<Id, V>, lo: V, hi: V, n: nat) {
    forall k | k in m.Values && !less(k, lo) && !less(hi, k) && |KeysBelow(less, m, lo, hi, k)| < n ::
      |Holding(m, k)| == 1
  }

  lemma LowestKeysOnceIff<V(!new)>(less: (V, V) -> bool, m: map<Id, V>, lo: V, hi: V, n: nat)
    ensures LowestKeysOnce(less, m, lo, hi, n) <==> OneEach(m, InRangeIds(less, m, lo, hi, Some(n)))
  {
    var ids := InRangeIds(less, m, lo, hi, Some(n));
    if OneEach(m, ids) {
      forall k | k in m.Values && !less(k, lo) && !less(hi, k) && |KeysBelow(less, m, lo, hi, k)| < n
        ensures |Holding(m, k)| == 1
      {
        var id :| id in m && m[id] == k;
        assert Holding(m, k) <= ids;
        assert Holding(m, k) == {id};
      }
    }
    if LowestKeysOnce(less, m, lo, hi, n) {
      forall i, j | i in ids && j in ids && m[i] == m[j]
        ensures i == j
      {
        OneHolder(m, i, j);
      }
    }
  }

  lemma OneHolder<V(!new)>(m: map<Id, V>, i: Id, j: Id)
    requires i in m && j in m && m[i] == m[j] && |Holding(m, m[i])| == 1
    ensures i == j
  {
    if i != j {
      SubsetSize({i, j}, Holding(m, m[i]));
    }
  }

  /** The documentation promises at most `limit` items. That holds exactly when the
      interval has no more items anyway, or each of the `limit` lowest distinct keys in
      it is held by one item only. */
  lemma LimitHoldsIff<V(!new)>(less: (V, V) -> bool, m: map<Id, V>, lo: V, hi: V, n: nat)
    requires StrictTotal(less)
    ensures |InRangeIds(less, m, lo, hi, Some(n))| <= n <==>
              |InRangeIds(less, m, lo, hi, None)| <= n || LowestKeysOnce(less, m, lo, hi, n)
  {
    var ids, whole := InRangeIds(less, m, lo, hi, Some(n)), InRangeIds(less, m, lo, hi, None);
    var keys := SortedList(less, m.Values);
    RangeKeyCount(less, keys, m, lo, hi, n);
    KeysAgainstItems(m, ids);
    LowestKeysOnceIff(less, m, lo, hi, n);
    if |whole| <= n {
      SubsetSize(ids, whole);
    }
  }

  lemma BoundHoldsIff<V(!new)>(
    less: (V, V) -> bool, m: map<Id, V>, lo: V, hi: V, n: nat, items: seq<Item<V>>, store: map<Id, V>)
    requires StrictTotal(less) && ListsItems(items, InRangeIds(less, m, lo, hi, Some(n)), store)
    ensures |items| <= n <==> |InRangeIds(less, m, lo, hi, None)| <= n || LowestKeysOnce(less, m, lo, hi, n)
  {
    ItemsCount(items, InRangeIds(less, m, lo, hi, Some(n)), store);
    LimitHoldsIff(less, m, lo, hi, n);
  }

  lemma {:induction false} SubsetSize<T>(small: set<T>, big: set<T>)
    requires small <= big
    ensures |small| <= |big|
  {
    if small != {} {
      var x :| x in small;
      SubsetSize(small - {x}, big - {x});
    }
  }

  /** Two items under one key. */
  function TwoFives(): map<Id, int> { map[1 := 5, 2 := 5] }

  lemma TwoFivesBuckets()
    ensures BTreeCommit(BTreeCommit(map[], AddUpdate(1, 5)), AddUpdate(2, 5)) == BucketsOf(TwoFives())
  {
    var none: map<Id, int> := map[];
    assert BucketsOf(none) == map[];
    BucketCommitCorrect(none, AddUpdate(1, 5));
    BucketCommitCorrect(Apply(none, AddUpdate(1, 5)), AddUpdate(2, 5));
  }

  method BuildTwoFives(less: (int, int) -> bool) returns (store: IdMap<int>, index: BTreeIndex<int>)
    requires StrictTotal(less)
    ensures store.Valid() && store.contents == TwoFives()
    ensures index.Valid() && index.less == less && index.ix.buckets == BucketsOf(TwoFives())
  {
    store := new IdMap();
    store.Set(1, 5);
    store.Set(2, 5);
    index := new BTreeIndex(less);
    index.Run(AddUpdate(1, 5));
    index.Run(AddUpdate(2, 5));
    TwoFivesBuckets();
  }

  lemma BothFivesInRange(less: (int, int) -> bool, items: seq<Item<int>>)
    requires less == ((a: int, b: int) => a < b)
    requires ListsItems(items, InRangeIds(less, TwoFives(), 0, 9, Some(1)), TwoFives())
    ensures ListsItems(items, {1, 2}, TwoFives()) && |items| >= 2
  {
    assert KeysBelow(less, TwoFives(), 0, 9, 5) == {};
    assert InRangeIds(less, TwoFives(), 0, 9, Some(1)) == {1, 2};
    assert ItemOf(TwoFives(), 1) in items && ItemOf(TwoFives(), 2) in items;
  }

  /** With a limit of one, `range` returns both. */
  method LimitExceeded() returns (items: seq<Item<int>>)
    ensures ListsItems(items, {1, 2}, TwoFives()) && |items| >= 2
  {
    var less := (a: int, b: int) => a < b;
    var store, index := BuildTwoFives(less);
    items := index.Range(store, 0, 9, Some(1), TwoFives());
    BothFivesInRange(less, items);
  }
}
