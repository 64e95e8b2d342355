/** core/src/util/IdMap.ts: a map keyed by 64-bit ids, kept as a map of maps on the
    high and low halves of the id, and the id set built on it. */
module IdMaps {
  import opened Updates

  const HALF: int := 0x1_0000_0000

  type Half = n: int | 0 <= n < 0x1_0000_0000

  function High(id: Id): Half { id / HALF }

  function Low(id: Id): Half { id % HALF }

  /** `Long.fromBits(low, high, true)`. */
  function Join(high: Half, low: Half): Id { high * HALF + low }

  /** Splitting and rejoining are inverses. */
  lemma SplitJoin(id: Id, high: Half, low: Half)
    ensures Join(High(id), Low(id)) == id
    ensures High(Join(high, low)) == high && Low(Join(high, low)) == low
  {
  }

  /** `flat` is the flat map that the map of maps `nested` stands for, and no inner
      map is empty. */
  ghost predicate Refines<T>(nested: map<Half, map<Half, T>>, flat: map<Id, T>) {
    && (forall h | h in nested :: nested[h] != map[])
    && (forall h: Half, l: Half :: Join(h, l) in flat <==> h in nested && l in nested[h])
    && (forall h: Half, l: Half | Join(h, l) in flat :: flat[Join(h, l)] == nested[h][l])
  }

  lemma SameJoin(h: Half, l: Half, id: Id)
    ensures Join(h, l) == id <==> h == High(id) && l == Low(id)
  {
  }

  /** Lookup by halves is lookup in the flat map. */
  lemma RefinesGet<T>(nested: map<Half, map<Half, T>>, flat: map<Id, T>, id: Id)
    requires Refines(nested, flat)
    ensures id in flat <==> High(id) in nested && Low(id) in nested[High(id)]
    ensures id in flat ==> flat[id] == nested[High(id)][Low(id)]
  {
    SplitJoin(id, 0, 0);
    assert Join(High(id), Low(id)) == id;
  }

  /** The nested map determines the flat one. */
  lemma RefinesUnique<T>(nested: map<Half, map<Half, T>>, a: map<Id, T>, b: map<Id, T>)
    requires Refines(nested, a) && Refines(nested, b)
    ensures a == b
  {
    forall id: Id
      ensures id in a <==> id in b
      ensures id in a ==> a[id] == b[id]
    {
      RefinesGet(nested, a, id);
      RefinesGet(nested, b, id);
    }
  }

  function SetCell<T>(nested: map<Half, map<Half, T>>, key: Id, value: T): map<Half, map<Half, T>> {
    var row := if High(key) in nested then nested[High(key)] else map[];
    nested[High(key) := row[Low(key) := value]]
  }

  function DeleteCell<T>(nested: map<Half, map<Half, T>>, key: Id): map<Half, map<Half, T>> {
    if High(key) !in nested then nested
    else
      var row := nested[High(key)] - {Low(key)};
      if |row| == 0 then nested - {High(key)} else nested[High(key) := row]
  }

  lemma RefinesSet<T>(nested: map<Half, map<Half, T>>, flat: map<Id, T>, key: Id, value: T)
    requires Refines(nested, flat)
    ensures Refines(SetCell(nested, key, value), flat[key := value])
  {
    var nested', flat' := SetCell(nested, key, value), flat[key := value];
    assert Low(key) in nested'[High(key)];
    forall h: Half, l: Half
      ensures Join(h, l) in flat' <==> h in nested' && l in nested'[h]
      ensures Join(h, l) in flat' ==> flat'[Join(h, l)] == nested'[h][l]
    {
      SameJoin(h, l, key);
      assert Join(h, l) in flat <==> h in nested && l in nested[h];
    }
  }

  lemma RefinesDelete<T>(nested: map<Half, map<Half, T>>, flat: map<Id, T>, key: Id)
    requires Refines(nested, flat)
    ensures Refines(DeleteCell(nested, key), flat - {key})
  {
    var nested', flat' := DeleteCell(nested, key), flat - {key};
    forall h: Half, l: Half
      ensures Join(h, l) in flat' <==> h in nested' && l in nested'[h]
      ensures Join(h, l) in flat' ==> flat'[Join(h, l)] == nested'[h][l]
    {
      SameJoin(h, l, key);
      assert Join(h, l) in flat <==> h in nested && l in nested[h];
      if h == High(key) && h in nested {
        var row := nested[h] - {Low(key)};
        assert l in row <==> l in nested[h] && l != Low(key);
      }
    }
  }

  /** No inner map is empty, so the outer map is empty only if there is nothing. */
  lemma RefinesEmpty<T>(nested: map<Half, map<Half, T>>, flat: map<Id, T>)
    requires Refines(nested, flat)
    ensures nested == map[] <==> flat == map[]
  {
    if nested != map[] {
      var h :| h in nested;
      var l :| l in nested[h];
      assert Join(h, l) in flat;
    }
    if flat != map[] {
      var id :| id in flat;
      RefinesGet(nested, flat, id);
    }
  }

  datatype CellCall<+T> = SetCall(key: Id, value: T) | DeleteCall(key: Id)

  function NestedRun<T>(nested: map<Half, map<Half, T>>, calls: seq<CellCall<T>>): map<Half, map<Half, T>>
    decreases calls
  {
    if calls == [] then nested
    else
      NestedRun(
        match calls[0]
        case SetCall(key, value) => SetCell(nested, key, value)
        case DeleteCall(key) => DeleteCell(nested, key),
        calls[1..])
  }

  function FlatRun<T>(flat: map<Id, T>, calls: seq<CellCall<T>>): map<Id, T>
    decreases calls
  {
    if calls == [] then flat
    else
      FlatRun(
        match calls[0]
        case SetCall(key, value) => flat[key := value]
        case DeleteCall(key) => flat - {key},
        calls[1..])
  }

  /** Under every sequence of sets and deletes the map of maps refines a flat map. */
  lemma {:induction false} RunRefines<T>(nested: map<Half, map<Half, T>>, flat: map<Id, T>, calls: seq<CellCall<T>>)
    requires Refines(nested, flat)
    ensures Refines(NestedRun(nested, calls), FlatRun(flat, calls))
    decreases calls
  {
    if calls != [] {
      match calls[0] {
        case SetCall(key, value) =>
          RefinesSet(nested, flat, key, value);
          RunRefines(SetCell(nested, key, value), flat[key := value], calls[1..]);
        case DeleteCall(key) =>
          RefinesDelete(nested, flat, key);
          RunRefines(DeleteCell(nested, key), flat - {key}, calls[1..]);
      }
    }
  }

  class IdMap<T> {
    var nested: map<Half, map<Half, T>>
    ghost var contents: map<Id, T>

    ghost predicate Valid()
      reads this
    {
      Refines(nested, contents)
    }

    constructor ()
      ensures Valid() && contents == map[]
    {
      nested, contents := map[], map[];
    }

    method Get(key: Id) returns (value: Option<T>)
      requires Valid()
      ensures value == if key in contents then Some(contents[key]) else None
    {
      RefinesGet(nested, contents, key);
      if High(key) !in nested {
        return None;
      }
      var m := nested[High(key)];
      value := if Low(key) in m then Some(m[Low(key)]) else None;
    }

    method Set(key: Id, value: T)
      requires Valid()
      modifies this
      ensures Valid() && contents == old(contents)[key := value]
    {
      RefinesSet(nested, contents, key, value);
      var m: map<Half, T> := if High(key) in nested then nested[High(key)] else map[];
      nested := nested[High(key) := m[Low(key) := value]];
      contents := contents[key := value];
    }

    method Delete(key: Id)
      requires Valid()
      modifies this
      ensures Valid() && contents == old(contents) - {key}
    {
      RefinesDelete(nested, contents, key);
      contents := contents - {key};
      if High(key) !in nested {
        return;
      }
      var m := nested[High(key)] - {Low(key)};
      nested := if |m| == 0 then nested - {High(key)} else nested[High(key) := m];
    }

    method Empty() returns (empty: bool)
      requires Valid()
      ensures empty <==> contents == map[]
    {
      RefinesEmpty(nested, contents);
      empty := |nested| == 0;
    }

    /** Each entry exactly once, in no particular order. */
    method Entries() returns (entries: seq<(Id, T)>)
      requires Valid()
      ensures Lists(entries, contents)
    {
      entries := [];
      var highs := nested.Keys;
      ghost var seen: map<Id, T> := map[];
      while highs != {}
        invariant highs <= nested.Keys
        invariant Lists(entries, seen)
        invariant forall h: Half, l: Half :: Join(h, l) in seen <==> Join(h, l) in contents && h !in highs
        invariant forall id | id in seen :: id in contents && seen[id] == contents[id]
        decreases highs
      {
        var high :| high in highs;
        var m := nested[high];
        var lows := m.Keys;
        while lows != {}
          invariant lows <= m.Keys
          invariant Lists(entries, seen)
          invariant forall h: Half, l: Half :: Join(h, l) in seen <==>
              Join(h, l) in contents && (h !in highs || (h == high && l !in lows))
          invariant forall id | id in seen :: id in contents && seen[id] == contents[id]
          decreases lows
        {
          var low :| low in lows;
          var id := Join(high, low);
          assert id in contents && contents[id] == m[low];
          forall h: Half, l: Half
            ensures Join(h, l) == id <==> h == high && l == low
          {
            SplitJoin(0, h, l);
            SplitJoin(0, high, low);
          }
          ListsAdd(entries, seen, id, m[low]);
          entries := entries + [(id, m[low])];
          seen := seen[id := m[low]];
          lows := lows - {low};
        }
        highs := highs - {high};
      }
      forall id | id in contents
        ensures id in seen
      {
        SplitJoin(id, 0, 0);
        assert Join(High(id), Low(id)) in contents;
      }
      assert seen == contents;
    }
  }

  /** `entries` lists the map, each key once. */
  ghost predicate Lists<T>(entries: seq<(Id, T)>, m: map<Id, T>) {
    && (forall i, j | 0 <= i < j < |entries| :: entries[i].0 != entries[j].0)
    && (forall i | 0 <= i < |entries| :: entries[i].0 in m && m[entries[i].0] == entries[i].1)
    && (forall id | id in m :: (id, m[id]) in entries)
  }

  lemma ListsAdd<T>(entries: seq<(Id, T)>, m: map<Id, T>, id: Id, value: T)
    requires Lists(entries, m) && id !in m
    ensures Lists(entries + [(id, value)], m[id := value])
  {
  }

  class IdSet {
    const inner: IdMap<()>

    ghost predicate Valid()
      reads inner
    {
      inner.Valid()
    }

    ghost function Ids(): set<Id>
      reads inner
    {
      inner.contents.Keys
    }

    constructor ()
      ensures Valid() && Ids() == {} && fresh(inner)
    {
      inner := new IdMap();
    }

    constructor Singleton(value: Id)
      ensures Valid() && Ids() == {value} && fresh(inner)
    {
      inner := new IdMap();
      new;
      inner.Set(value, ());
    }

    method Set(value: Id)
      requires Valid()
      modifies inner
      ensures Valid() && Ids() == old(Ids()) + {value}
    {
      inner.Set(value, ());
    }

    method Delete(value: Id)
      requires Valid()
      modifies inner
      ensures Valid() && Ids() == old(Ids()) - {value}
    {
      inner.Delete(value);
    }

    method Has(value: Id) returns (has: bool)
      requires Valid()
      ensures has <==> value in Ids()
    {
      var v := inner.Get(value);
      has := v.Some?;
    }

    method Empty() returns (empty: bool)
      requires Valid()
      ensures empty <==> Ids() == {}
    {
      empty := inner.Empty();
    }

    method Values() returns (ids: seq<Id>)
      requires Valid()
      ensures forall i, j | 0 <= i < j < |ids| :: ids[i] != ids[j]
      ensures forall id :: id in ids <==> id in Ids()
    {
      var entries := inner.Entries();
      ids := [];
      for i := 0 to |entries|
        invariant |ids| == i
        invariant forall j | 0 <= j < i :: ids[j] == entries[j].0
      {
        ids := ids + [entries[i].0];
      }
      forall id | id in Ids()
        ensures id in ids
      {
        assert (id, inner.contents[id]) in entries;
        var k :| 0 <= k < |entries| && entries[k] == (id, inner.contents[id]);
        assert ids[k] == id;
      }
    }
  }
}
