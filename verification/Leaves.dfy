/** The commits of the hash, B-tree and unique leaf indexes on plain maps, and the
    maps they ought to hold (core/src/indexes/HashIndex.ts, BTreeIndex.ts and
    UniqueHashIndex.ts). */
module Leaves {
  import opened Updates

  ghost predicate StrictTotal<V(!new)>(less: (V, V) -> bool) {
    && (forall a :: !less(a, a))
    && (forall a, b, c | less(a, b) && less(b, c) :: less(a, c))
    && (forall a, b :: a == b || less(a, b) || less(b, a))
  }

  /** Every value that occurs, with the set of ids holding it; no set is empty. */
  function BucketsOf<V(==)>(m: map<Id, V>): (buckets: map<V, set<Id>>)
    ensures forall k | k in buckets :: buckets[k] != {}
  {
    var buckets := map k | k in m.Values :: set id | id in m && m[id] == k;
    assert forall k | k in buckets :: exists id :: id in m && m[id] == k && id in buckets[k];
    buckets
  }

  /** The ids that hold the value `k`. */
  ghost function Holding<V>(m: map<Id, V>, k: V): set<Id> {
    set id | id in m && m[id] == k
  }

  function BucketAdd<V(==)>(buckets: map<V, set<Id>>, id: Id, value: V): map<V, set<Id>> {
    if value in buckets then buckets[value := buckets[value] + {id}]
    else buckets[value := {id}]
  }

  /** Removal from a bucket known to exist; an emptied bucket goes away. */
  function BucketRemove<V(==)>(buckets: map<V, set<Id>>, id: Id, value: V): map<V, set<Id>>
    requires value in buckets
  {
    var rest := buckets[value] - {id};
    if rest == {} then buckets - {value} else buckets[value := rest]
  }

  /** `HashIndex` dereferences the old bucket unconditionally: `None` is the
      `TypeError` of a missing bucket. */
  function HashCommit<V(==)>(buckets: map<V, set<Id>>, u: Update<V>): Option<map<V, set<Id>>> {
    match u
    case AddUpdate(id, value) => Some(BucketAdd(buckets, id, value))
    case UpdateUpdate(id, oldValue, newValue) =>
      if oldValue !in buckets then None
      else Some(BucketAdd(BucketRemove(buckets, id, oldValue), id, newValue))
    case DeleteUpdate(id, oldValue) =>
      if oldValue !in buckets then None else Some(BucketRemove(buckets, id, oldValue))
  }

  /** `BTreeIndex` tolerates a missing bucket and skips a change to the same key. */
  function BTreeCommit<V(==)>(buckets: map<V, set<Id>>, u: Update<V>): map<V, set<Id>> {
    match u
    case AddUpdate(id, value) => BucketAdd(buckets, id, value)
    case UpdateUpdate(id, oldValue, newValue) =>
      if oldValue == newValue then buckets
      else BucketAdd(BTreeRemove(buckets, id, oldValue), id, newValue)
    case DeleteUpdate(id, oldValue) => BTreeRemove(buckets, id, oldValue)
  }

  function BTreeRemove<V(==)>(buckets: map<V, set<Id>>, id: Id, value: V): map<V, set<Id>> {
    if value in buckets then BucketRemove(buckets, id, value) else buckets
  }

  lemma BucketAddCorrect<V>(m: map<Id, V>, id: Id, value: V)
    requires id !in m
    ensures BucketAdd(BucketsOf(m), id, value) == BucketsOf(m[id := value])
  {
    var m' := m[id := value];
    var l, r := BucketAdd(BucketsOf(m), id, value), BucketsOf(m');
    assert id in m' && m'[id] == value;
    assert forall i | i in m :: i in m' && m'[i] == m[i];
    assert l.Keys == r.Keys;
    forall k | k in l
      ensures l[k] == r[k]
    {
    }
  }

  lemma BucketRemoveCorrect<V>(m: map<Id, V>, id: Id)
    requires id in m
    ensures m[id] in BucketsOf(m)
    ensures BucketRemove(BucketsOf(m), id, m[id]) == BucketsOf(m - {id})
  {
    var m' := m - {id};
    var b := BucketsOf(m);
    var l, r := BucketRemove(b, id, m[id]), BucketsOf(m');
    var rest := b[m[id]] - {id};
    assert forall i | i in m' :: i in m && m'[i] == m[i];
    assert m[id] in r <==> rest != {} by {
      if m[id] in r {
        var i :| i in m' && m'[i] == m[id];
        assert i in rest;
      }
      if rest != {} {
        var i :| i in rest;
        assert i in m' && m'[i] == m[id];
      }
    }
    forall k | k != m[id]
      ensures k in l <==> k in r
    {
      if k in l {
        var i :| i in m && m[i] == k;
        assert i in m' && m'[i] == k;
      }
    }
    assert l.Keys == r.Keys;
    forall k | k in l
      ensures l[k] == r[k]
    {
    }
  }

  /** Hash and B-tree commits agree on legal updates, both giving the buckets of
      the updated contents, and the hash index never meets a missing bucket. */
  lemma BucketCommitCorrect<V>(m: map<Id, V>, u: Update<V>)
    requires Legal(m, u)
    ensures HashCommit(BucketsOf(m), u) == Some(BucketsOf(Apply(m, u)))
    ensures BTreeCommit(BucketsOf(m), u) == BucketsOf(Apply(m, u))
  {
    match u {
      case AddUpdate(id, value) =>
        BucketAddCorrect(m, id, value);
      case UpdateUpdate(id, oldValue, newValue) =>
        BucketRemoveCorrect(m, id);
        BucketAddCorrect(m - {id}, id, newValue);
        assert (m - {id})[id := newValue] == m[id := newValue];
        if oldValue == newValue {
          assert m[id := newValue] == m;
        }
      case DeleteUpdate(id, oldValue) =>
        BucketRemoveCorrect(m, id);
    }
  }

  /** Hash and B-tree commits over a stream. */
  function HashRun<V(==)>(buckets: map<V, set<Id>>, us: seq<Update<V>>): Option<map<V, set<Id>>>
    decreases us
  {
    if us == [] then Some(buckets)
    else
      match HashCommit(buckets, us[0])
      case None => None
      case Some(buckets') => HashRun(buckets', us[1..])
  }

  function BTreeRun<V(==)>(buckets: map<V, set<Id>>, us: seq<Update<V>>): map<V, set<Id>>
    decreases us
  {
    if us == [] then buckets else BTreeRun(BTreeCommit(buckets, us[0]), us[1..])
  }

  /** Fed the same legal stream, a hash and a B-tree index hold the same buckets, one
      per distinct value present; the hash index never meets a missing bucket. */
  lemma {:induction false} BucketsAgree<V(!new)>(m: map<Id, V>, us: seq<Update<V>>)
    requires LegalStream(m, us)
    ensures HashRun(BucketsOf(m), us) == Some(BTreeRun(BucketsOf(m), us))
    ensures BTreeRun(BucketsOf(m), us) == BucketsOf(ApplyStream(m, us))
    ensures |BTreeRun(BucketsOf(m), us)| == |ApplyStream(m, us).Values|
    decreases us
  {
    if us == [] {
      assert BucketsOf(m).Keys == m.Values;
    } else {
      BucketCommitCorrect(m, us[0]);
      BucketsAgree(Apply(m, us[0]), us[1..]);
    }
  }

  /** In any state, legal history or not: the two commits do the same exactly if the
      bucket that the hash index dereferences is there and, when the key stays, the id
      is in it. */
  lemma HashIsBTreeIff<V>(buckets: map<V, set<Id>>, u: Update<V>)
    requires forall k | k in buckets :: buckets[k] != {}
    ensures HashCommit(buckets, u) == Some(BTreeCommit(buckets, u)) <==>
              match u
              case AddUpdate(_, _) => true
              case UpdateUpdate(id, oldValue, newValue) =>
                oldValue in buckets && (oldValue == newValue ==> id in buckets[oldValue])
              case DeleteUpdate(_, oldValue) => oldValue in buckets
  {
    if u.UpdateUpdate? && u.oldValue == u.newValue && u.oldValue in buckets {
      var bucket := buckets[u.oldValue];
      var after := BucketAdd(BucketRemove(buckets, u.id, u.oldValue), u.id, u.oldValue);
      assert after[u.oldValue] == bucket + {u.id};
      if u.id in bucket {
        assert bucket + {u.id} == bucket;
        assert after == buckets;
      }
    }
  }

  // ---- The unique index --------------------------------------------------

  function UniqueCommit<V(==)>(owners: map<V, Id>, u: Update<V>): map<V, Id> {
    match u
    case AddUpdate(id, value) => owners[value := id]
    case UpdateUpdate(id, oldValue, newValue) => (owners - {oldValue})[newValue := id]
    case DeleteUpdate(_, oldValue) => owners - {oldValue}
  }

  /** The prepare-phase check: is the added or new key held, by whomever? */
  predicate UniqueRefuses<V(==)>(held: set<V>, u: Update<V>) {
    match u
    case AddUpdate(_, value) => value in held
    case UpdateUpdate(_, _, newValue) => newValue in held
    case DeleteUpdate(_, _) => false
  }

  ghost predicate Injective<V>(m: map<Id, V>) {
    forall i, j | i in m && j in m && m[i] == m[j] :: i == j
  }

  /** `owners` is exactly the inverse of the assignment `m` of keys to ids. */
  ghost predicate Inverse<V>(owners: map<V, Id>, m: map<Id, V>) {
    && (forall k | k in owners :: owners[k] in m && m[owners[k]] == k)
    && (forall id | id in m :: m[id] in owners && owners[m[id]] == id)
  }

  lemma UniqueCommitCorrect<V>(owners: map<V, Id>, m: map<Id, V>, u: Update<V>)
    requires Inverse(owners, m) && Legal(m, u)
    requires !UniqueRefuses(owners.Keys, u)
    ensures Inverse(UniqueCommit(owners, u), Apply(m, u))
  {
  }

  lemma InverseKeys<V>(owners: map<V, Id>, m: map<Id, V>)
    requires Inverse(owners, m)
    ensures owners.Keys == m.Values && Injective(m)
  {
  }

  /** Inverses are unique: the contents determine the unique index's map. */
  lemma InverseUnique<V>(a: map<V, Id>, b: map<V, Id>, m: map<Id, V>)
    requires Inverse(a, m) && Inverse(b, m)
    ensures a == b
  {
  }
}
