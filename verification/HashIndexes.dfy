/** core/src/indexes/HashIndex.ts: buckets of ids, each a mutable id set. */
module HashIndexes {
  import opened Updates
  import opened Leaves
  import opened IdMaps
  import opened Bucketing

  class HashIndex<V(==, !new)> {
    const ix: Buckets<V>

    constructor ()
      ensures ix.Valid() && fresh(ix.Repr) && ix.buckets == map[]
    {
      ix := new Buckets();
    }

    /** The commit hook: false is the `TypeError` of a missing bucket. */
    method Run(u: Update<V>) returns (ok: bool)
      requires ix.Valid()
      modifies ix.Repr
      ensures ix.Valid() && fresh(ix.Repr - old(ix.Repr))
      ensures ok <==> HashCommit(old(ix.buckets), u).Some?
      ensures ix.buckets == if ok then HashCommit(old(ix.buckets), u).value else old(ix.buckets)
    {
      match u {
        case AddUpdate(id, value) =>
          ix.Add(id, value);
          ok := true;
        case UpdateUpdate(id, oldValue, newValue) =>
          ok := ix.Remove(id, oldValue);
          if ok {
            ix.Add(id, newValue);
          }
        case DeleteUpdate(id, oldValue) =>
          ok := ix.Remove(id, oldValue);
      }
    }

    method CountDistinct() returns (n: nat)
      requires ix.Valid()
      ensures n == |ix.buckets|
    {
      n := ix.Count();
    }

    method Eq(ctx: IdMap<V>, value: V) returns (items: seq<Item<V>>)
      requires ix.Valid() && ctx.Valid()
      ensures ListsItems(items, if value in ix.buckets then ix.buckets[value] else {}, ctx.contents)
    {
      items := ix.Items(ctx, value);
    }
  }
}
