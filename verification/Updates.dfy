/** Ids, optional values, and the update stream of core/src/core/Update.ts.

    A map from ids to values is what an index has been told so far. An update is
    `Legal` for such a map when it follows the protocol the indexes rely on: an
    ADD names an absent id, an UPDATE or DELETE names a present id together with
    the value it really holds. */
module Updates {

  datatype Option<+T> = None | Some(value: T)

  const ID_LIMIT: int := 0x1_0000_0000_0000_0000

  /** An unsigned 64-bit id. */
  type Id = n: int | 0 <= n < 0x1_0000_0000_0000_0000

  datatype Update<+V> =
    | AddUpdate(id: Id, value: V)
    | UpdateUpdate(id: Id, oldValue: V, newValue: V)
    | DeleteUpdate(id: Id, oldValue: V)

  predicate Legal<V(==)>(m: map<Id, V>, u: Update<V>) {
    match u
    case AddUpdate(id, _) => id !in m
    case UpdateUpdate(id, oldValue, _) => id in m && m[id] == oldValue
    case DeleteUpdate(id, oldValue) => id in m && m[id] == oldValue
  }

  function Apply<V>(m: map<Id, V>, u: Update<V>): map<Id, V> {
    match u
    case AddUpdate(id, value) => m[id := value]
    case UpdateUpdate(id, _, newValue) => m[id := newValue]
    case DeleteUpdate(id, _) => m - {id}
  }

  predicate LegalStream<V(==)>(m: map<Id, V>, us: seq<Update<V>>)
    decreases us
  {
    us == [] || (Legal(m, us[0]) && LegalStream(Apply(m, us[0]), us[1..]))
  }

  function ApplyStream<V>(m: map<Id, V>, us: seq<Update<V>>): map<Id, V>
    decreases us
  {
    if us == [] then m else ApplyStream(Apply(m, us[0]), us[1..])
  }

  lemma {:induction false} StreamConcat<V>(m: map<Id, V>, us: seq<Update<V>>, vs: seq<Update<V>>)
    ensures ApplyStream(m, us + vs) == ApplyStream(ApplyStream(m, us), vs)
    ensures LegalStream(m, us + vs) <==> LegalStream(m, us) && LegalStream(ApplyStream(m, us), vs)
    decreases us
  {
    if us == [] {
      assert us + vs == vs;
    } else {
      assert (us + vs)[1..] == us[1..] + vs;
      StreamConcat(Apply(m, us[0]), us[1..], vs);
    }
  }

  lemma StreamOfOne<V>(m: map<Id, V>, u: Update<V>)
    ensures LegalStream(m, [u]) <==> Legal(m, u)
    ensures ApplyStream(m, [u]) == Apply(m, u)
  {
  }

  // ---- Rewriting updates through a function ------------------------------

  function MapUpdate<A, B>(f: A -> B, u: Update<A>): Update<B> {
    match u
    case AddUpdate(id, value) => AddUpdate(id, f(value))
    case UpdateUpdate(id, oldValue, newValue) => UpdateUpdate(id, f(oldValue), f(newValue))
    case DeleteUpdate(id, oldValue) => DeleteUpdate(id, f(oldValue))
  }

  function FilterMapUpdate<A, B>(f: A -> Option<B>, u: Update<A>): Option<Update<B>> {
    match u
    case AddUpdate(id, value) =>
      (match f(value)
       case None => None
       case Some(i) => Some(AddUpdate(id, i)))
    case UpdateUpdate(id, oldValue, newValue) =>
      (match (f(oldValue), f(newValue))
       case (None, None) => None
       case (None, Some(new_)) => Some(AddUpdate(id, new_))
       case (Some(old_), None) => Some(DeleteUpdate(id, old_))
       case (Some(old_), Some(new_)) => Some(UpdateUpdate(id, old_, new_)))
    case DeleteUpdate(id, oldValue) =>
      (match f(oldValue)
       case None => None
       case Some(old_) => Some(DeleteUpdate(id, old_)))
  }

  /** What an index behind the partial function `f` should have been told. */
  function FilterMap<A, B>(f: A -> Option<B>, m: map<Id, A>): map<Id, B> {
    map id | id in m && f(m[id]).Some? :: f(m[id]).value
  }

  /** The commuting square: rewriting one update and applying it to the
      filter-mapped map is filter-mapping the updated map, and the rewritten
      update is legal where it is sent. */
  lemma FilterMapSquare<A, B>(f: A -> Option<B>, m: map<Id, A>, u: Update<A>)
    requires Legal(m, u)
    ensures match FilterMapUpdate(f, u)
            case None => FilterMap(f, Apply(m, u)) == FilterMap(f, m)
            case Some(w) =>
              && Legal(FilterMap(f, m), w)
              && FilterMap(f, Apply(m, u)) == Apply(FilterMap(f, m), w)
  {
  }

  /** `mapUpdate` is `filterMapUpdate` at a total function. */
  lemma MapUpdateIsTotalFilterMap<A, B>(f: A -> B, u: Update<A>)
    ensures FilterMapUpdate((a: A) => Some(f(a)), u) == Some(MapUpdate(f, u))
  {
  }

  /** Partial functions compose, with `undefined` propagating. */
  function Compose<A, B, C>(f: A -> Option<B>, g: B -> Option<C>): A -> Option<C> {
    a => match f(a) case None => None case Some(b) => g(b)
  }

  // ---- Rewriting streams -------------------------------------------------

  /** The protocol survives the combinators: what a premap or one group of a group
      index is sent in turn is a legal stream for what it stands for. */
  function RewriteStream<A, B>(f: A -> Option<B>, us: seq<Update<A>>): seq<Update<B>> {
    if us == [] then []
    else
      (match FilterMapUpdate(f, us[0]) case None => [] case Some(w) => [w])
      + RewriteStream(f, us[1..])
  }

  lemma {:induction false} RewriteStreamCorrect<A, B>(f: A -> Option<B>, m: map<Id, A>, us: seq<Update<A>>)
    requires LegalStream(m, us)
    ensures LegalStream(FilterMap(f, m), RewriteStream(f, us))
    ensures ApplyStream(FilterMap(f, m), RewriteStream(f, us)) == FilterMap(f, ApplyStream(m, us))
    decreases us
  {
    if us != [] {
      FilterMapSquare(f, m, us[0]);
      RewriteStreamCorrect(f, Apply(m, us[0]), us[1..]);
      match FilterMapUpdate(f, us[0]) {
        case None =>
          assert RewriteStream(f, us) == RewriteStream(f, us[1..]);
        case Some(w) =>
          StreamOfOne(FilterMap(f, m), w);
          StreamConcat(FilterMap(f, m), [w], RewriteStream(f, us[1..]));
      }
    }
  }

  lemma FilterMapUpdateCompose<A, B, C>(f: A -> Option<B>, g: B -> Option<C>, u: Update<A>)
    ensures FilterMapUpdate(Compose(f, g), u) ==
              match FilterMapUpdate(f, u)
              case None => None
              case Some(w) => FilterMapUpdate(g, w)
  {
  }

  lemma {:induction false} RewriteStreamCompose<A, B, C>(f: A -> Option<B>, g: B -> Option<C>, us: seq<Update<A>>)
    ensures RewriteStream(g, RewriteStream(f, us)) == RewriteStream(Compose(f, g), us)
  {
    if us != [] {
      RewriteStreamCompose(f, g, us[1..]);
      FilterMapUpdateCompose(f, g, us[0]);
      match FilterMapUpdate(f, us[0]) {
        case None => assert RewriteStream(f, us) == RewriteStream(f, us[1..]);
        case Some(w) => assert RewriteStream(f, us)[1..] == RewriteStream(f, us[1..]);
      }
    }
  }
}
