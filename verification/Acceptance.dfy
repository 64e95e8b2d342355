/** Exactly which updates an index tree accepts, and exactly when the two phases
    are all-or-nothing. */
module Acceptance {
  import opened Updates
  import opened Leaves
  import opened Trees
  import opened TreeProofs

  /** Neither phase throws. */
  ghost predicate Accepts<V(!new), S(!new)>(spec: Spec<V, S>, m: map<Id, V>, u: Update<V>) {
    !Refuses(spec, m, u) && !CommitRefuses(spec, m, u)
  }

  lemma {:induction false} OnlyUpdatesSelfConflict<V(!new), S(!new)>(spec: Spec<V, S>, u: Update<V>)
    requires !u.UpdateUpdate?
    ensures !SelfConflict(spec, u)
    decreases spec
  {
    match spec {
      case Premap(f, inner) =>
        if FilterMapUpdate(f, u).Some? {
          OnlyUpdatesSelfConflict(inner, FilterMapUpdate(f, u).value);
        }
      case Zip(specs) =>
        forall i | 0 <= i < |specs|
          ensures !SelfConflict(specs[i], u)
        {
          OnlyUpdatesSelfConflict(specs[i], u);
        }
      case _ =>
    }
  }

  lemma UniqueAccepts<V(!new)>(m: map<Id, V>, u: Update<V>)
    requires Injective(m) && Legal(m, u)
    ensures !UniqueRefuses(m.Values, u) <==>
              Injective(Apply(m, u)) && !(u.UpdateUpdate? && u.oldValue == u.newValue)
  {
    var m' := Apply(m, u);
    match u {
      case AddUpdate(id, value) =>
        if value in m.Values {
          var j :| j in m && m[j] == value;
          assert m'[j] == m'[id];
        }
      case UpdateUpdate(id, oldValue, newValue) =>
        if newValue in m.Values {
          var j :| j in m && m[j] == newValue;
          assert j == id || m'[j] == m'[id];
        }
      case DeleteUpdate(id, oldValue) =>
    }
  }

  /** The exact acceptance condition: an update of indexable items goes through
      both phases without a throw iff the updated items are indexable and no
      unique index would be handed an UPDATE that keeps its key. */
  lemma {:induction false} AcceptedIff<V(!new), S(!new)>(spec: Spec<V, S>, m: map<Id, V>, u: Update<V>)
    requires Consistent(spec, m) && Legal(m, u)
    ensures Accepts(spec, m, u) <==> Consistent(spec, Apply(m, u)) && !SelfConflict(spec, u)
    decreases spec, 0
  {
    match spec {
      case Unique => UniqueAccepts(m, u);
      case Premap(f, inner) =>
        FilterMapSquare(f, m, u);
        if FilterMapUpdate(f, u).Some? {
          AcceptedIff(inner, FilterMap(f, m), FilterMapUpdate(f, u).value);
        }
      case Group(g, inner) =>
        if u.UpdateUpdate? && g(u.oldValue) != g(u.newValue) {
          MoveAcceptedIff(g, inner, m, u);
        } else {
          InGroupAcceptedIff(g, inner, m, u);
        }
      case Zip(specs) =>
        forall i | 0 <= i < |specs|
          ensures Accepts(specs[i], m, u) <==> Consistent(specs[i], Apply(m, u)) && !SelfConflict(specs[i], u)
        {
          AcceptedIff(specs[i], m, u);
        }
      case _ =>
    }
  }

  lemma {:induction false} InGroupAcceptedIff<V(!new), S(!new)>(g: V -> V, inner: Spec<V, S>, m: map<Id, V>, u: Update<V>)
    requires Consistent(Group(g, inner), m) && Legal(m, u)
    requires u.UpdateUpdate? ==> g(u.oldValue) == g(u.newValue)
    ensures Accepts(Group(g, inner), m, u) <==>
              Consistent(Group(g, inner), Apply(m, u)) && !SelfConflict(Group(g, inner), u)
    decreases inner, 1
  {
    var key := g(if u.AddUpdate? then u.value else u.oldValue);
    PartWithin(g, key, m, u);
    AcceptedIff(inner, Part(g, key, m), u);
    if !u.UpdateUpdate? {
      AddDeleteCommit(inner, Part(g, key, m), u);
      OnlyUpdatesSelfConflict(inner, u);
    }
    assert Consistent(Group(g, inner), Apply(m, u)) <==> Consistent(inner, Part(g, key, Apply(m, u))) by {
      assert forall k | k != key :: Part(g, k, Apply(m, u)) == Part(g, k, m);
      assert forall k :: Consistent(inner, Part(g, k, m));
    }
  }

  lemma {:induction false} MoveAcceptedIff<V(!new), S(!new)>(g: V -> V, inner: Spec<V, S>, m: map<Id, V>, u: Update<V>)
    requires Consistent(Group(g, inner), m) && Legal(m, u)
    requires u.UpdateUpdate? && g(u.oldValue) != g(u.newValue)
    ensures Accepts(Group(g, inner), m, u) <==>
              Consistent(Group(g, inner), Apply(m, u)) && !SelfConflict(Group(g, inner), u)
    decreases inner, 1
  {
    var from, to := g(u.oldValue), g(u.newValue);
    var del, add := DeleteUpdate(u.id, u.oldValue), AddUpdate(u.id, u.newValue);
    PartMove(g, m, u);
    AcceptedIff(inner, Part(g, from, m), del);
    AcceptedIff(inner, Part(g, to, m), add);
    AddDeleteCommit(inner, Part(g, from, m), del);
    AddDeleteCommit(inner, Part(g, to, m), add);
    OnlyUpdatesSelfConflict(inner, add);
    OnlyUpdatesSelfConflict(inner, del);
    assert Consistent(Group(g, inner), Apply(m, u)) <==> Consistent(inner, Part(g, to, Apply(m, u))) by {
      assert forall k | k != from && k != to :: Part(g, k, Apply(m, u)) == Part(g, k, m);
      assert forall k :: Consistent(inner, Part(g, k, m));
    }
  }

  /** A unique index that is handed an UPDATE keeping its key is asked while preparing. */
  lemma {:induction false} SelfConflictRefuses<V(!new), S(!new)>(spec: Spec<V, S>, m: map<Id, V>, u: Update<V>)
    requires Legal(m, u) && SelfConflict(spec, u)
    ensures Refuses(spec, m, u)
    decreases spec
  {
    match spec {
      case Premap(f, inner) =>
        FilterMapSquare(f, m, u);
        SelfConflictRefuses(inner, FilterMap(f, m), FilterMapUpdate(f, u).value);
      case Group(g, inner) =>
        PartWithin(g, g(u.oldValue), m, u);
        SelfConflictRefuses(inner, Part(g, g(u.oldValue), m), u);
      case Zip(specs) =>
        var i :| 0 <= i < |specs| && SelfConflict(specs[i], u);
        SelfConflictRefuses(specs[i], m, u);
      case _ =>
    }
  }

  /** Exactly when a hook throws: the prepare phase lets the update pass, but the
      updated items are not indexable. */
  lemma CommitRefusesIff<V(!new), S(!new)>(spec: Spec<V, S>, m: map<Id, V>, u: Update<V>)
    requires Consistent(spec, m) && Legal(m, u)
    ensures !Refuses(spec, m, u) ==> (CommitRefuses(spec, m, u) <==> !Consistent(spec, Apply(m, u)))
  {
    AcceptedIff(spec, m, u);
    if SelfConflict(spec, u) {
      SelfConflictRefuses(spec, m, u);
    }
  }

  // ---- All or nothing ----------------------------------------------------

  predicate NoUnique<V, S>(spec: Spec<V, S>) {
    match spec
    case Unique => false
    case Premap(_, inner) => NoUnique(inner)
    case Group(_, inner) => NoUnique(inner)
    case Zip(specs) => forall i | 0 <= i < |specs| :: NoUnique(specs[i])
    case _ => true
  }

  /** No unique index sits below a group. */
  predicate GroupsFree<V, S>(spec: Spec<V, S>) {
    match spec
    case Premap(_, inner) => GroupsFree(inner)
    case Group(_, inner) => NoUnique(inner)
    case Zip(specs) => forall i | 0 <= i < |specs| :: GroupsFree(specs[i])
    case _ => true
  }

  /** Some group index in the tree sees the item change group. */
  ghost predicate Crosses<V(!new), S(!new)>(spec: Spec<V, S>, u: Update<V>)
    decreases spec
  {
    match spec
    case Premap(f, inner) => FilterMapUpdate(f, u).Some? && Crosses(inner, FilterMapUpdate(f, u).value)
    case Group(g, inner) => u.UpdateUpdate? && (g(u.oldValue) != g(u.newValue) || Crosses(inner, u))
    case Zip(specs) => exists i | 0 <= i < |specs| :: Crosses(specs[i], u)
    case _ => false
  }

  lemma {:induction false} NoUniqueNeverThrows<V(!new), S(!new)>(spec: Spec<V, S>, m: map<Id, V>, u: Update<V>)
    requires NoUnique(spec)
    ensures Accepts(spec, m, u)
    decreases spec
  {
    match spec {
      case Premap(f, inner) =>
        if FilterMapUpdate(f, u).Some? {
          NoUniqueNeverThrows(inner, FilterMap(f, m), FilterMapUpdate(f, u).value);
        }
      case Group(g, inner) =>
        match u {
          case AddUpdate(_, value) =>
            NoUniqueNeverThrows(inner, Part(g, g(value), m), u);
          case UpdateUpdate(id, oldValue, newValue) =>
            NoUniqueNeverThrows(inner, Part(g, g(oldValue), m), u);
            NoUniqueNeverThrows(inner, Part(g, g(newValue), m), AddUpdate(id, newValue));
          case DeleteUpdate(_, _) =>
        }
      case Zip(specs) =>
        forall i | 0 <= i < |specs|
          ensures Accepts(specs[i], m, u)
        {
          NoUniqueNeverThrows(specs[i], m, u);
        }
      case _ =>
    }
  }

  /** When no unique index is below a group, or the item changes no group, every
      throw happens in the prepare phase. */
  lemma {:induction false} ThrowsOnlyInPrepare<V(!new), S(!new)>(spec: Spec<V, S>, m: map<Id, V>, u: Update<V>)
    requires GroupsFree(spec) || !Crosses(spec, u)
    ensures !CommitRefuses(spec, m, u)
    decreases spec
  {
    match spec {
      case Premap(f, inner) =>
        if FilterMapUpdate(f, u).Some? {
          ThrowsOnlyInPrepare(inner, FilterMap(f, m), FilterMapUpdate(f, u).value);
        }
      case Group(g, inner) =>
        if u.UpdateUpdate? {
          if NoUnique(inner) {
            NoUniqueNeverThrows(inner, Part(g, g(u.oldValue), m), u);
            NoUniqueNeverThrows(inner, Part(g, g(u.newValue), m), AddUpdate(u.id, u.newValue));
          } else {
            ThrowsOnlyInPrepare(inner, Part(g, g(u.oldValue), m), u);
          }
        }
      case Zip(specs) =>
        forall i | 0 <= i < |specs|
          ensures !CommitRefuses(specs[i], m, u)
        {
          ThrowsOnlyInPrepare(specs[i], m, u);
        }
      case _ =>
    }
  }

  ghost predicate Submap<V>(small: map<Id, V>, big: map<Id, V>) {
    forall id | id in small :: id in big && big[id] == small[id]
  }

  /** Indexable items stay indexable when some are taken away. */
  lemma {:induction false} ConsistentSub<V(!new), S(!new)>(spec: Spec<V, S>, small: map<Id, V>, big: map<Id, V>)
    requires Consistent(spec, big)
    requires Submap(small, big)
    ensures Consistent(spec, small)
    decreases spec
  {
    match spec {
      case Premap(f, inner) => ConsistentSub(inner, FilterMap(f, small), FilterMap(f, big));
      case Group(g, inner) =>
        forall k
          ensures Consistent(inner, Part(g, k, small))
        {
          ConsistentSub(inner, Part(g, k, small), Part(g, k, big));
        }
      case Zip(specs) =>
        forall i | 0 <= i < |specs|
          ensures Consistent(specs[i], small)
        {
          ConsistentSub(specs[i], small, big);
        }
      case _ =>
    }
  }

  /** Without a fan-out, a commit that throws leaves the tree exactly as if the
      item had been deleted. */
  lemma {:induction false} TornIsDeleted<V(!new), S(!new)>(spec: Spec<V, S>, st: State<V, S>, m: map<Id, V>, u: Update<V>)
    requires NoZip(spec) && Legal(m, u) && Torn(spec, st, m, u)
    ensures Represents(spec, st, m - {u.id})
    decreases spec
  {
    match spec {
      case Premap(f, inner) =>
        FilterMapSquare(f, m, u);
        var w := FilterMapUpdate(f, u).value;
        TornIsDeleted(inner, st.inner, FilterMap(f, m), w);
        assert FilterMap(f, m - {u.id}) == FilterMap(f, m) - {w.id};
      case Group(g, inner) =>
        var key := g(u.oldValue);
        if key == g(u.newValue) {
          PartWithin(g, key, m, u);
          TornIsDeleted(inner, st.groups[key], Part(g, key, m), u);
          PartWithin(g, key, m, DeleteUpdate(u.id, u.oldValue));
        }
      case _ =>
    }
  }

  predicate NoZip<V, S>(spec: Spec<V, S>) {
    match spec
    case Premap(_, inner) => NoZip(inner)
    case Group(_, inner) => NoZip(inner)
    case Zip(_) => false
    case _ => true
  }
}
