/** Index trees: leaves under premap, group and zip, and their two-phase update
    protocol (core/src/core/Index.ts, core/src/indexes/ZipIndex.ts).

    All input types of one tree share a universe `V` of values (stored items,
    keys, group names), and all fold states a universe `S`. An unregistered index
    is a `Spec`; a registered one is a `State` of the same shape. `_onUpdate` is
    `Prepare`, the hook it returns is the datum `Hook`, and running the hook is
    `Commit`. A throw is a result that carries the state left behind. */
module Trees {
  import opened Updates
  import opened Folds
  import opened Leaves

  datatype Spec<!V, !S> =
    | Hash
    | Unique
    | BTree(less: (V, V) -> bool)
    | Fold(ops: FoldOps<V, S>)
    | Premap(f: V -> Option<V>, inner: Spec<V, S>)
    | Group(group: V -> V, inner: Spec<V, S>)
    | Zip(specs: seq<Spec<V, S>>)

  datatype State<!V, !S> =
    | HashState(buckets: map<V, set<Id>>)
    | UniqueState(owners: map<V, Id>)
    | BTreeState(buckets: map<V, set<Id>>)
    | FoldState(acc: S)
    | PremapState(inner: State<V, S>)
    | GroupState(groups: map<V, State<V, S>>)
    | ZipState(children: seq<State<V, S>>)

  /** Commit hooks as data: the captured update and where it is bound for. */
  datatype Hook<+V> =
    | Skip
    | Deliver(u: Update<V>)
    | Inner(hook: Hook<V>)
    | InGroup(key: V, hook: Hook<V>)
    | Move(from: V, to: V, del: Update<V>, add: Update<V>)
    | All(hooks: seq<Hook<V>>)

  /** `Conflict` is the `ConflictException`; `TypeError` is a dereference of an
      absent bucket or group. */
  datatype Error = Conflict | TypeError

  datatype Prepared<!V, !S> =
    | Ready(state: State<V, S>, hook: Hook<V>)
    | Threw(state: State<V, S>, error: Error)

  datatype Committed<!V, !S> =
    | Done(state: State<V, S>)
    | Failed(state: State<V, S>, error: Error)

  datatype PreparedAll<!V, !S> =
    | ReadyAll(states: seq<State<V, S>>, hooks: seq<Hook<V>>)
    | ThrewAll(states: seq<State<V, S>>, error: Error)

  datatype CommittedAll<!V, !S> =
    | DoneAll(states: seq<State<V, S>>)
    | FailedAll(states: seq<State<V, S>>, error: Error)

  /** `_register`: a fresh index. */
  function Register<V, S>(spec: Spec<V, S>): State<V, S>
    decreases spec, 1
  {
    match spec
    case Hash => HashState(map[])
    case Unique => UniqueState(map[])
    case BTree(_) => BTreeState(map[])
    case Fold(ops) => FoldState(ops.init)
    case Premap(_, inner) => PremapState(Register(inner))
    case Group(_, _) => GroupState(map[])
    case Zip(specs) => ZipState(RegisterAll(specs))
  }

  function RegisterAll<V, S>(specs: seq<Spec<V, S>>): (states: seq<State<V, S>>)
    ensures |states| == |specs|
    ensures forall i | 0 <= i < |specs| :: states[i] == Register(specs[i])
    decreases specs, 0
  {
    if specs == [] then [] else [Register(specs[0])] + RegisterAll(specs[1..])
  }

  function GetOrCreate<V(==), S>(groups: map<V, State<V, S>>, key: V, inner: Spec<V, S>): map<V, State<V, S>> {
    if key in groups then groups else groups[key := Register(inner)]
  }

  predicate SameKind<V, S>(spec: Spec<V, S>, st: State<V, S>) {
    match spec
    case Hash => st.HashState?
    case Unique => st.UniqueState?
    case BTree(_) => st.BTreeState?
    case Fold(_) => st.FoldState?
    case Premap(_, _) => st.PremapState?
    case Group(_, _) => st.GroupState?
    case Zip(specs) => st.ZipState? && |st.children| == |specs|
  }

  /** `_onUpdate`: may throw, may create empty groups, changes nothing else. */
  function Prepare<V(==), S>(spec: Spec<V, S>, st: State<V, S>, u: Update<V>): Prepared<V, S>
    decreases spec, 1
  {
    if !SameKind(spec, st) then Threw(st, TypeError)
    else
      match spec
      case Unique => if UniqueRefuses(st.owners.Keys, u) then Threw(st, Conflict) else Ready(st, Deliver(u))
      case Premap(f, inner) => PreparePremap(f, inner, st.inner, u)
      case Group(g, inner) => PrepareGroup(g, inner, st.groups, u)
      case Zip(specs) => PrepareZip(specs, st.children, u)
      case _ => Ready(st, Deliver(u))
  }

  function PreparePremap<V(==), S>(f: V -> Option<V>, inner: Spec<V, S>, st: State<V, S>, u: Update<V>): Prepared<V, S>
    decreases inner, 2
  {
    match FilterMapUpdate(f, u)
    case None => Ready(PremapState(st), Skip)
    case Some(w) =>
      match Prepare(inner, st, w)
      case Ready(st', h) => Ready(PremapState(st'), Inner(h))
      case Threw(st', e) => Threw(PremapState(st'), e)
  }

  function PrepareGroup<V(==), S>(g: V -> V, inner: Spec<V, S>, groups: map<V, State<V, S>>, u: Update<V>): Prepared<V, S>
    decreases inner, 3
  {
    match u
    case AddUpdate(_, value) =>
      PrepareIn(inner, GetOrCreate(groups, g(value), inner), g(value), u)
    case UpdateUpdate(id, oldValue, newValue) =>
      if g(oldValue) == g(newValue) then
        PrepareIn(inner, groups, g(oldValue), u)
      else
        Ready(GroupState(GetOrCreate(groups, g(newValue), inner)),
              Move(g(oldValue), g(newValue), DeleteUpdate(id, oldValue), AddUpdate(id, newValue)))
    case DeleteUpdate(_, oldValue) =>
      PrepareIn(inner, groups, g(oldValue), u)
  }

  /** Prepare inside one group, which is looked up without a check. */
  function PrepareIn<V(==), S>(inner: Spec<V, S>, groups: map<V, State<V, S>>, key: V, u: Update<V>): Prepared<V, S>
    decreases inner, 2
  {
    if key !in groups then Threw(GroupState(groups), TypeError)
    else
      match Prepare(inner, groups[key], u)
      case Ready(st, h) => Ready(GroupState(groups[key := st]), InGroup(key, h))
      case Threw(st, e) => Threw(GroupState(groups[key := st]), e)
  }

  /** Ask each index; the first throw leaves the later ones unasked. */
  function PrepareAll<V(==), S>(specs: seq<Spec<V, S>>, states: seq<State<V, S>>, u: Update<V>): PreparedAll<V, S>
    requires |specs| == |states|
    decreases specs, 1
  {
    Gather(states, PrepareAnswers(specs, states, u))
  }

  function PrepareAnswers<V(==), S>(
    specs: seq<Spec<V, S>>, states: seq<State<V, S>>, u: Update<V>): seq<Prepared<V, S>>
    requires |specs| == |states|
    decreases specs, 0
  {
    seq(|specs|, i requires 0 <= i < |specs| => Prepare(specs[i], states[i], u))
  }

  function PrepareZip<V(==), S>(specs: seq<Spec<V, S>>, states: seq<State<V, S>>, u: Update<V>): Prepared<V, S>
    requires |specs| == |states|
    decreases specs, 2
  {
    match PrepareAll(specs, states, u)
    case ReadyAll(states', hooks) => Ready(ZipState(states'), All(hooks))
    case ThrewAll(states', e) => Threw(ZipState(states'), e)
  }

  function Gather<V, S>(states: seq<State<V, S>>, answers: seq<Prepared<V, S>>): PreparedAll<V, S>
    requires |states| == |answers|
  {
    if answers == [] then ReadyAll([], [])
    else
      match answers[0]
      case Threw(st, e) => ThrewAll([st] + states[1..], e)
      case Ready(st, h) =>
        match Gather(states[1..], answers[1..])
        case ReadyAll(rest, hooks) => ReadyAll([st] + rest, [h] + hooks)
        case ThrewAll(rest, e) => ThrewAll([st] + rest, e)
  }

  /** Running a commit hook. A move between groups prepares both inner indexes
      only now, so it can throw with the deletion already done. */
  function Commit<V(==), S>(spec: Spec<V, S>, st: State<V, S>, h: Hook<V>): Committed<V, S>
    decreases spec, 1
  {
    if !SameKind(spec, st) then Failed(st, TypeError)
    else
      match spec
      case Premap(_, inner) => CommitPremap(inner, st.inner, h)
      case Group(_, inner) => CommitGroup(inner, st.groups, h)
      case Zip(specs) =>
        if h.All? && |h.hooks| == |specs| then CommitZip(specs, st.children, h.hooks) else Failed(st, TypeError)
      case _ => if h.Deliver? then CommitLeaf(spec, st, h.u) else Failed(st, TypeError)
  }

  function CommitLeaf<V(==), S>(spec: Spec<V, S>, st: State<V, S>, u: Update<V>): Committed<V, S> {
    match (spec, st)
    case (Hash, HashState(buckets)) =>
      (match HashCommit(buckets, u)
       case Some(buckets') => Done(HashState(buckets'))
       case None => Failed(st, TypeError))
    case (BTree(_), BTreeState(buckets)) => Done(BTreeState(BTreeCommit(buckets, u)))
    case (Fold(ops), FoldState(acc)) => Done(FoldState(FoldStep(ops, acc, u)))
    case (Unique, UniqueState(owners)) => Done(UniqueState(UniqueCommit(owners, u)))
    case _ => Failed(st, TypeError)
  }

  function CommitPremap<V(==), S>(inner: Spec<V, S>, st: State<V, S>, h: Hook<V>): Committed<V, S>
    decreases inner, 2
  {
    match h
    case Skip => Done(PremapState(st))
    case Inner(hook) =>
      (match Commit(inner, st, hook)
       case Done(st') => Done(PremapState(st'))
       case Failed(st', e) => Failed(PremapState(st'), e))
    case _ => Failed(PremapState(st), TypeError)
  }

  function CommitGroup<V(==), S>(inner: Spec<V, S>, groups: map<V, State<V, S>>, h: Hook<V>): Committed<V, S>
    decreases inner, 4
  {
    match h
    case InGroup(key, hook) => CommitIn(inner, groups, key, hook)
    case Move(from, to, del, add) =>
      (match RunIn(inner, groups, from, del)
       case Failed(st', e) => Failed(st', e)
       case Done(st') => RunIn(inner, st'.groups, to, add))
    case _ => Failed(GroupState(groups), TypeError)
  }

  /** Commit inside one group. */
  function CommitIn<V(==), S>(inner: Spec<V, S>, groups: map<V, State<V, S>>, key: V, hook: Hook<V>): Committed<V, S>
    decreases inner, 3
  {
    if key !in groups then Failed(GroupState(groups), TypeError)
    else
      match Commit(inner, groups[key], hook)
      case Done(st) => Done(GroupState(groups[key := st]))
      case Failed(st, e) => Failed(GroupState(groups[key := st]), e)
  }

  function CommitZip<V(==), S>(specs: seq<Spec<V, S>>, states: seq<State<V, S>>, hooks: seq<Hook<V>>): Committed<V, S>
    requires |specs| == |states| == |hooks|
    decreases specs, 2
  {
    match CommitAll(specs, states, hooks)
    case DoneAll(states') => Done(ZipState(states'))
    case FailedAll(states', e) => Failed(ZipState(states'), e)
  }

  /** Prepare and commit at once inside one group. */
  function RunIn<V(==), S>(inner: Spec<V, S>, groups: map<V, State<V, S>>, key: V, u: Update<V>): (r: Committed<V, S>)
    ensures r.state.GroupState?
    decreases inner, 3
  {
    if key !in groups then Failed(GroupState(groups), TypeError)
    else
      match Update1(inner, groups[key], u)
      case Done(st) => Done(GroupState(groups[key := st]))
      case Failed(st, e) => Failed(GroupState(groups[key := st]), e)
  }

  /** `ix._onUpdate(u)()`. */
  function Update1<V(==), S>(spec: Spec<V, S>, st: State<V, S>, u: Update<V>): Committed<V, S>
    decreases spec, 2
  {
    match Prepare(spec, st, u)
    case Threw(st', e) => Failed(st', e)
    case Ready(st', h) => Commit(spec, st', h)
  }

  /** Run each hook; the first throw leaves the later ones unrun. */
  function CommitAll<V(==), S>(specs: seq<Spec<V, S>>, states: seq<State<V, S>>, hooks: seq<Hook<V>>): CommittedAll<V, S>
    requires |specs| == |states| == |hooks|
    decreases specs, 1
  {
    GatherCommits(states, CommitAnswers(specs, states, hooks))
  }

  function CommitAnswers<V(==), S>(
    specs: seq<Spec<V, S>>, states: seq<State<V, S>>, hooks: seq<Hook<V>>): seq<Committed<V, S>>
    requires |specs| == |states| == |hooks|
    decreases specs, 0
  {
    seq(|specs|, i requires 0 <= i < |specs| => Commit(specs[i], states[i], hooks[i]))
  }

  function GatherCommits<V, S>(states: seq<State<V, S>>, answers: seq<Committed<V, S>>): CommittedAll<V, S>
    requires |states| == |answers|
  {
    if answers == [] then DoneAll([])
    else
      match answers[0]
      case Failed(st, e) => FailedAll([st] + states[1..], e)
      case Done(st) =>
        match GatherCommits(states[1..], answers[1..])
        case DoneAll(rest) => DoneAll([st] + rest)
        case FailedAll(rest, e) => FailedAll([st] + rest, e)
  }

  // ---- What a tree stands for --------------------------------------------

  /** The items of `m` that belong to group `key`. */
  function GroupFilter<V(==)>(g: V -> V, key: V): V -> Option<V> {
    v => if g(v) == key then Some(v) else None
  }

  function Part<V(==)>(g: V -> V, key: V, m: map<Id, V>): map<Id, V> {
    FilterMap(GroupFilter(g, key), m)
  }

  /** Every B-tree in the tree has a strict total order on its keys. */
  ghost predicate Ordered<V(!new), S(!new)>(spec: Spec<V, S>) {
    match spec
    case BTree(less) => StrictTotal(less)
    case Premap(_, inner) => Ordered(inner)
    case Group(_, inner) => Ordered(inner)
    case Zip(specs) => forall i | 0 <= i < |specs| :: Ordered(specs[i])
    case _ => true
  }

  /** Every fold in the tree obeys the fold laws, and every B-tree has an order. */
  ghost predicate LawfulTree<V(!new), S(!new)>(spec: Spec<V, S>) {
    match spec
    case Fold(ops) => Lawful(ops)
    case BTree(less) => StrictTotal(less)
    case Premap(_, inner) => LawfulTree(inner)
    case Group(_, inner) => LawfulTree(inner)
    case Zip(specs) => forall i | 0 <= i < |specs| :: LawfulTree(specs[i])
    case _ => true
  }

  /** The state is the denotation of the spec over the items `m`. A group index
      may keep groups that are empty, but misses none that is not. */
  ghost predicate Represents<V(!new), S(!new)>(spec: Spec<V, S>, st: State<V, S>, m: map<Id, V>)
    decreases spec
  {
    match spec
    case Hash => st == HashState(BucketsOf(m))
    case BTree(_) => st == BTreeState(BucketsOf(m))
    case Unique => st.UniqueState? && Inverse(st.owners, m)
    case Fold(ops) => st == FoldState(FoldOf(ops, m))
    case Premap(f, inner) => st.PremapState? && Represents(inner, st.inner, FilterMap(f, m))
    case Group(g, inner) =>
      && st.GroupState?
      && (forall id | id in m :: g(m[id]) in st.groups)
      && (forall k | k in st.groups :: Represents(inner, st.groups[k], Part(g, k, m)))
    case Zip(specs) =>
      && st.ZipState? && |st.children| == |specs|
      && forall i | 0 <= i < |specs| :: Represents(specs[i], st.children[i], m)
  }

  ghost predicate RepresentsAll<V(!new), S(!new)>(specs: seq<Spec<V, S>>, states: seq<State<V, S>>, m: map<Id, V>) {
    && |states| == |specs|
    && forall i | 0 <= i < |specs| :: Represents(specs[i], states[i], m)
  }

  /** The items can be indexed: every unique index in the tree sees each key once. */
  ghost predicate Consistent<V(!new), S(!new)>(spec: Spec<V, S>, m: map<Id, V>)
    decreases spec
  {
    match spec
    case Unique => Injective(m)
    case Premap(f, inner) => Consistent(inner, FilterMap(f, m))
    case Group(g, inner) => forall k :: Consistent(inner, Part(g, k, m))
    case Zip(specs) => forall i | 0 <= i < |specs| :: Consistent(specs[i], m)
    case _ => true
  }

  /** `b` is `a` with, at most, empty groups added. */
  ghost predicate Grows<V(!new), S(!new)>(spec: Spec<V, S>, a: State<V, S>, b: State<V, S>)
    decreases spec
  {
    match spec
    case Premap(_, inner) =>
      a == b || (a.PremapState? && b.PremapState? && Grows(inner, a.inner, b.inner))
    case Group(_, inner) =>
      a == b
      || (&& a.GroupState? && b.GroupState?
          && a.groups.Keys <= b.groups.Keys
          && forall k | k in b.groups ::
               Grows(inner, if k in a.groups then a.groups[k] else Register(inner), b.groups[k]))
    case Zip(specs) =>
      a == b
      || (&& a.ZipState? && b.ZipState? && |a.children| == |b.children| == |specs|
          && forall i | 0 <= i < |specs| :: Grows(specs[i], a.children[i], b.children[i]))
    case _ => a == b
  }
}
