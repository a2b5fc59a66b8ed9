/**
 * The cleanup-finalizer protocol as a transition system: one reconcile worker, one API call per step,
 * interleaved with users who create, edit and delete pools.
 */
module FinalizerProtocol {
  import opened Types

  /** The identity of a pool: namespace and name. */
  datatype Ref = Ref(namespace: string, name: string)

  const CLEANUP: string := "draforge.oaslananka/resourceslice-cleanup"

  /** A stored pool. The API server draws uids and resource versions; it never reuses either. */
  datatype Pool = Pool(ref: Ref, uid: nat, version: nat, finalizers: set<string>, deleting: bool)

  /** The ownership labels of a stored slice; `uid` is None when the label is missing or empty. */
  datatype Labels = Labels(managed: bool, ref: Ref, uid: Option<nat>)

  datatype Store = Store(pools: map<Ref, Pool>, slices: map<string, Labels>, nextUid: nat, nextVersion: nat)

  /** Where the worker is. `todo` is what remains of the pools it listed. */
  datatype Worker =
    | Idle
    | Pools(todo: seq<Pool>)
    | Publishing(pool: Pool, todo: seq<Pool>)
    | Finalizing(pool: Pool, expected: set<string>, listed: seq<(string, Labels)>, todo: seq<Pool>)
    | Sweeping(orphans: seq<string>)

  datatype State = State(store: Store, worker: Worker)

  function OwnershipLabels(p: Pool): Labels {
    Labels(true, p.ref, Some(p.uid))
  }

  /** The slice belongs to the pool by its labels or, without a uid label, by an expected name. */
  predicate Belongs(name: string, l: Labels, p: Pool, expected: set<string>) {
    && l.managed
    && if l.uid.Some? then l.uid.value == p.uid && l.ref == p.ref
       else name in expected && l.ref.name == p.ref.name
  }

  // ---------- the API server ----------

  /** Stores a new version of a pool; a deleting pool whose last finalizer goes is removed. */
  function Put(s: Store, p: Pool): Store {
    if p.deleting && p.finalizers == {} then s.(pools := s.pools - {p.ref}, nextVersion := s.nextVersion + 1)
    else s.(pools := s.pools[p.ref := p.(version := s.nextVersion)], nextVersion := s.nextVersion + 1)
  }

  /** An update is accepted only for the version it was derived from. */
  predicate Accepts(s: Store, p: Pool) {
    p.ref in s.pools && s.pools[p.ref].version == p.version
  }

  // ---------- users ----------

  ghost predicate Create(s: Store, t: Store, ref: Ref, finalizers: set<string>) {
    && ref !in s.pools
    && t == s.(pools := s.pools[ref := Pool(ref, s.nextUid, s.nextVersion, finalizers, false)],
               nextUid := s.nextUid + 1, nextVersion := s.nextVersion + 1)
  }

  /** Users may change anything about a pool but leave the cleanup finalizer alone once it is there. */
  ghost predicate Edit(s: Store, t: Store, ref: Ref, finalizers: set<string>) {
    && ref in s.pools
    && (CLEANUP in s.pools[ref].finalizers ==> CLEANUP in finalizers)
    && t == Put(s, s.pools[ref].(finalizers := finalizers))
  }

  ghost predicate Delete(s: Store, t: Store, ref: Ref) {
    ref in s.pools && t == Put(s, s.pools[ref].(deleting := true))
  }

  /** Others may remove any slice and create or relabel slices that carry no uid label. */
  ghost predicate ForeignSlice(s: Store, t: Store, name: string) {
    || t == s.(slices := s.slices - {name})
    || exists l: Labels | l.uid.None? :: t == s.(slices := s.slices[name := l])
  }

  ghost predicate UserStep(s: State, t: State) {
    && t.worker == s.worker
    && (|| (exists ref, finalizers :: Create(s.store, t.store, ref, finalizers))
        || (exists ref, finalizers :: Edit(s.store, t.store, ref, finalizers))
        || (exists ref :: Delete(s.store, t.store, ref))
        || (exists name :: ForeignSlice(s.store, t.store, name)))
  }

  // ---------- the worker ----------

  /** Lists all pools: a snapshot in some order. */
  ghost predicate List(s: State, t: State) {
    && s.worker.Idle? && t.store == s.store && t.worker.Pools?
    && (forall p :: p in t.worker.todo <==> p.ref in s.store.pools && s.store.pools[p.ref] == p)
    && (forall i, j | 0 <= i < j < |t.worker.todo| :: t.worker.todo[i].ref != t.worker.todo[j].ref)
  }

  /** Deleting pools without the cleanup finalizer are left alone. */
  ghost predicate SkipDeleting(s: State, t: State) {
    && s.worker.Pools? && s.worker.todo != []
    && var p := s.worker.todo[0];
       && p.deleting && CLEANUP !in p.finalizers
       && t == s.(worker := Pools(s.worker.todo[1..]))
  }

  /** A live pool that has the cleanup finalizer in the snapshot is published without another look. */
  ghost predicate FinalizerPresent(s: State, t: State) {
    && s.worker.Pools? && s.worker.todo != []
    && var p := s.worker.todo[0];
       && !p.deleting && CLEANUP in p.finalizers
       && t == s.(worker := Publishing(p, s.worker.todo[1..]))
  }

  /** Otherwise the finalizer is added first; the worker goes on with the stored version. */
  ghost predicate AddFinalizer(s: State, t: State) {
    && s.worker.Pools? && s.worker.todo != []
    && var p := s.worker.todo[0];
       && !p.deleting && CLEANUP !in p.finalizers && Accepts(s.store, p)
       && t.store == Put(s.store, p.(finalizers := p.finalizers + {CLEANUP}))
       && (t.worker.Idle? || t.worker == Publishing(t.store.pools[p.ref], s.worker.todo[1..]))
  }

  /** Creates or overwrites a slice with the pool's ownership labels, or removes one of a faulty pool. */
  ghost predicate Publish(s: State, t: State, name: string) {
    && s.worker.Publishing?
    && (|| t.store == s.store.(slices := s.store.slices[name := OwnershipLabels(s.worker.pool)])
        || t.store == s.store.(slices := s.store.slices - {name}))
    && (t.worker.Idle? || t.worker == s.worker)
  }

  /** Writes the status, which moves the version and leaves finalizers alone, and turns to the next pool. */
  ghost predicate FinishPool(s: State, t: State) {
    && s.worker.Publishing?
    && (|| t.store == s.store
        || (Accepts(s.store, s.worker.pool) && t.store == Put(s.store, s.store.pools[s.worker.pool.ref])))
    && (t.worker.Idle? || t.worker == Pools(s.worker.todo))
  }

  /** Starts finalizing a deleting pool: all slices are listed with their labels. */
  ghost predicate ListSlices(s: State, t: State, expected: set<string>) {
    && s.worker.Pools? && s.worker.todo != []
    && var p := s.worker.todo[0];
       && p.deleting && CLEANUP in p.finalizers
       && t.store == s.store && t.worker.Finalizing?
       && t.worker.pool == p && t.worker.expected == expected && t.worker.todo == s.worker.todo[1..]
       && forall name :: name in s.store.slices ==> (name, s.store.slices[name]) in t.worker.listed
  }

  /** Passes over a listed slice of someone else, or deletes one that belongs to the pool. */
  ghost predicate DeleteListed(s: State, t: State) {
    && s.worker.Finalizing? && s.worker.listed != []
    && var (name, labels) := s.worker.listed[0];
       && (t.worker.Idle? || t.worker == s.worker.(listed := s.worker.listed[1..]))
       && t.store == if Belongs(name, labels, s.worker.pool, s.worker.expected)
                     then s.store.(slices := s.store.slices - {name}) else s.store
  }

  /** Only after the last deletion is the finalizer removed. */
  ghost predicate RemoveFinalizer(s: State, t: State) {
    && s.worker.Finalizing? && s.worker.listed == []
    && Accepts(s.store, s.worker.pool)
    && t.store == Put(s.store, s.worker.pool.(finalizers := s.worker.pool.finalizers - {CLEANUP}))
    && (t.worker.Idle? || t.worker == Pools(s.worker.todo))
  }

  /** After the last pool, the orphaned slices are listed and deleted one by one. */
  ghost predicate Sweep(s: State, t: State) {
    || (s.worker == Pools([]) && t.store == s.store && t.worker.Sweeping?)
    || (s.worker.Sweeping? && s.worker.orphans != []
        && t.store == s.store.(slices := s.store.slices - {s.worker.orphans[0]})
        && (t.worker.Idle? || t.worker == Sweeping(s.worker.orphans[1..])))
  }

  /** The pass ends, or an API call fails without effect, or the worker crashes: the next pass starts over. */
  ghost predicate Abandon(s: State, t: State) {
    t == s.(worker := Idle)
  }

  ghost predicate WorkerStep(s: State, t: State) {
    || List(s, t)
    || SkipDeleting(s, t)
    || FinalizerPresent(s, t)
    || AddFinalizer(s, t)
    || (exists name :: Publish(s, t, name))
    || FinishPool(s, t)
    || (exists expected :: ListSlices(s, t, expected))
    || DeleteListed(s, t)
    || RemoveFinalizer(s, t)
    || Sweep(s, t)
    || Abandon(s, t)
  }

  ghost predicate Next(s: State, t: State) {
    UserStep(s, t) || WorkerStep(s, t)
  }

  // ---------- safety ----------

  /** The pool with this uid is stored, under this identity, with the cleanup finalizer. */
  ghost predicate Guarded(s: Store, ref: Ref, uid: nat) {
    ref in s.pools && s.pools[ref].uid == uid && CLEANUP in s.pools[ref].finalizers
  }

  /** Every slice that carries a uid label is managed and carries the identity of a guarded pool. */
  ghost predicate Safe(s: Store) {
    forall name | name in s.slices && s.slices[name].uid.Some? ::
      s.slices[name].managed && Guarded(s, s.slices[name].ref, s.slices[name].uid.value)
  }

  ghost predicate StoreValid(s: Store) {
    && (forall ref | ref in s.pools ::
          s.pools[ref].ref == ref && s.pools[ref].uid < s.nextUid && s.pools[ref].version < s.nextVersion)
    && (forall a, b | a in s.pools && b in s.pools && a != b ::
          s.pools[a].uid != s.pools[b].uid && s.pools[a].version != s.pools[b].version)
  }

  /** What a snapshot of a pool still says about the store, however old it is. */
  ghost predicate Remembered(s: Store, p: Pool) {
    && p.uid < s.nextUid && p.version < s.nextVersion
    && (forall ref | ref in s.pools && s.pools[ref].uid == p.uid :: ref == p.ref)
    && (Accepts(s, p) ==> s.pools[p.ref] == p)
    && (forall ref | ref in s.pools && s.pools[ref].version == p.version :: ref == p.ref)
    && (CLEANUP in p.finalizers && !p.deleting ==> Guarded(s, p.ref, p.uid))
  }

  ghost predicate TodoValid(s: Store, todo: seq<Pool>) {
    && (forall i | 0 <= i < |todo| :: Remembered(s, todo[i]))
    && (forall i, j | 0 <= i < j < |todo| :: todo[i].ref != todo[j].ref && todo[i].uid != todo[j].uid)
  }

  ghost predicate Apart(p: Pool, todo: seq<Pool>) {
    forall i | 0 <= i < |todo| :: todo[i].ref != p.ref && todo[i].uid != p.uid
  }

  /** Every slice labelled with the pool's uid is still on the list of slices to delete. */
  ghost predicate StillListed(s: Store, w: Worker)
    requires w.Finalizing?
  {
    forall name | name in s.slices && s.slices[name].uid == Some(w.pool.uid) ::
      exists l | l in w.listed :: l.0 == name && Belongs(name, l.1, w.pool, w.expected)
  }

  ghost predicate WorkerValid(s: Store, w: Worker) {
    match w
    case Idle => true
    case Pools(todo) => TodoValid(s, todo)
    case Publishing(p, todo) => Remembered(s, p) && Guarded(s, p.ref, p.uid) && TodoValid(s, todo) && Apart(p, todo)
    case Finalizing(p, _, _, todo) =>
      Remembered(s, p) && p.deleting && TodoValid(s, todo) && Apart(p, todo) && StillListed(s, w)
    case Sweeping(_) => true
  }

  ghost predicate Inv(s: State) {
    StoreValid(s.store) && Safe(s.store) && WorkerValid(s.store, s.worker)
  }

  ghost predicate Init(s: State) {
    StoreValid(s.store) && s.store.slices == map[] && s.worker.Idle?
  }

  // ---------- how the stored pools change ----------

  /** Pools change only by new versions and new uids, and stay guarded, except the pool with uid `except`. */
  ghost predicate Evolves(s: Store, t: Store, except: Option<nat>) {
    && s.nextUid <= t.nextUid && s.nextVersion <= t.nextVersion
    && StoreValid(t)
    && (forall ref | ref in t.pools ::
          || (ref in s.pools && t.pools[ref] == s.pools[ref])
          || (&& t.pools[ref].version >= s.nextVersion
              && ((ref in s.pools && t.pools[ref].uid == s.pools[ref].uid) || t.pools[ref].uid >= s.nextUid)))
    && (forall ref, uid: nat | Guarded(s, ref, uid) && except != Some(uid) :: Guarded(t, ref, uid))
  }

  lemma PutIsValid(s: Store, p: Pool)
    requires StoreValid(s) && p.ref in s.pools && s.pools[p.ref].uid == p.uid
    ensures StoreValid(Put(s, p))
  {
  }

  lemma PutEvolves(s: Store, p: Pool, except: Option<nat>)
    requires StoreValid(s) && p.ref in s.pools && s.pools[p.ref].uid == p.uid
    requires CLEANUP in s.pools[p.ref].finalizers ==> CLEANUP in p.finalizers || except == Some(p.uid)
    ensures Evolves(s, Put(s, p), except)
  {
    PutIsValid(s, p);
    hide StoreValid;
    var t := Put(s, p);
    forall ref, uid: nat | Guarded(s, ref, uid) && except != Some(uid)
      ensures Guarded(t, ref, uid)
    {
      if ref == p.ref { assert CLEANUP in p.finalizers; }
    }
  }

  lemma CreateIsValid(s: Store, t: Store, ref: Ref, finalizers: set<string>)
    requires StoreValid(s) && Create(s, t, ref, finalizers)
    ensures StoreValid(t)
  {
  }

  lemma CreateEvolves(s: Store, t: Store, ref: Ref, finalizers: set<string>)
    requires StoreValid(s) && Create(s, t, ref, finalizers)
    ensures Evolves(s, t, None)
  {
    CreateIsValid(s, t, ref, finalizers);
    hide StoreValid;
  }

  lemma NothingEvolves(s: Store, t: Store)
    requires StoreValid(s) && t.pools == s.pools && t.nextUid == s.nextUid && t.nextVersion == s.nextVersion
    ensures Evolves(s, t, None)
  {
  }

  lemma EvolvedSnapshot(s: Store, t: Store, except: Option<nat>, p: Pool)
    requires StoreValid(s) && Evolves(s, t, except) && Remembered(s, p) && except != Some(p.uid)
    ensures Remembered(t, p)
  {
  }

  lemma EvolvedTodo(s: Store, t: Store, except: Option<nat>, todo: seq<Pool>)
    requires StoreValid(s) && Evolves(s, t, except) && TodoValid(s, todo)
    requires forall i | 0 <= i < |todo| :: except != Some(todo[i].uid)
    ensures TodoValid(t, todo)
  {
  }

  /** Slices may go, or come without a uid label, or come with the identity of a guarded pool. */
  ghost predicate SlicesEvolve(s: Store, t: Store, published: Option<Pool>) {
    forall name | name in t.slices ::
      || (name in s.slices && t.slices[name] == s.slices[name])
      || t.slices[name].uid.None?
      || (published.Some? && t.slices[name] == OwnershipLabels(published.value))
  }

  lemma StaysSafe(s: Store, t: Store, except: Option<nat>, published: Option<Pool>)
    requires Safe(s) && Evolves(s, t, except) && SlicesEvolve(s, t, published)
    requires published.Some? ==> Guarded(t, published.value.ref, published.value.uid)
    requires except.Some? ==> forall name | name in t.slices :: t.slices[name].uid != except
    ensures Safe(t)
  {
  }

  lemma StaysListed(s: Store, t: Store, w: Worker)
    requires w.Finalizing? && StillListed(s, w) && SlicesEvolve(s, t, None)
    ensures StillListed(t, w)
  {
  }

  // ---------- every step keeps the invariant ----------

  lemma UserStoreEvolves(s: State, t: State)
    requires StoreValid(s.store) && UserStep(s, t)
    ensures Evolves(s.store, t.store, None) && SlicesEvolve(s.store, t.store, None)
  {
    hide Evolves, StoreValid;
    if ref, finalizers :| Create(s.store, t.store, ref, finalizers) {
      CreateEvolves(s.store, t.store, ref, finalizers);
    } else if ref, finalizers :| Edit(s.store, t.store, ref, finalizers) {
      StoredUnder(s.store, ref);
      PutEvolves(s.store, s.store.pools[ref].(finalizers := finalizers), None);
    } else if ref :| Delete(s.store, t.store, ref) {
      StoredUnder(s.store, ref);
      PutEvolves(s.store, s.store.pools[ref].(deleting := true), None);
    } else {
      NothingEvolves(s.store, t.store);
    }
  }

  lemma StoredUnder(s: Store, ref: Ref)
    requires StoreValid(s) && ref in s.pools
    ensures s.pools[ref].ref == ref
  {
  }

  lemma UserKeepsInv(s: State, t: State)
    requires Inv(s) && UserStep(s, t)
    ensures Inv(t)
  {
    hide Evolves, Safe, UserStep, SlicesEvolve, TodoValid, Remembered, StillListed, StoreValid;
    UserStoreEvolves(s, t);
    SameWorker(s, t);
    EvolvedIsValid(s.store, t.store, None);
    StaysSafe(s.store, t.store, None, None);
    match s.worker
    case Idle =>
    case Pools(todo) => EvolvedTodo(s.store, t.store, None, todo);
    case Publishing(p, todo) =>
      EvolvedTodo(s.store, t.store, None, todo);
      EvolvedSnapshot(s.store, t.store, None, p);
      StaysGuarded(s.store, t.store, None, p);
    case Finalizing(p, _, _, todo) =>
      EvolvedTodo(s.store, t.store, None, todo);
      EvolvedSnapshot(s.store, t.store, None, p);
      StaysListed(s.store, t.store, s.worker);
    case Sweeping(_) =>
  }

  lemma SameWorker(s: State, t: State)
    requires UserStep(s, t)
    ensures t.worker == s.worker
  {
  }

  lemma EvolvedIsValid(s: Store, t: Store, except: Option<nat>)
    requires Evolves(s, t, except)
    ensures StoreValid(t)
  {
  }

  lemma StaysGuarded(s: Store, t: Store, except: Option<nat>, p: Pool)
    requires Evolves(s, t, except) && Guarded(s, p.ref, p.uid) && except != Some(p.uid)
    ensures Guarded(t, p.ref, p.uid)
  {
  }

  lemma ListKeepsInv(s: State, t: State)
    requires Inv(s) && List(s, t)
    ensures Inv(t)
  {
  }

  lemma TodoTail(s: Store, todo: seq<Pool>)
    requires todo != [] && TodoValid(s, todo)
    ensures TodoValid(s, todo[1..]) && Remembered(s, todo[0]) && Apart(todo[0], todo[1..])
  {
  }

  lemma AddFinalizerKeepsInv(s: State, t: State)
    requires Inv(s) && AddFinalizer(s, t)
    ensures Inv(t)
  {
    hide Safe, SlicesEvolve, TodoValid, Evolves;
    var p := s.worker.todo[0];
    TodoTail(s.store, s.worker.todo);
    PutEvolves(s.store, p.(finalizers := p.finalizers + {CLEANUP}), None);
    EvolvedIsValid(s.store, t.store, None);
    NoSliceChanges(s.store, t.store);
    StaysSafe(s.store, t.store, None, None);
    EvolvedTodo(s.store, t.store, None, s.worker.todo[1..]);
  }

  lemma NoSliceChanges(s: Store, t: Store)
    requires t.slices == s.slices
    ensures SlicesEvolve(s, t, None)
  {
  }

  lemma PublishKeepsInv(s: State, t: State, name: string)
    requires Inv(s) && Publish(s, t, name)
    ensures Inv(t)
  {
    hide Safe, TodoValid, Evolves, Remembered;
    var p, todo := s.worker.pool, s.worker.todo;
    NothingEvolves(s.store, t.store);
    EvolvedIsValid(s.store, t.store, None);
    StaysGuarded(s.store, t.store, None, p);
    StaysSafe(s.store, t.store, None, Some(p));
    EvolvedTodo(s.store, t.store, None, todo);
    EvolvedSnapshot(s.store, t.store, None, p);
  }

  lemma FinishPoolKeepsInv(s: State, t: State)
    requires Inv(s) && FinishPool(s, t)
    ensures Inv(t)
  {
    hide Safe, TodoValid, Evolves, Remembered, SlicesEvolve;
    var p, todo := s.worker.pool, s.worker.todo;
    if t.store == s.store {
      NothingEvolves(s.store, t.store);
    } else {
      PutEvolves(s.store, s.store.pools[p.ref], None);
    }
    EvolvedIsValid(s.store, t.store, None);
    NoSliceChanges(s.store, t.store);
    StaysSafe(s.store, t.store, None, None);
    EvolvedTodo(s.store, t.store, None, todo);
  }

  /** Listing the slices puts every slice that carries the pool's uid on the list. */
  lemma ListSlicesKeepsInv(s: State, t: State, expected: set<string>)
    requires Inv(s) && ListSlices(s, t, expected)
    ensures Inv(t)
  {
  }

  lemma DeleteListedKeepsInv(s: State, t: State)
    requires Inv(s) && DeleteListed(s, t)
    ensures Inv(t)
  {
  }

  /** When the finalizer is removed, no slice carries the pool's uid any more. */
  lemma RemoveFinalizerKeepsInv(s: State, t: State)
    requires Inv(s) && RemoveFinalizer(s, t)
    ensures Inv(t)
    ensures forall name | name in t.store.slices :: t.store.slices[name].uid != Some(s.worker.pool.uid)
  {
    hide Safe, TodoValid, Evolves, SlicesEvolve;
    var p, todo := s.worker.pool, s.worker.todo;
    PutEvolves(s.store, p.(finalizers := p.finalizers - {CLEANUP}), Some(p.uid));
    EvolvedIsValid(s.store, t.store, Some(p.uid));
    NoSliceChanges(s.store, t.store);
    StaysSafe(s.store, t.store, Some(p.uid), None);
    EvolvedTodo(s.store, t.store, Some(p.uid), todo);
  }

  lemma SweepKeepsInv(s: State, t: State)
    requires Inv(s) && Sweep(s, t)
    ensures Inv(t)
  {
  }

  lemma NextKeepsInv(s: State, t: State)
    requires Inv(s) && Next(s, t)
    ensures Inv(t)
  {
    hide Inv, UserStep, List, AddFinalizer, Publish, FinishPool, ListSlices, DeleteListed, RemoveFinalizer, Sweep;
    if UserStep(s, t) { UserKeepsInv(s, t); }
    else if List(s, t) { ListKeepsInv(s, t); }
    else if SkipDeleting(s, t) || FinalizerPresent(s, t) || Abandon(s, t) { SmallStepKeepsInv(s, t); }
    else if AddFinalizer(s, t) { AddFinalizerKeepsInv(s, t); }
    else if name :| Publish(s, t, name) { PublishKeepsInv(s, t, name); }
    else if FinishPool(s, t) { FinishPoolKeepsInv(s, t); }
    else if expected :| ListSlices(s, t, expected) { ListSlicesKeepsInv(s, t, expected); }
    else if DeleteListed(s, t) { DeleteListedKeepsInv(s, t); }
    else if RemoveFinalizer(s, t) { RemoveFinalizerKeepsInv(s, t); }
    else { SweepKeepsInv(s, t); }
  }

  lemma SmallStepKeepsInv(s: State, t: State)
    requires Inv(s) && (SkipDeleting(s, t) || FinalizerPresent(s, t) || Abandon(s, t))
    ensures Inv(t)
  {
  }

  // ---------- whole runs ----------

  /** Steps of the worker and of users, from any state. */
  ghost predicate Steps(states: seq<State>) {
    states != [] && forall k | 0 <= k < |states| - 1 :: Next(states[k], states[k + 1])
  }

  /** Steps of the worker alone. */
  ghost predicate WorkerRun(states: seq<State>) {
    states != [] && forall k | 0 <= k < |states| - 1 :: WorkerStep(states[k], states[k + 1])
  }

  /** Steps of users alone. */
  ghost predicate UserRun(states: seq<State>) {
    states != [] && forall k | 0 <= k < |states| - 1 :: UserStep(states[k], states[k + 1])
  }

  ghost predicate Run(states: seq<State>) {
    Steps(states) && Init(states[0])
  }

  lemma {:induction false} StepsKeepInv(states: seq<State>, from: nat, i: nat)
    requires Steps(states) && from <= i < |states| && Inv(states[from])
    ensures Inv(states[i])
  {
    hide Next, Inv;
    if from < i {
      StepsKeepInv(states, from, i - 1);
      NextKeepsInv(states[i - 1], states[i]);
    }
  }

  lemma WorkerGoesOn(states: seq<State>, t: State)
    requires Steps(states) && WorkerStep(states[|states| - 1], t)
    ensures Steps(states + [t]) && (WorkerRun(states) ==> WorkerRun(states + [t]))
  {
    hide WorkerStep, UserStep;
  }

  lemma {:induction false} UsersGoOn(states: seq<State>, moves: seq<State>)
    requires Steps(states) && UserRun(moves) && moves[0] == states[|states| - 1]
    ensures Steps(states + moves[1..]) && (states + moves[1..])[|states| + |moves| - 2] == moves[|moves| - 1]
    ensures moves[|moves| - 1].worker == moves[0].worker
    decreases |moves|
  {
    hide WorkerStep;
    if |moves| > 1 {
      SameWorker(moves[0], moves[1]);
      hide UserStep;
      assert states + moves[1..] == states + [moves[1]] + moves[1..][1..];
      UsersGoOn(states + [moves[1]], moves[1..]);
    }
  }

  /** In every reachable state, a slice that carries a pool's uid has that pool stored and guarded. */
  lemma EveryStateIsSafe(states: seq<State>, i: nat)
    requires Run(states) && i < |states|
    ensures Inv(states[i]) && Safe(states[i].store)
  {
    hide Next, StoreValid;
    StepsKeepInv(states, 0, i);
  }

  /** Every step evolves the stored pools; only removing the finalizer leaves one of them unguarded. */
  lemma NextEvolves(s: State, t: State) returns (except: Option<nat>)
    requires Inv(s) && Next(s, t)
    ensures Evolves(s.store, t.store, except)
    ensures except.Some? ==> s.worker.Finalizing? && s.worker.listed == [] && except == Some(s.worker.pool.uid)
  {
    hide Evolves, UserStep, Safe;
    except := None;
    if UserStep(s, t) {
      UserStoreEvolves(s, t);
    } else if AddFinalizer(s, t) {
      var p := s.worker.todo[0];
      TodoTail(s.store, s.worker.todo);
      PutEvolves(s.store, p.(finalizers := p.finalizers + {CLEANUP}), None);
    } else if FinishPool(s, t) && t.store != s.store {
      PutEvolves(s.store, s.store.pools[s.worker.pool.ref], None);
    } else if RemoveFinalizer(s, t) {
      var p := s.worker.pool;
      PutEvolves(s.store, p.(finalizers := p.finalizers - {CLEANUP}), Some(p.uid));
      except := Some(p.uid);
    } else {
      NothingEvolves(s.store, t.store);
    }
  }

  /** No pool vanishes while it owns a slice: once it is gone, no slice carries its uid. */
  lemma NoPoolVanishesOwningSlices(states: seq<State>, i: nat, ref: Ref, name: string)
    requires Steps(states) && i + 1 < |states| && Inv(states[i])
    requires ref in states[i].store.pools
    requires ref !in states[i + 1].store.pools || states[i + 1].store.pools[ref].uid != states[i].store.pools[ref].uid
    ensures name in states[i + 1].store.slices ==>
              states[i + 1].store.slices[name].uid != Some(states[i].store.pools[ref].uid)
  {
    hide Next, WorkerValid;
    NextKeepsInv(states[i], states[i + 1]);
    var s, t := states[i], states[i + 1];
    var except := NextEvolves(s, t);
    assert forall r | r in t.store.pools :: t.store.pools[r].uid != s.store.pools[ref].uid;
  }
}
