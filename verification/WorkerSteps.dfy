/** The stored pools and slices as the finalizer protocol sees them, and the protocol step behind every write. */
module WorkerSteps {
  import opened Types
  import opened PoolStore
  import FP = FinalizerProtocol

  // ---------- abstraction ----------

  ghost function FinalizerSet(p: Pool): set<string> {
    set f | f in p.finalizers
  }

  /** The protocol's pool carries the version, and the finalizers as a set. */
  ghost predicate Represents(a: FP.Pool, p: Pool, version: nat) {
    && a.ref == p.ref && a.uid == p.uid && a.version == version && a.deleting == p.deleting
    && a.finalizers == FinalizerSet(p)
  }

  ghost predicate PoolsAbstracted(a: FP.Store, s: Store) {
    && a.pools.Keys == s.pools.Keys && a.nextVersion == s.nextVersion && a.nextUid == s.nextUid
    && forall ref | ref in s.pools ::
         s.pools[ref].ref == ref && Represents(a.pools[ref], s.pools[ref], VersionOf(s, ref))
  }

  ghost predicate SlicesAbstracted(a: FP.Store, slices: map<string, SliceObject>) {
    a.slices.Keys == slices.Keys && forall name | name in slices :: a.slices[name] == slices[name].labels
  }

  ghost predicate Abstracts(a: FP.Store, s: Store) {
    PoolsAbstracted(a, s) && SlicesAbstracted(a, s.slices)
  }

  /** Every slice that carries a uid label is managed, and its pool is stored with the cleanup finalizer. */
  ghost predicate SlicesGuarded(s: Store) {
    forall name | name in s.slices && s.slices[name].labels.uid.Some? ::
      var l := s.slices[name].labels;
      l.managed && l.ref in s.pools && s.pools[l.ref].uid == l.uid.value && FP.CLEANUP in s.pools[l.ref].finalizers
  }

  lemma SafeMeansGuarded(a: FP.Store, s: Store)
    requires Abstracts(a, s)
    ensures FP.Safe(a) <==> SlicesGuarded(s)
  {
  }

  /** Pools are stored under their own references. */
  lemma PoolsAreKeyed(a: FP.Store, s: Store)
    requires Abstracts(a, s)
    ensures forall ref | ref in s.pools :: s.pools[ref].ref == ref
  {
  }

  lemma AcceptsAlike(a: FP.Store, s: Store, x: FP.Pool, p: Pool, version: nat)
    requires Abstracts(a, s) && Represents(x, p, version) && Accepts(s, p.ref, version)
    ensures FP.Accepts(a, x)
  {
  }

  /** Storing a pool is the same on either side. */
  lemma PutsAlike(a: FP.Store, s: Store, x: FP.Pool, q: Pool, version: nat)
    requires Abstracts(a, s) && Represents(x, q, version)
    ensures Abstracts(FP.Put(a, x), PutPool(s, q))
    ensures !(q.deleting && q.finalizers == []) ==>
              Represents(FP.Put(a, x).pools[q.ref], q, VersionOf(PutPool(s, q), q.ref))
  {
    assert q.finalizers != [] ==> q.finalizers[0] in FinalizerSet(q);
  }

  // ---------- where the worker is ----------

  /** The worker turns to pool p, listed in this version. */
  ghost predicate AtPool(f: FP.State, p: Pool, version: nat) {
    f.worker.Pools? && f.worker.todo != [] && Represents(f.worker.todo[0], p, version)
  }

  ghost predicate AtPublishing(f: FP.State, p: Pool, version: nat) {
    f.worker.Publishing? && Represents(f.worker.pool, p, version)
  }

  ghost function Labelled(items: seq<(string, SliceObject)>): (r: seq<(string, FP.Labels)>)
    ensures |r| == |items| && forall i | 0 <= i < |items| :: r[i] == (items[i].0, items[i].1.labels)
  {
    seq(|items|, i requires 0 <= i < |items| => (items[i].0, items[i].1.labels))
  }

  ghost predicate AtFinalizing(
    f: FP.State, p: Pool, version: nat, expected: set<string>, items: seq<(string, SliceObject)>)
  {
    && f.worker.Finalizing? && Represents(f.worker.pool, p, version)
    && f.worker.expected == expected && f.worker.listed == Labelled(items)
  }

  // ---------- steps ----------

  lemma ListStep(f: FP.State, s: Store, listing: seq<Pool>) returns (t: FP.State)
    requires f.worker.Idle? && Abstracts(f.store, s) && Lists(listing, s.pools)
    ensures FP.WorkerStep(f, t) && t.store == f.store && t.worker.Pools? && |t.worker.todo| == |listing|
    ensures forall i | 0 <= i < |listing| ::
              Represents(t.worker.todo[i], listing[i], VersionOf(s, listing[i].ref))
  {
    assert forall i | 0 <= i < |listing| ::
        Represents(f.store.pools[listing[i].ref], listing[i], VersionOf(s, listing[i].ref));
    var todo := seq(|listing|, i requires 0 <= i < |listing| => f.store.pools[listing[i].ref]);
    t := f.(worker := FP.Pools(todo));
    TodoIsListing(f.store.pools, listing, todo);
    ListIsStep(f, t);
  }

  lemma TodoIsListing(pools: map<Ref, FP.Pool>, listing: seq<Pool>, todo: seq<FP.Pool>)
    requires |todo| == |listing| && forall i | 0 <= i < |listing| ::
               && listing[i].ref in pools && todo[i] == pools[listing[i].ref] && todo[i].ref == listing[i].ref
    requires forall i, j | 0 <= i < j < |listing| :: listing[i].ref != listing[j].ref
    requires forall ref | ref in pools :: exists i :: 0 <= i < |listing| && listing[i].ref == ref
    ensures forall p: FP.Pool :: p in todo <==> p.ref in pools && pools[p.ref] == p
    ensures forall i, j | 0 <= i < j < |todo| :: todo[i].ref != todo[j].ref
  {
  }

  lemma ListIsStep(f: FP.State, t: FP.State)
    requires FP.List(f, t)
    ensures FP.WorkerStep(f, t)
  {
  }

  lemma SkipStep(f: FP.State, p: Pool, version: nat) returns (t: FP.State)
    requires AtPool(f, p, version) && p.deleting && FP.CLEANUP !in p.finalizers
    ensures FP.WorkerStep(f, t) && t.store == f.store && t.worker == FP.Pools(f.worker.todo[1..])
  {
    t := f.(worker := FP.Pools(f.worker.todo[1..]));
    assert FP.SkipDeleting(f, t);
  }

  lemma PresentStep(f: FP.State, p: Pool, version: nat) returns (t: FP.State)
    requires AtPool(f, p, version) && !p.deleting && FP.CLEANUP in p.finalizers
    ensures FP.WorkerStep(f, t) && t.store == f.store
    ensures AtPublishing(t, p, version) && t.worker.todo == f.worker.todo[1..]
  {
    t := f.(worker := FP.Publishing(f.worker.todo[0], f.worker.todo[1..]));
    assert FP.FinalizerPresent(f, t);
  }

  lemma AddStep(f: FP.State, s: Store, p: Pool, version: nat, q: Pool) returns (t: FP.State)
    requires AtPool(f, p, version) && Abstracts(f.store, s) && Accepts(s, p.ref, version)
    requires !p.deleting && FP.CLEANUP !in p.finalizers && q == p.(finalizers := p.finalizers + [FP.CLEANUP])
    ensures FP.WorkerStep(f, t) && Abstracts(t.store, PutPool(s, q))
    ensures AtPublishing(t, q, VersionOf(PutPool(s, q), q.ref)) && t.worker.todo == f.worker.todo[1..]
  {
    var a := f.worker.todo[0];
    var b := a.(finalizers := a.finalizers + {FP.CLEANUP});
    var store := FP.Put(f.store, b);
    t := FP.State(store, FP.Publishing(store.pools[p.ref], f.worker.todo[1..]));
    assert FinalizerSet(q) == FinalizerSet(p) + {FP.CLEANUP};
    AcceptsAlike(f.store, s, a, p, version);
    PutsAlike(f.store, s, b, q, version);
    assert FP.AddFinalizer(f, t);
  }

  lemma WriteStep(f: FP.State, s: Store, p: Pool, version: nat, name: string, o: SliceObject) returns (t: FP.State)
    requires AtPublishing(f, p, version) && Abstracts(f.store, s) && o.labels == LabelsFor(p)
    ensures FP.WorkerStep(f, t) && t.worker == f.worker
    ensures Abstracts(t.store, s.(slices := s.slices[name := o]))
  {
    t := f.(store := f.store.(slices := f.store.slices[name := LabelsFor(p)]));
    assert FP.Publish(f, t, name);
  }

  lemma RemoveStep(f: FP.State, s: Store, p: Pool, version: nat, name: string) returns (t: FP.State)
    requires AtPublishing(f, p, version) && Abstracts(f.store, s)
    ensures FP.WorkerStep(f, t) && t.worker == f.worker
    ensures Abstracts(t.store, s.(slices := s.slices - {name}))
  {
    t := f.(store := f.store.(slices := f.store.slices - {name}));
    assert FP.Publish(f, t, name);
  }

  /** The status is not part of the protocol's pool, but writing it moves the version. */
  lemma FinishStep(f: FP.State, s: Store, p: Pool, version: nat, status: Status) returns (t: FP.State)
    requires AtPublishing(f, p, version) && Abstracts(f.store, s) && Accepts(s, p.ref, version)
    ensures FP.WorkerStep(f, t) && t.worker == FP.Pools(f.worker.todo)
    ensures Abstracts(t.store, PutPool(s, s.pools[p.ref].(status := Some(status))))
  {
    var a, q := f.store.pools[p.ref], s.pools[p.ref].(status := Some(status));
    t := FP.State(FP.Put(f.store, a), FP.Pools(f.worker.todo));
    assert FinalizerSet(q) == FinalizerSet(s.pools[p.ref]);
    AcceptsAlike(f.store, s, f.worker.pool, p, version);
    PutsAlike(f.store, s, a, q, VersionOf(s, p.ref));
    assert FP.FinishPool(f, t);
  }

  /** A pool without a spec, or with the status it should have, is left as it is. */
  lemma LeaveStep(f: FP.State) returns (t: FP.State)
    requires f.worker.Publishing?
    ensures FP.WorkerStep(f, t) && t == FP.State(f.store, FP.Pools(f.worker.todo))
  {
    t := FP.State(f.store, FP.Pools(f.worker.todo));
    assert FP.FinishPool(f, t);
  }

  lemma ListSlicesStep(
    f: FP.State, s: Store, p: Pool, version: nat, expected: set<string>, items: seq<(string, SliceObject)>)
    returns (t: FP.State)
    requires AtPool(f, p, version) && Abstracts(f.store, s) && Finalizes(p) && ListsSlices(items, s.slices)
    ensures FP.WorkerStep(f, t) && t.store == f.store
    ensures AtFinalizing(t, p, version, expected, items) && t.worker.todo == f.worker.todo[1..]
  {
    t := f.(worker := FP.Finalizing(f.worker.todo[0], expected, Labelled(items), f.worker.todo[1..]));
    forall name | name in f.store.slices ensures (name, f.store.slices[name]) in t.worker.listed {
      var i :| 0 <= i < |items| && items[i] == (name, s.slices[name]);
      assert t.worker.listed[i] == (name, f.store.slices[name]);
    }
    assert FP.ListSlices(f, t, expected);
  }

  /** The next listed slice is passed over, or deleted when it belongs to the pool. */
  lemma ListedStep(
    f: FP.State, s: Store, p: Pool, version: nat, expected: set<string>, items: seq<(string, SliceObject)>)
    returns (t: FP.State)
    requires items != [] && AtFinalizing(f, p, version, expected, items) && Abstracts(f.store, s)
    ensures FP.WorkerStep(f, t)
    ensures AtFinalizing(t, p, version, expected, items[1..]) && t.worker.todo == f.worker.todo
    ensures Abstracts(t.store, if Belongs(items[0].0, items[0].1, p, expected)
                               then s.(slices := s.slices - {items[0].0}) else s)
  {
    var belongs := Belongs(items[0].0, items[0].1, p, expected);
    assert belongs <==> FP.Belongs(items[0].0, items[0].1.labels, f.worker.pool, f.worker.expected);
    assert Labelled(items)[1..] == Labelled(items[1..]);
    t := FP.State(if belongs then f.store.(slices := f.store.slices - {items[0].0}) else f.store,
                  f.worker.(listed := f.worker.listed[1..]));
    assert FP.DeleteListed(f, t);
  }

  lemma ReleaseStep(f: FP.State, s: Store, p: Pool, version: nat, expected: set<string>, q: Pool)
    returns (t: FP.State)
    requires AtFinalizing(f, p, version, expected, []) && Abstracts(f.store, s) && Accepts(s, p.ref, version)
    requires q == p.(finalizers := Without(p.finalizers, FP.CLEANUP))
    ensures FP.WorkerStep(f, t) && t.worker == FP.Pools(f.worker.todo) && Abstracts(t.store, PutPool(s, q))
  {
    var a := f.worker.pool;
    var b := a.(finalizers := a.finalizers - {FP.CLEANUP});
    t := FP.State(FP.Put(f.store, b), FP.Pools(f.worker.todo));
    WithoutIsWithout(p.finalizers, FP.CLEANUP);
    assert FinalizerSet(q) == FinalizerSet(p) - {FP.CLEANUP};
    AcceptsAlike(f.store, s, a, p, version);
    PutsAlike(f.store, s, b, q, version);
    assert FP.RemoveFinalizer(f, t);
  }

  lemma SweepBegins(f: FP.State, orphans: seq<string>) returns (t: FP.State)
    requires f.worker == FP.Pools([])
    ensures FP.WorkerStep(f, t) && t == f.(worker := FP.Sweeping(orphans))
  {
    t := f.(worker := FP.Sweeping(orphans));
    assert FP.Sweep(f, t);
  }

  lemma OrphanStep(f: FP.State, s: Store, name: string, rest: seq<string>) returns (t: FP.State)
    requires f.worker == FP.Sweeping([name] + rest) && Abstracts(f.store, s)
    ensures FP.WorkerStep(f, t) && t.worker == FP.Sweeping(rest)
    ensures Abstracts(t.store, s.(slices := s.slices - {name}))
  {
    t := FP.State(f.store.(slices := f.store.slices - {name}), FP.Sweeping(rest));
    assert f.worker.orphans[1..] == rest;
    assert FP.Sweep(f, t);
  }

  lemma AbandonStep(f: FP.State) returns (t: FP.State)
    ensures FP.WorkerStep(f, t) && t == f.(worker := FP.Idle)
  {
    t := f.(worker := FP.Idle);
    assert FP.Abandon(f, t);
  }
}
