/** Bringing one pool and its slices to where it wants them. */
module Reconciler {
  import opened Types
  import opened ApiServer
  import opened PoolStore
  import opened WorkerSteps
  import FP = FinalizerProtocol

  // ---------- one pool ----------

  /**
   * The slices outside `names` are as they were; those inside are gone, as they were, or carry the
   * pool's own labels, which only a publishing pool adds.
   */
  ghost predicate OnlyTouches(
    before: map<string, SliceObject>, after: map<string, SliceObject>, names: set<string>, p: Pool)
  {
    && (forall name | name !in names ::
          (name in before <==> name in after) && (name in before ==> before[name] == after[name]))
    && (forall name | name in after ::
          (name in before && after[name] == before[name]) || (Publishes(p) && after[name].labels == LabelsFor(p)))
  }

  /** No name of the pool stands for two of its nodes. */
  ghost predicate NodeNamesDistinct(p: Pool, nodes: seq<string>) {
    forall m, n | m in Targets(p, nodes) && n in Targets(p, nodes) ::
      SliceName(p.ref, m) == SliceName(p.ref, n) ==> m == n
  }

  method BuildDevices(spec: PoolSpec, count: int) returns (devices: seq<Device>)
    ensures devices == DeviceList(spec, count)
  {
    devices := [];
    var i := 0;
    while i < count
      invariant 0 <= i && (i <= count || i == 0) && devices == DeviceList(spec, i)
    {
      devices := devices + [DeviceNumber(spec, i)];
      i := i + 1;
    }
  }

  method BuildSlice(p: Pool, node: string, sliceCount: nat) returns (o: SliceObject)
    requires Decode(p).Some?
    ensures o == SliceOn(p, node, sliceCount)
  {
    var spec := Decode(p).value;
    var devices := BuildDevices(spec, if spec.health == "capacity-exhausted" then 0 else spec.deviceCount);
    return SliceObject(LabelsFor(p), spec.health, PROJECT,
                       SliceSpec(spec.driver, node, spec.pool, 1, sliceCount, devices));
  }

  /** The pool is stored as the worker knows it. */
  ghost predicate Current(s: Store, p: Pool, version: nat) {
    p.ref in s.pools && s.pools[p.ref] == p && VersionOf(s, p.ref) == version
  }

  /** Nothing but slices may differ. */
  ghost predicate SlicesOnly(s: Store, t: Store) {
    t == s.(slices := t.slices)
  }

  /** The versions of all other pools are as they were. */
  ghost predicate VersionsKept(s: Store, t: Store, changed: Ref) {
    forall ref | ref != changed :: VersionOf(t, ref) == VersionOf(s, ref)
  }

  /** Gets, compares, and creates or updates only when something differs. */
  method EnsureSlice(c: Cluster, p: Pool, version: nat, name: string, desired: SliceObject) returns (ok: bool)
    requires c.Linked() && AtPublishing(c.Now(), p, version) && desired.labels == LabelsFor(p)
    modifies c`calls, c`store, c`writes, c`run
    ensures c.Linked() && old(c.run) <= c.run && c.Now().worker == old(c.Now()).worker
    ensures Alone(c.env) ==>
              c.store == if ok then old(c.store).(slices := old(c.store.slices)[name := desired]) else old(c.store)
    ensures Alone(c.env) && StoredSlice(old(c.store), name) == Some(desired) ==>
              c.store == old(c.store) && c.writes == old(c.writes)
    ensures Alone(c.env) && Reliable(c.up) ==> ok
  {
    hide Abstracts, Lawful, Alone, FP.Steps, FP.WorkerRun, FP.WorkerStep;
    var existing;
    ok, existing := c.GetSlice(name);
    if !ok {
      return;
    }
    if existing == Some(desired) {
      assert c.store.slices[name := desired] == c.store.slices;
      return;
    }
    ghost var was;
    ok, was := c.PutSlice(name, existing, desired);
    if ok {
      ghost var next := WriteStep(c.Now(), was, p, version, name, desired);
      c.Follow(next, was);
    }
  }

  /** What a pool asks of the slices is already so. */
  ghost predicate SlicesAsWanted(s: Store, p: Pool) {
    && (Publishes(p) ==> forall n | n in Targets(p, s.nodes) ::
          SliceName(p.ref, n) in s.slices && s.slices[SliceName(p.ref, n)] == Desired(p, n, s.nodes))
    && (Disappears(p) ==> forall name | name in NamesOf(p, s.nodes) :: name !in s.slices)
  }

  /** A pass has nothing to write for this pool. */
  ghost predicate Quiet(s: Store, p: Pool) {
    PoolAfter(p, s.nodes) == Some(p) && SlicesAsWanted(s, p)
  }

  /** The names under which a pass may delete slices on behalf of this pool. */
  ghost function MayDelete(s: Store, p: Pool): set<string> {
    if Disappears(p) then set name | name in NamesOf(p, s.nodes) && name in s.slices
    else if Finalizes(p) then set name | name in s.slices && Owned(name, s.slices[name], p, s.nodes)
    else {}
  }

  /** The names under which a pass may change slices on behalf of this pool. */
  ghost function Touches(s: Store, p: Pool): set<string> {
    if Finalizes(p) then MayDelete(s, p) else if p.deleting then {} else NamesOf(p, s.nodes)
  }

  method ResolveTargets(c: Cluster, p: Pool) returns (ok: bool, targets: seq<string>)
    requires p.spec.Some? && c.Linked()
    modifies c`calls, c`store, c`run
    ensures c.Linked() && old(c.run) <= c.run && c.Now().worker == old(c.Now()).worker
    ensures targets == Targets(p, c.store.nodes)
    ensures Alone(c.env) ==> c.store == old(c.store)
    ensures Alone(c.env) && Reliable(c.up) ==> ok
  {
    hide Abstracts, Lawful, Alone, FP.Steps, FP.WorkerRun;
    ok := true;
    if p.spec.value.targetNodes == [] {
      ok := c.Call();
    }
    targets := Targets(p, c.store.nodes);
  }

  /** The slice of one node is as the pool wants it. */
  ghost predicate NodeAsWanted(s: Store, p: Pool, node: string) {
    var name := SliceName(p.ref, node);
    && (Publishes(p) ==> name in s.slices && s.slices[name] == Desired(p, node, s.nodes))
    && (Disappears(p) ==> name !in s.slices)
  }

  lemma WantedNodeByNode(s: Store, p: Pool)
    ensures SlicesAsWanted(s, p) <==> forall n | n in Targets(p, s.nodes) :: NodeAsWanted(s, p, n)
  {
  }

  /** Ensures the slice of one node or, for a disappearing pool, deletes it. */
  method ReconcileSlice(c: Cluster, p: Pool, version: nat, node: string, sliceCount: nat, active: set<string>)
    returns (ok: bool, nowActive: set<string>)
    requires (Publishes(p) || Disappears(p)) && c.Linked() && AtPublishing(c.Now(), p, version)
    requires Alone(c.env) ==> sliceCount == |Targets(p, c.store.nodes)|
    modifies c`calls, c`store, c`writes, c`deleted, c`run
    ensures c.Linked() && old(c.run) <= c.run && c.Now().worker == old(c.Now()).worker
    ensures nowActive == if Publishes(p) then active + {SliceName(p.ref, node)} else active
    ensures Alone(c.env) ==>
              && SlicesOnly(old(c.store), c.store)
              && OnlyTouches(old(c.store.slices), c.store.slices, {SliceName(p.ref, node)}, p)
              && old(c.deleted) <= c.deleted && old(c.store.slices).Keys <= c.store.slices.Keys + c.deleted
              && c.deleted <= old(c.deleted) + (
                   if Disappears(p) && SliceName(p.ref, node) in old(c.store.slices)
                   then {SliceName(p.ref, node)} else {})
              && (Disappears(p) ==> c.store.slices.Keys <= old(c.store.slices).Keys)
              && (ok ==> NodeAsWanted(c.store, p, node))
    ensures Alone(c.env) && NodeAsWanted(old(c.store), p, node) ==>
              c.store == old(c.store) && c.writes == old(c.writes)
    ensures Alone(c.env) && Reliable(c.up) ==> ok
  {
    hide Abstracts, Lawful, Alone, FP.Steps, FP.WorkerRun, FP.WorkerStep, SliceName, DeviceList;
    nowActive := active;
    var name := SliceName(p.ref, node);
    if Disappears(p) {
      if name !in c.store.slices { assert c.store.slices - {name} == c.store.slices; }
      ghost var was;
      ok, was := c.DeleteSlice(name);
      if ok {
        ghost var next := RemoveStep(c.Now(), was, p, version, name);
        c.Follow(next, was);
      }
      return;
    }
    nowActive := nowActive + {name};
    var desired := BuildSlice(p, node, sliceCount);
    ok := EnsureSlice(c, p, version, name, desired);
  }

  /** The slices of the first i nodes are as wanted, as far as their names are distinct. */
  ghost predicate WantedSoFar(s: Store, p: Pool, targets: seq<string>, i: nat)
    requires i <= |targets|
  {
    forall j | 0 <= j < i :: NodeAsWanted(s, p, targets[j])
  }

  lemma WantedSoFarNext(s: Store, t: Store, p: Pool, i: nat)
    requires i < |Targets(p, s.nodes)| && s.nodes == t.nodes
    requires WantedSoFar(s, p, Targets(p, s.nodes), i) && (Publishes(p) ==> NodeNamesDistinct(p, s.nodes))
    requires OnlyTouches(s.slices, t.slices, {SliceName(p.ref, Targets(p, s.nodes)[i])}, p)
    requires NodeAsWanted(t, p, Targets(p, s.nodes)[i])
    ensures WantedSoFar(t, p, Targets(p, s.nodes), i + 1)
  {
  }

  lemma TouchesCompose(a: map<string, SliceObject>, b: map<string, SliceObject>, c: map<string, SliceObject>,
                       names: set<string>, name: string, p: Pool)
    requires OnlyTouches(a, b, names, p) && OnlyTouches(b, c, {name}, p) && name in names
    ensures OnlyTouches(a, c, names, p)
  {
  }

  /** The names made active, and published, for the first i nodes. */
  ghost function ActiveUpTo(p: Pool, nodes: seq<string>, i: nat): set<string>
    requires i <= |Targets(p, nodes)|
  {
    if Publishes(p) then set j | 0 <= j < i :: SliceName(p.ref, Targets(p, nodes)[j]) else {}
  }

  ghost function PublishedUpTo(p: Pool, nodes: seq<string>, i: nat): seq<string>
    requires i <= |Targets(p, nodes)|
  {
    if Disappears(p) then [] else Published(p, nodes)[..i]
  }

  lemma UpToNext(p: Pool, nodes: seq<string>, i: nat)
    requires i < |Targets(p, nodes)| && (Publishes(p) || Disappears(p))
    ensures var name := SliceName(p.ref, Targets(p, nodes)[i]);
            && name in NamesOf(p, nodes)
            && ActiveUpTo(p, nodes, i + 1) == ActiveUpTo(p, nodes, i) + (if Publishes(p) then {name} else {})
            && PublishedUpTo(p, nodes, i + 1) == PublishedUpTo(p, nodes, i) + (if Publishes(p) then [name] else [])
  {
  }

  lemma UpToAll(p: Pool, nodes: seq<string>)
    requires Publishes(p) || Disappears(p)
    ensures ActiveUpTo(p, nodes, 0) == {} && PublishedUpTo(p, nodes, 0) == []
    ensures ActiveUpTo(p, nodes, |Targets(p, nodes)|) == if Publishes(p) then NamesOf(p, nodes) else {}
    ensures PublishedUpTo(p, nodes, |Targets(p, nodes)|) == Published(p, nodes)
  {
  }

  /** The slices of these names are there and carry the pool's labels. */
  ghost predicate CarriesLabels(s: Store, p: Pool, names: set<string>) {
    forall name | name in names :: name in s.slices && s.slices[name].labels == LabelsFor(p)
  }

  lemma NothingCarriesLabels(s: Store, p: Pool)
    ensures CarriesLabels(s, p, {})
  {
  }

  lemma LabelsNext(s: Store, t: Store, p: Pool, node: string, names: set<string>)
    requires Publishes(p) && CarriesLabels(s, p, names) && s.nodes == t.nodes
    requires OnlyTouches(s.slices, t.slices, {SliceName(p.ref, node)}, p) && NodeAsWanted(t, p, node)
    ensures CarriesLabels(t, p, names + {SliceName(p.ref, node)})
  {
  }

  lemma DisappearingMayGo(s: Store, p: Pool, name: string)
    requires Disappears(p) ==> name in NamesOf(p, s.nodes)
    ensures Disappears(p) && name in s.slices ==> name in MayDelete(s, p)
  {
  }

  /** Brings the slices of all target nodes to where the pool wants them. */
  method ReconcileNodes(c: Cluster, p: Pool, version: nat, active: set<string>)
    returns (ok: bool, nowActive: set<string>, published: seq<string>)
    requires (Publishes(p) || Disappears(p)) && c.Linked() && AtPublishing(c.Now(), p, version)
    modifies c`calls, c`store, c`writes, c`deleted, c`run
    ensures c.Linked() && old(c.run) <= c.run && c.Now().worker == old(c.Now()).worker
    ensures Alone(c.env) ==>
              && SlicesOnly(old(c.store), c.store)
              && OnlyTouches(old(c.store.slices), c.store.slices, NamesOf(p, c.store.nodes), p)
              && c.deleted <= old(c.deleted) + MayDelete(old(c.store), p)
              && old(c.deleted) <= c.deleted && old(c.store.slices).Keys <= c.store.slices.Keys + c.deleted
    ensures Alone(c.env) && ok ==>
              && nowActive == active + (if Publishes(p) then NamesOf(p, c.store.nodes) else {})
              && published == Published(p, c.store.nodes)
              && (Publishes(p) ==> CarriesLabels(c.store, p, NamesOf(p, c.store.nodes)))
              && ((Publishes(p) ==> NodeNamesDistinct(p, c.store.nodes)) ==> SlicesAsWanted(c.store, p))
    ensures Alone(c.env) && SlicesAsWanted(old(c.store), p) ==>
              c.store == old(c.store) && c.writes == old(c.writes)
    ensures Alone(c.env) && Reliable(c.up) ==> ok
  {
    hide NodeAsWanted, OnlyTouches, SlicesAsWanted, NodeNamesDistinct, NamesOf, Published, ActiveUpTo, PublishedUpTo,
      MayDelete, CarriesLabels, AtPublishing, Abstracts, Alone, Lawful, FP.Steps, FP.WorkerRun, FP.WorkerStep;
    WantedNodeByNode(c.store, p);
    UpToAll(p, c.store.nodes);
    Untouched(c.store.slices, NamesOf(p, c.store.nodes), p);
    NothingCarriesLabels(c.store, p);
    nowActive, published := active, [];
    var targets;
    ok, targets := ResolveTargets(c, p);
    StillPublishing(old(c.Now()), c.Now(), p, version);
    if !ok {
      return;
    }
    for i := 0 to |targets|
      invariant c.Linked() && old(c.run) <= c.run && c.Now().worker == old(c.Now()).worker
      invariant Alone(c.env) ==>
                  && targets == Targets(p, old(c.store.nodes)) && SlicesOnly(old(c.store), c.store)
                  && (Publishes(p) ==> CarriesLabels(c.store, p, ActiveUpTo(p, c.store.nodes, i)))
                  && (Disappears(p) ==> c.store.slices.Keys <= old(c.store.slices).Keys)
                  && OnlyTouches(old(c.store.slices), c.store.slices, NamesOf(p, c.store.nodes), p)
                  && old(c.deleted) <= c.deleted && old(c.store.slices).Keys <= c.store.slices.Keys + c.deleted
                  && c.deleted <= old(c.deleted) + MayDelete(old(c.store), p)
                  && nowActive == active + ActiveUpTo(p, c.store.nodes, i)
                  && published == PublishedUpTo(p, c.store.nodes, i)
                  && ((Publishes(p) ==> NodeNamesDistinct(p, c.store.nodes)) ==>
                        WantedSoFar(c.store, p, targets, i))
      invariant Alone(c.env) && SlicesAsWanted(old(c.store), p) ==>
                  c.store == old(c.store) && c.writes == old(c.writes)
    {
      ghost var before := c.store;
      var name := SliceName(p.ref, targets[i]);
      assert targets[i] in targets;
      if Alone(c.env) {
        UpToNext(p, c.store.nodes, i);
        DisappearingMayGo(old(c.store), p, name);
      }
      StillPublishing(old(c.Now()), c.Now(), p, version);
      ok, nowActive := ReconcileSlice(c, p, version, targets[i], |targets|, nowActive);
      if Alone(c.env) {
        TouchesCompose(old(c.store.slices), before.slices, c.store.slices, NamesOf(p, c.store.nodes), name, p);
      }
      if !ok {
        return;
      }
      if Alone(c.env) && (Publishes(p) ==> NodeNamesDistinct(p, c.store.nodes)) {
        WantedSoFarNext(before, c.store, p, i);
      }
      if Publishes(p) {
        if Alone(c.env) { LabelsNext(before, c.store, p, targets[i], ActiveUpTo(p, c.store.nodes, i)); }
        published := published + [name];
      }
    }
    if Alone(c.env) { WantedNodeByNode(c.store, p); }
    ok := true;
  }

  lemma StillPublishing(f: FP.State, g: FP.State, p: Pool, version: nat)
    requires AtPublishing(f, p, version) && g.worker == f.worker
    ensures AtPublishing(g, p, version)
  {
  }

  lemma Untouched(slices: map<string, SliceObject>, names: set<string>, p: Pool)
    ensures OnlyTouches(slices, slices, names, p)
  {
  }

  lemma OwnedMayGo(s: Store, p: Pool, name: string)
    requires Finalizes(p) && name in s.slices
    ensures name in MayDelete(s, p) <==> Owned(name, s.slices[name], p, s.nodes)
  {
  }

  lemma MayGoIsStored(s: Store, p: Pool, name: string)
    requires Finalizes(p) && name in MayDelete(s, p)
    ensures name in s.slices
  {
  }

  lemma GoingTouches(
    before: map<string, SliceObject>, now: map<string, SliceObject>, names: set<string>, name: string, p: Pool)
    requires OnlyTouches(before, now, names, p) && name in names
    ensures OnlyTouches(before, now - {name}, names, p)
  {
  }

  /** Of the first i listed slices, those that the undisturbed pool owns are gone, and nothing else is. */
  ghost predicate OwnedGone(
    before: Store, s: Store, p: Pool, items: seq<(string, SliceObject)>, i: nat, gone: set<string>,
    deleted: set<string>)
  {
    && SlicesOnly(before, s)
    && OnlyTouches(before.slices, s.slices, MayDelete(before, p), p)
    && gone <= deleted <= gone + MayDelete(before, p)
    && before.slices.Keys <= s.slices.Keys + deleted
    && forall j | 0 <= j < i && j < |items| && items[j].0 in MayDelete(before, p) :: items[j].0 !in s.slices
  }

  lemma OwnedGoesNext(
    before: Store, s: Store, t: Store, p: Pool, items: seq<(string, SliceObject)>, i: nat, gone: set<string>,
    was: set<string>, deleted: set<string>)
    requires Finalizes(p) && i < |items| && ListsSlices(items, before.slices)
    requires OwnedGone(before, s, p, items, i, gone, was)
    requires t == if Owned(items[i].0, items[i].1, p, before.nodes) then s.(slices := s.slices - {items[i].0}) else s
    requires s.slices.Keys <= t.slices.Keys + deleted && was <= deleted <= was + (s.slices.Keys - t.slices.Keys)
    ensures OwnedGone(before, t, p, items, i + 1, gone, deleted)
  {
    hide Belongs, Owned, MayDelete, OnlyTouches;
    OwnedMayGo(before, p, items[i].0);
    if Owned(items[i].0, items[i].1, p, before.nodes) {
      GoingTouches(before.slices, s.slices, MayDelete(before, p), items[i].0, p);
    }
  }

  lemma AllOwnedGone(
    before: Store, s: Store, p: Pool, items: seq<(string, SliceObject)>, gone: set<string>, deleted: set<string>)
    requires Finalizes(p) && ListsSlices(items, before.slices)
    requires OwnedGone(before, s, p, items, |items|, gone, deleted)
    ensures forall name | name in MayDelete(before, p) :: name !in s.slices
  {
    hide MayDelete;
    forall name | name in MayDelete(before, p) ensures name !in s.slices {
      MayGoIsStored(before, p, name);
      var j :| 0 <= j < |items| && items[j] == (name, before.slices[name]);
    }
  }

  /** Deletes every slice that belongs to the pool, as listed when finalization starts. */
  method DeleteOwned(c: Cluster, p: Pool, version: nat) returns (ok: bool, ghost expected: set<string>)
    requires Finalizes(p) && c.Linked() && AtPool(c.Now(), p, version)
    modifies c`calls, c`store, c`writes, c`deleted, c`run
    ensures c.Linked() && old(c.run) <= c.run
    ensures ok ==>
              AtFinalizing(c.Now(), p, version, expected, []) && c.Now().worker.todo == old(c.Now()).worker.todo[1..]
    ensures Alone(c.env) ==>
              && SlicesOnly(old(c.store), c.store)
              && OnlyTouches(old(c.store.slices), c.store.slices, MayDelete(old(c.store), p), p)
              && c.deleted <= old(c.deleted) + MayDelete(old(c.store), p)
              && old(c.deleted) <= c.deleted && old(c.store.slices).Keys <= c.store.slices.Keys + c.deleted
              && (ok ==> forall name | name in MayDelete(old(c.store), p) :: name !in c.store.slices)
    ensures Alone(c.env) && Reliable(c.up) ==> ok
  {
    hide OnlyTouches, MayDelete, Belongs, NamesOf, AtPool, AtFinalizing, Abstracts, Alone, Lawful, ListsSlices,
      FP.Steps, FP.WorkerRun, FP.WorkerStep;
    Untouched(c.store.slices, MayDelete(c.store, p), p);
    ghost var before, gone := c.store, c.deleted;
    var names: set<string>;
    ok, names := ExpectedNames(c, p);
    expected := names;
    StillAtPool(old(c.Now()), c.Now(), p, version);
    if !ok {
      return;
    }
    var items;
    ok, items := c.ListSlices();
    StillAtPool(old(c.Now()), c.Now(), p, version);
    if !ok {
      return;
    }
    ghost var next := ListSlicesStep(c.Now(), c.store, p, version, expected, items);
    c.Follow(next, c.store);
    ghost var todo := c.Now().worker.todo;
    assert items[0..] == items;
    for i := 0 to |items|
      invariant ok && c.Linked() && old(c.run) <= c.run
      invariant AtFinalizing(c.Now(), p, version, expected, items[i..])
      invariant c.Now().worker.Finalizing? && c.Now().worker.todo == todo
      invariant Alone(c.env) ==> OwnedGone(before, c.store, p, items, i, gone, c.deleted)
    {
      ghost var s, was, deleted := c.store, c.store, c.deleted;
      if Belongs(items[i].0, items[i].1, p, names) {
        ghost var f := c.Now();
        ok, was := c.DeleteSlice(items[i].0);
        StillFinalizing(f, c.Now(), p, version, expected, items[i..]);
        if !ok {
          return;
        }
      }
      assert items[i..][1..] == items[i + 1..];
      if Alone(c.env) { OwnedGoesNext(before, s, c.store, p, items, i, gone, deleted, c.deleted); }
      next := ListedStep(c.Now(), was, p, version, expected, items[i..]);
      c.Follow(next, was);
    }
    assert items[|items|..] == [];
    if Alone(c.env) { AllOwnedGone(before, c.store, p, items, gone, c.deleted); }
  }

  /** The names under which a pool expects its slices. */
  method ExpectedNames(c: Cluster, p: Pool) returns (ok: bool, names: set<string>)
    requires c.Linked()
    modifies c`calls, c`store, c`run
    ensures c.Linked() && old(c.run) <= c.run && c.Now().worker == old(c.Now()).worker
    ensures Alone(c.env) ==> c.store == old(c.store)
    ensures ok ==> names == NamesOf(p, c.store.nodes)
    ensures Alone(c.env) && Reliable(c.up) ==> ok
  {
    hide Abstracts, Lawful, Alone, FP.Steps, FP.WorkerRun, SliceName;
    if p.spec.None? {
      return true, {};
    }
    var targets;
    ok, targets := ResolveTargets(c, p);
    names := set n | n in targets :: SliceName(p.ref, n);
  }

  lemma StillAtPool(f: FP.State, g: FP.State, p: Pool, version: nat)
    requires AtPool(f, p, version) && g.worker == f.worker
    ensures AtPool(g, p, version)
  {
  }

  lemma StillFinalizing(
    f: FP.State, g: FP.State, p: Pool, version: nat, expected: set<string>, items: seq<(string, SliceObject)>)
    requires AtFinalizing(f, p, version, expected, items) && g.worker == f.worker
    ensures AtFinalizing(g, p, version, expected, items)
  {
  }

  method RemoveString(s: seq<string>, x: string) returns (r: seq<string>)
    ensures r == Without(s, x)
  {
    r := [];
    for i := 0 to |s|
      invariant r == Without(s[..i], x)
    {
      assert s[..i + 1][..i] == s[..i];
      if s[i] != x {
        r := r + [s[i]];
      }
    }
    assert s[..|s|] == s;
  }

  /** Adds the cleanup finalizer unless it is there. */
  method EnsureFinalizer(c: Cluster, p: Pool, version: nat) returns (ok: bool, q: Pool, stored: nat)
    requires !p.deleting && c.Linked() && AtPool(c.Now(), p, version)
    requires Alone(c.env) ==> Current(c.store, p, version)
    modifies c`calls, c`store, c`writes, c`run
    ensures c.Linked() && old(c.run) <= c.run
    ensures q == if FP.CLEANUP in p.finalizers then p else p.(finalizers := p.finalizers + [FP.CLEANUP])
    ensures ok ==> AtPublishing(c.Now(), q, stored) && c.Now().worker.todo == old(c.Now()).worker.todo[1..]
    ensures Alone(c.env) ==>
              && c.store.slices == old(c.store.slices) && c.store.nodes == old(c.store.nodes)
              && c.store.pools == (if ok then old(c.store.pools)[p.ref := q] else old(c.store.pools))
              && VersionsKept(old(c.store), c.store, p.ref)
              && (ok ==> Current(c.store, q, stored))
    ensures Alone(c.env) && FP.CLEANUP in p.finalizers ==> c.store == old(c.store) && c.writes == old(c.writes)
    ensures Alone(c.env) && Reliable(c.up) ==> ok
  {
    hide Abstracts, Represents, Lawful, Alone, FP.Steps, FP.WorkerRun, FP.WorkerStep;
    if FP.CLEANUP in p.finalizers {
      assert c.store.pools[p.ref := p] == c.store.pools || !Alone(c.env);
      ghost var next := PresentStep(c.Now(), p, version);
      c.Follow(next, c.store);
      return true, p, version;
    }
    q := p.(finalizers := p.finalizers + [FP.CLEANUP]);
    ghost var was;
    ok, stored, was := c.UpdatePool(q, version);
    if ok {
      ghost var next := AddStep(c.Now(), was, p, version, q);
      c.Follow(next, was);
    }
  }

  /** Writes the status unless it is there. */
  method UpdateStatus(c: Cluster, p: Pool, version: nat, status: Status) returns (ok: bool)
    requires !p.deleting && c.Linked() && AtPublishing(c.Now(), p, version)
    requires Alone(c.env) ==> Current(c.store, p, version)
    modifies c`calls, c`store, c`writes, c`run
    ensures c.Linked() && old(c.run) <= c.run
    ensures ok ==> c.Now().worker == FP.Pools(old(c.Now()).worker.todo)
    ensures Alone(c.env) ==>
              && c.store.slices == old(c.store.slices) && c.store.nodes == old(c.store.nodes)
              && c.store.pools == (if ok then old(c.store.pools)[p.ref := p.(status := Some(status))]
                                   else old(c.store.pools))
              && VersionsKept(old(c.store), c.store, p.ref)
    ensures Alone(c.env) && p.status == Some(status) ==> c.store == old(c.store) && c.writes == old(c.writes)
    ensures Alone(c.env) && Reliable(c.up) ==> ok
  {
    hide Abstracts, Represents, Lawful, Alone, FP.Steps, FP.WorkerRun, FP.WorkerStep;
    if p.status == Some(status) {
      assert c.store.pools[p.ref := p] == c.store.pools || !Alone(c.env);
      ghost var next := LeaveStep(c.Now());
      c.Follow(next, c.store);
      return true;
    }
    ghost var was;
    ok, was := c.UpdateStatus(p.ref, version, status);
    if ok {
      ghost var next := FinishStep(c.Now(), was, p, version, status);
      c.Follow(next, was);
    }
  }

  lemma PoolIsListed(f: FP.State, p: Pool, version: nat)
    requires AtPool(f, p, version)
    ensures f.worker.Pools? && f.worker.todo != []
  {
  }

  /** Deletes what the pool owns, and only then gives up the finalizer. */
  method FinalizePool(c: Cluster, p: Pool, version: nat) returns (ok: bool)
    requires Finalizes(p) && c.Linked() && AtPool(c.Now(), p, version)
    requires Alone(c.env) ==> Current(c.store, p, version)
    modifies c`calls, c`store, c`writes, c`deleted, c`run
    ensures c.Linked() && old(c.run) <= c.run
    ensures ok ==> c.Now().worker == FP.Pools(old(c.Now()).worker.todo[1..])
    ensures Alone(c.env) ==>
              && c.store.nodes == old(c.store.nodes) && VersionsKept(old(c.store), c.store, p.ref)
              && c.store.pools == (if ok then Replace(old(c.store.pools), p.ref, PoolAfter(p, c.store.nodes))
                                   else old(c.store.pools))
              && OnlyTouches(old(c.store.slices), c.store.slices, MayDelete(old(c.store), p), p)
              && c.deleted <= old(c.deleted) + MayDelete(old(c.store), p)
              && old(c.deleted) <= c.deleted && old(c.store.slices).Keys <= c.store.slices.Keys + c.deleted
              && (ok ==> forall name | name in MayDelete(old(c.store), p) :: name !in c.store.slices)
    ensures Alone(c.env) && Reliable(c.up) ==> ok
  {
    hide OnlyTouches, MayDelete, Abstracts, AtPool, AtFinalizing, Lawful, Alone, FP.Steps, FP.WorkerRun, FP.WorkerStep;
    PoolIsListed(c.Now(), p, version);
    ghost var expected;
    ok, expected := DeleteOwned(c, p, version);
    if !ok {
      return;
    }
    ghost var f := c.Now();
    var finalizers := RemoveString(p.finalizers, FP.CLEANUP);
    var stored;
    ghost var was;
    ok, stored, was := c.UpdatePool(p.(finalizers := finalizers), version);
    if ok {
      StillFinalizing(f, c.Now(), p, version, expected, []);
      ghost var next := ReleaseStep(c.Now(), was, p, version, expected, p.(finalizers := finalizers));
      c.Follow(next, was);
    }
  }

  /** Finalizers and status have no influence on what a pool asks of the slices. */
  lemma SameWishes(s: Store, p: Pool, q: Pool)
    requires q == p.(finalizers := q.finalizers, status := q.status) && !p.deleting
    ensures Decode(q) == Decode(p) && Targets(q, s.nodes) == Targets(p, s.nodes)
    ensures NamesOf(q, s.nodes) == NamesOf(p, s.nodes) && Published(q, s.nodes) == Published(p, s.nodes)
    ensures NodeNamesDistinct(q, s.nodes) <==> NodeNamesDistinct(p, s.nodes)
    ensures forall t: Store | t.nodes == s.nodes :: SlicesAsWanted(t, q) <==> SlicesAsWanted(t, p)
    ensures MayDelete(s, q) == MayDelete(s, p)
    ensures forall a, b, names :: OnlyTouches(a, b, names, q) <==> OnlyTouches(a, b, names, p)
  {
  }

  lemma NothingToPublish(s: Store, p: Pool)
    requires p.deleting || Decode(p).None?
    ensures SlicesAsWanted(s, p) && !Publishes(p)
  {
  }

  /** The slices of a pool that has its finalizer, and then its status. */
  method ReconcileSpec(c: Cluster, p: Pool, version: nat, active: set<string>)
    returns (ok: bool, nowActive: set<string>)
    requires (Publishes(p) || Disappears(p)) && c.Linked() && AtPublishing(c.Now(), p, version)
    requires Alone(c.env) ==> Current(c.store, p, version)
    modifies c`calls, c`store, c`writes, c`deleted, c`run
    ensures c.Linked() && old(c.run) <= c.run
    ensures ok ==> c.Now().worker == FP.Pools(old(c.Now()).worker.todo)
    ensures Alone(c.env) ==>
              && c.store.nodes == old(c.store.nodes) && VersionsKept(old(c.store), c.store, p.ref)
              && c.store.pools == (if ok
                                   then old(c.store.pools)[p.ref := p.(status := Some(StatusOf(p, c.store.nodes)))]
                                   else old(c.store.pools))
              && OnlyTouches(old(c.store.slices), c.store.slices, NamesOf(p, c.store.nodes), p)
              && c.deleted <= old(c.deleted) + MayDelete(old(c.store), p)
              && old(c.deleted) <= c.deleted && old(c.store.slices).Keys <= c.store.slices.Keys + c.deleted
    ensures Alone(c.env) && ok ==>
              && nowActive == active + (if Publishes(p) then NamesOf(p, c.store.nodes) else {})
              && (Publishes(p) ==> CarriesLabels(c.store, p, NamesOf(p, c.store.nodes)))
              && ((Publishes(p) ==> NodeNamesDistinct(p, c.store.nodes)) ==> SlicesAsWanted(c.store, p))
    ensures Alone(c.env) && SlicesAsWanted(old(c.store), p) && p.status == Some(StatusOf(p, c.store.nodes)) ==>
              c.store == old(c.store) && c.writes == old(c.writes)
    ensures Alone(c.env) && Reliable(c.up) ==> ok
  {
    hide SlicesAsWanted, NodeNamesDistinct, NamesOf, MayDelete, OnlyTouches, Published, CarriesLabels, AtPool,
      AtPublishing, Abstracts, Lawful, Alone, FP.Steps, FP.WorkerRun, FP.WorkerStep;
    ghost var start := c.Now();
    var published;
    ok, nowActive, published := ReconcileNodes(c, p, version, active);
    if !ok {
      return;
    }
    StillPublishing(start, c.Now(), p, version);
    IsPublishing(c.Now(), p, version);
    ghost var was := c.store;
    var status := Status(published, if Decode(p).value.health != "healthy" then [Decode(p).value.health] else []);
    ok := UpdateStatus(c, p, version, status);
    if Alone(c.env) {
      WishesIgnorePools(was, c.store, p);
      PoolsCarryNoLabels(was, c.store, p, NamesOf(p, c.store.nodes));
    }
  }

  /** A live pool: finalizer first, then the slices, then the status. */
  method ReconcileLive(c: Cluster, p: Pool, version: nat, active: set<string>)
    returns (ok: bool, nowActive: set<string>, faults: nat)
    requires !p.deleting && c.Linked() && AtPool(c.Now(), p, version)
    requires Alone(c.env) ==> Current(c.store, p, version)
    modifies c`calls, c`store, c`writes, c`deleted, c`run
    ensures c.Linked() && old(c.run) <= c.run
    ensures ok ==> c.Now().worker == FP.Pools(old(c.Now()).worker.todo[1..])
    ensures ok ==> faults == if Faulty(p) then 1 else 0
    ensures Alone(c.env) ==>
              && c.store.nodes == old(c.store.nodes) && VersionsKept(old(c.store), c.store, p.ref)
              && OnlyChanges(old(c.store.pools), c.store.pools, p.ref)
              && OnlyTouches(old(c.store.slices), c.store.slices, NamesOf(p, c.store.nodes), p)
              && c.deleted <= old(c.deleted) + MayDelete(old(c.store), p)
              && old(c.deleted) <= c.deleted && old(c.store.slices).Keys <= c.store.slices.Keys + c.deleted
    ensures Alone(c.env) && ok ==>
              && c.store.pools == Replace(old(c.store.pools), p.ref, PoolAfter(p, c.store.nodes))
              && nowActive == active + (if Publishes(p) then NamesOf(p, c.store.nodes) else {})
              && (Publishes(p) ==> CarriesLabels(c.store, p, NamesOf(p, c.store.nodes)))
              && ((Publishes(p) ==> NodeNamesDistinct(p, c.store.nodes)) ==> SlicesAsWanted(c.store, p))
    ensures Alone(c.env) && Quiet(old(c.store), p) ==> c.store == old(c.store) && c.writes == old(c.writes)
    ensures Alone(c.env) && Reliable(c.up) ==> ok
  {
    hide SlicesAsWanted, NodeNamesDistinct, NamesOf, MayDelete, OnlyTouches, Published, CarriesLabels, AtPool,
      AtPublishing, Abstracts, Lawful, Alone, FP.Steps, FP.WorkerRun, FP.WorkerStep;
    nowActive, faults := active, 0;
    PoolIsListed(c.Now(), p, version);
    Untouched(c.store.slices, NamesOf(p, c.store.nodes), p);
    var q, stored;
    ok, q, stored := EnsureFinalizer(c, p, version);
    if !ok {
      return;
    }
    IsPublishing(c.Now(), q, stored);
    if Decode(q).None? {
      NothingToPublish(c.store, p);
      ghost var next := LeaveStep(c.Now());
      c.Follow(next, c.store);
      return;
    }
    if Alone(c.env) {
      SameWishes(c.store, p, q);
      WishesIgnorePools(old(c.store), c.store, p);
    }
    ok, nowActive := ReconcileSpec(c, q, stored, active);
    if Alone(c.env) { SameLabels(c.store, p, q); }
    if Decode(q).value.health != "healthy" {
      faults := 1;
    }
  }

  /** A live pool whose slices are withdrawn or degraded. */
  predicate Faulty(p: Pool) {
    !p.deleting && Decode(p).Some? && Decode(p).value.health != "healthy"
  }

  lemma IsPublishing(f: FP.State, p: Pool, version: nat)
    requires AtPublishing(f, p, version)
    ensures f.worker.Publishing?
  {
  }

  lemma PoolsCarryNoLabels(s: Store, t: Store, p: Pool, names: set<string>)
    requires s.slices == t.slices
    ensures CarriesLabels(s, p, names) <==> CarriesLabels(t, p, names)
  {
  }

  lemma SameLabels(s: Store, p: Pool, q: Pool)
    requires q == p.(finalizers := q.finalizers)
    ensures forall names :: CarriesLabels(s, q, names) <==> CarriesLabels(s, p, names)
  {
  }

  ghost predicate OnlyChanges(before: map<Ref, Pool>, after: map<Ref, Pool>, changed: Ref) {
    forall ref | ref != changed :: (ref in before <==> ref in after) && (ref in after ==> after[ref] == before[ref])
  }

  /** What a pool asks of the slices does not depend on the stored pools. */
  lemma WishesIgnorePools(s: Store, t: Store, p: Pool)
    requires s.slices == t.slices && s.nodes == t.nodes
    ensures SlicesAsWanted(s, p) <==> SlicesAsWanted(t, p)
    ensures MayDelete(s, p) == MayDelete(t, p)
  {
  }

  /** Brings one listed pool and its slices to where the pass wants them. */
  method ReconcilePool(c: Cluster, p: Pool, version: nat, active: set<string>)
    returns (ok: bool, nowActive: set<string>, faults: nat)
    requires c.Linked() && AtPool(c.Now(), p, version)
    requires Alone(c.env) ==> Current(c.store, p, version)
    modifies c`calls, c`store, c`writes, c`deleted, c`run
    ensures c.Linked() && old(c.run) <= c.run
    ensures ok ==> c.Now().worker == FP.Pools(old(c.Now()).worker.todo[1..])
    ensures ok ==> faults == if Faulty(p) then 1 else 0
    ensures Alone(c.env) ==>
              && c.store.nodes == old(c.store.nodes) && VersionsKept(old(c.store), c.store, p.ref)
              && OnlyChanges(old(c.store.pools), c.store.pools, p.ref)
              && OnlyTouches(old(c.store.slices), c.store.slices, Touches(old(c.store), p), p)
              && c.deleted <= old(c.deleted) + MayDelete(old(c.store), p)
              && old(c.deleted) <= c.deleted && old(c.store.slices).Keys <= c.store.slices.Keys + c.deleted
    ensures Alone(c.env) && ok ==>
              && c.store.pools == Replace(old(c.store.pools), p.ref, PoolAfter(p, c.store.nodes))
              && nowActive == active + (if Publishes(p) then NamesOf(p, c.store.nodes) else {})
              && (Finalizes(p) ==> forall name | name in MayDelete(old(c.store), p) :: name !in c.store.slices)
              && (Publishes(p) ==> CarriesLabels(c.store, p, NamesOf(p, c.store.nodes)))
              && ((Publishes(p) ==> NodeNamesDistinct(p, c.store.nodes)) ==> SlicesAsWanted(c.store, p))
    ensures Alone(c.env) && Quiet(old(c.store), p) ==> c.store == old(c.store) && c.writes == old(c.writes)
    ensures Alone(c.env) && Reliable(c.up) ==> ok
  {
    hide SlicesAsWanted, NodeNamesDistinct, NamesOf, MayDelete, OnlyTouches, Published, CarriesLabels, AtPool,
      Abstracts, Lawful, Alone, FP.Steps, FP.WorkerRun, FP.WorkerStep;
    nowActive, faults := active, 0;
    PoolIsListed(c.Now(), p, version);
    if !p.deleting {
      ok, nowActive, faults := ReconcileLive(c, p, version, active);
      return;
    }
    Untouched(c.store.slices, Touches(c.store, p), p);
    ok := true;
    if FP.CLEANUP in p.finalizers {
      NoFixpointWithFinalizer(p, c.store.nodes);
      ok := FinalizePool(c, p, version);
    } else {
      assert c.store.pools[p.ref := p] == c.store.pools || !Alone(c.env);
      ghost var next := SkipStep(c.Now(), p, version);
      c.Follow(next, c.store);
    }
    NothingToPublish(c.store, p);
  }

  lemma NoFixpointWithFinalizer(p: Pool, nodes: seq<string>)
    requires Finalizes(p)
    ensures PoolAfter(p, nodes) != Some(p)
  {
    WithoutIsWithout(p.finalizers, FP.CLEANUP);
  }
}
