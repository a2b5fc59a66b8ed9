/** A whole reconcile pass: convergence, idempotence, and what even an aborted pass never deletes. */
module ReconcilePass {
  import opened Types
  import opened ApiServer
  import opened PoolStore
  import opened Reconciler
  import opened WorkerSteps
  import opened Contents
  import FP = FinalizerProtocol

  // ---------- names in dispute ----------

  /** No slice name is wanted twice, nor wanted by one pool and to be gone for another. */
  ghost predicate Separate(listing: seq<Pool>, nodes: seq<string>) {
    && (forall i | 0 <= i < |listing| && Publishes(listing[i]) :: NodeNamesDistinct(listing[i], nodes))
    && (forall i, j |
          0 <= i < |listing| && 0 <= j < |listing| && i != j && Publishes(listing[i]) && !listing[j].deleting ::
          NamesOf(listing[i], nodes) !! NamesOf(listing[j], nodes))
  }

  // ---------- what a pass should leave ----------

  /** The slice names that the listed live pools want published. */
  ghost function Wanted(listing: seq<Pool>, nodes: seq<string>): set<string> {
    if listing == [] then {}
    else Wanted(listing[..|listing| - 1], nodes)
         + if Publishes(listing[|listing| - 1]) then NamesOf(listing[|listing| - 1], nodes) else {}
  }

  ghost function PoolsAfter(pools: map<Ref, Pool>, listing: seq<Pool>, nodes: seq<string>): map<Ref, Pool> {
    if listing == [] then pools
    else
      var last := listing[|listing| - 1];
      Replace(PoolsAfter(pools, listing[..|listing| - 1], nodes), last.ref, PoolAfter(last, nodes))
  }

  /**
   * Pool k of the listing takes away the slice `name` that some pool wants: it is deleting, owns the
   * slice and is listed before every pool that wants it, or it disappears while it wanted that name
   * itself and the slice is there by its turn.
   */
  ghost predicate Claims(s: Store, listing: seq<Pool>, k: int, name: string) {
    && 0 <= k < |listing| && name in Wanted(listing, s.nodes)
    && var published := name in Wanted(listing[..k], s.nodes);
       || (Finalizes(listing[k]) && !published
           && name in s.slices && Owned(name, s.slices[name], listing[k], s.nodes))
       || (Disappears(listing[k]) && name in NamesOf(listing[k], s.nodes) && (published || name in s.slices))
  }

  ghost predicate Unclaimed(s: Store, listing: seq<Pool>) {
    forall k, name :: !Claims(s, listing, k, name)
  }

  /** A slice the simulator manages and no live pool wants. */
  predicate Orphan(name: string, o: SliceObject, active: set<string>) {
    o.labels.managed && name !in active
  }

  /** Nothing is left to do: every pool is quiet and every managed slice is wanted by a stored pool. */
  ghost predicate Settled(s: Store) {
    && (forall ref | ref in s.pools :: s.pools[ref].ref == ref && Quiet(s, s.pools[ref]))
    && (forall name | name in s.slices && s.slices[name].labels.managed :: WantedBySome(s, name))
  }

  ghost predicate WantedBySome(s: Store, name: string) {
    exists ref :: ref in s.pools && Publishes(s.pools[ref]) && name in NamesOf(s.pools[ref], s.nodes)
  }

  /** A slice that is neither managed nor under a name that a listed live pool uses. */
  ghost predicate Foreign(name: string, o: SliceObject, listing: seq<Pool>, nodes: seq<string>) {
    && !o.labels.managed
    && forall i | 0 <= i < |listing| && !listing[i].deleting :: name !in NamesOf(listing[i], nodes)
  }

  // ---------- the names wanted ----------

  lemma {:induction false} WantedExactly(listing: seq<Pool>, nodes: seq<string>, name: string)
    ensures name in Wanted(listing, nodes) <==>
            exists i :: 0 <= i < |listing| && Publishes(listing[i]) && name in NamesOf(listing[i], nodes)
  {
    hide Publishes, NamesOf;
    if listing != [] {
      var n := |listing| - 1;
      WantedExactly(listing[..n], nodes, name);
      if name in Wanted(listing[..n], nodes) {
        var i :| 0 <= i < n && Publishes(listing[..n][i]) && name in NamesOf(listing[..n][i], nodes);
        assert listing[i] == listing[..n][i];
      }
      if i :| 0 <= i < |listing| && Publishes(listing[i]) && name in NamesOf(listing[i], nodes) && i < n {
        assert listing[..n][i] == listing[i];
      }
    }
  }

  lemma WantedNext(listing: seq<Pool>, nodes: seq<string>, i: nat)
    requires i < |listing|
    ensures Wanted(listing[..i + 1], nodes)
         == Wanted(listing[..i], nodes) + if Publishes(listing[i]) then NamesOf(listing[i], nodes) else {}
  {
    hide Publishes, NamesOf;
    assert listing[..i + 1][..i] == listing[..i];
  }

  // ---------- the pools ----------

  lemma PoolsAfterNext(pools: map<Ref, Pool>, listing: seq<Pool>, nodes: seq<string>, i: nat)
    requires i < |listing|
    ensures PoolsAfter(pools, listing[..i + 1], nodes)
         == Replace(PoolsAfter(pools, listing[..i], nodes), listing[i].ref, PoolAfter(listing[i], nodes))
  {
    hide PoolAfter, Replace;
    assert listing[..i + 1][..i] == listing[..i];
  }

  lemma KeepsRef(p: Pool, nodes: seq<string>)
    ensures PoolAfter(p, nodes).Some? ==> PoolAfter(p, nodes).value.ref == p.ref
  {
  }

  /** Pools not listed yet are as stored; those listed are as the pass leaves them. */
  lemma {:induction false} PoolsAfterAt(pools: map<Ref, Pool>, listing: seq<Pool>, nodes: seq<string>, i: nat, ref: Ref)
    requires Lists(listing, pools) && i <= |listing|
    ensures forall j | i <= j < |listing| && listing[j].ref == ref ::
              ref in PoolsAfter(pools, listing[..i], nodes) && PoolsAfter(pools, listing[..i], nodes)[ref] == listing[j]
    ensures ref in PoolsAfter(pools, listing[..i], nodes) ==> ref in pools
    ensures forall j | 0 <= j < i && listing[j].ref == ref ::
              if PoolAfter(listing[j], nodes).None? then ref !in PoolsAfter(pools, listing[..i], nodes)
              else ref in PoolsAfter(pools, listing[..i], nodes)
                   && PoolsAfter(pools, listing[..i], nodes)[ref] == PoolAfter(listing[j], nodes).value
  {
    hide PoolAfter;
    if i > 0 {
      PoolsAfterAt(pools, listing, nodes, i - 1, ref);
      PoolsAfterNext(pools, listing, nodes, i - 1);
    }
  }

  /** A pool that a pass has dealt with gives the next pass nothing to write, and asks for the same slices. */
  lemma PoolAfterSettles(s: Store, p: Pool)
    requires PoolAfter(p, s.nodes).Some? && SlicesAsWanted(s, p)
    ensures var q := PoolAfter(p, s.nodes).value;
            && Quiet(s, q) && (Publishes(q) <==> Publishes(p))
            && (Publishes(p) ==> NamesOf(q, s.nodes) == NamesOf(p, s.nodes))
  {
    hide SlicesAsWanted, NamesOf, Published;
    var q := PoolAfter(p, s.nodes).value;
    if p.deleting {
      WithoutIsWithout(p.finalizers, FP.CLEANUP);
      NothingToPublish(s, q);
    } else {
      SameWishes(s, p, q);
    }
  }

  // ---------- one pool of a pass ----------

  predicate AsBefore(before: map<string, SliceObject>, after: map<string, SliceObject>, name: string) {
    (name in before <==> name in after) && (name in before ==> after[name] == before[name])
  }

  /** The first i pools have their slices as wanted. */
  ghost predicate Done(s: Store, listing: seq<Pool>, i: nat) {
    forall j | 0 <= j < i && j < |listing| :: SlicesAsWanted(s, listing[j])
  }

  /** The slice carries the labels of one of the first i pools. */
  ghost predicate CarriesSome(s: Store, listing: seq<Pool>, i: nat, name: string) {
    name in s.slices && exists j | 0 <= j < i && j < |listing| :: s.slices[name].labels == LabelsFor(listing[j])
  }

  /**
   * Of the wanted slices not deleted, those that one of the first i pools wants carry the labels of one
   * of these, and the others are as at the start of the pass.
   */
  ghost predicate Tracked(before: Store, s: Store, listing: seq<Pool>, i: nat, deleted: set<string>)
    requires i <= |listing|
  {
    forall name | name in Wanted(listing, s.nodes) && name !in deleted ::
      if name in Wanted(listing[..i], s.nodes) then CarriesSome(s, listing, i, name)
      else AsBefore(before.slices, s.slices, name)
  }

  /** What the first i pools claim is deleted. */
  ghost predicate ClaimedGone(before: Store, listing: seq<Pool>, i: nat, deleted: set<string>) {
    forall k, name | k < i && Claims(before, listing, k, name) :: name in deleted
  }

  ghost predicate ForeignKept(before: Store, s: Store, listing: seq<Pool>) {
    forall name | name in before.slices && Foreign(name, before.slices[name], listing, before.nodes) ::
      AsBefore(before.slices, s.slices, name)
  }

  /** The step from s to t dealt with pool i of the listing. */
  ghost predicate Step(s: Store, t: Store, listing: seq<Pool>, i: nat) {
    && i < |listing| && s.nodes == t.nodes
    && OnlyTouches(s.slices, t.slices, Touches(s, listing[i]), listing[i])
  }

  /** A pool does not touch what another publishing pool wants, nor publish what another wants gone. */
  lemma OthersAreLeftAlone(s: Store, t: Store, pools: map<Ref, Pool>, listing: seq<Pool>, i: nat, j: nat)
    requires Lists(listing, pools) && Separate(listing, s.nodes) && Step(s, t, listing, i) && j < |listing| && j != i
    requires SlicesAsWanted(s, listing[j])
    ensures SlicesAsWanted(t, listing[j])
  {
  }

  lemma StepDone(s: Store, t: Store, pools: map<Ref, Pool>, listing: seq<Pool>, i: nat)
    requires Lists(listing, pools) && Separate(listing, s.nodes) && Step(s, t, listing, i)
    requires Done(s, listing, i) && SlicesAsWanted(t, listing[i])
    ensures Done(t, listing, i + 1)
  {
    hide Lists, Separate, Step, SlicesAsWanted;
    forall j | 0 <= j < i && j < |listing| ensures SlicesAsWanted(t, listing[j]) {
      OthersAreLeftAlone(s, t, pools, listing, i, j);
    }
  }

  lemma StepTracked(
    before: Store, s: Store, t: Store, listing: seq<Pool>, i: nat, gone: set<string>, deleted: set<string>)
    requires Step(s, t, listing, i) && Tracked(before, s, listing, i, gone)
    requires gone <= deleted && s.slices.Keys <= t.slices.Keys + deleted
    requires Publishes(listing[i]) ==> CarriesLabels(t, listing[i], NamesOf(listing[i], t.nodes))
    ensures Tracked(before, t, listing, i + 1, deleted)
  {
    hide Decode, Targets, NamesOf, Wanted;
    WantedNext(listing, s.nodes, i);
    forall name | name in Wanted(listing, t.nodes) && name !in deleted
      ensures if name in Wanted(listing[..i + 1], t.nodes) then CarriesSome(t, listing, i + 1, name)
              else AsBefore(before.slices, t.slices, name)
    {
      SlicePassesTurn(s, t, listing, i, name);
      if name in Wanted(listing[..i], s.nodes) {
        var j :| 0 <= j < i && j < |listing| && s.slices[name].labels == LabelsFor(listing[j]);
        assert t.slices[name].labels == LabelsFor(listing[j]) || t.slices[name].labels == LabelsFor(listing[i]);
      }
    }
  }

  /** A slice that is not taken away stays as it was, unless the pool makes it its own. */
  lemma SlicePassesTurn(s: Store, t: Store, listing: seq<Pool>, i: nat, name: string)
    requires Step(s, t, listing, i)
    ensures name in s.slices && name in t.slices ==>
              || t.slices[name] == s.slices[name]
              || (Publishes(listing[i]) && name in NamesOf(listing[i], s.nodes)
                  && t.slices[name].labels == LabelsFor(listing[i]))
    ensures name in t.slices && name !in s.slices ==> Publishes(listing[i]) && name in NamesOf(listing[i], s.nodes)
  {
  }

  /** What a pool takes away is wanted by some pool only when the store at the start let it claim it. */
  lemma StepSpares(
    before: Store, s: Store, pools: map<Ref, Pool>, listing: seq<Pool>, i: nat, gone: set<string>, name: string)
    requires i < |listing| && before.nodes == s.nodes && Lists(listing, pools) && Tracked(before, s, listing, i, gone)
    requires name in MayDelete(s, listing[i]) && name in Wanted(listing, s.nodes)
    ensures name in gone || Claims(before, listing, i, name)
  {
  }

  lemma StepClaims(
    before: Store, s: Store, t: Store, listing: seq<Pool>, i: nat, gone: set<string>, deleted: set<string>)
    requires i < |listing| && before.nodes == s.nodes && gone <= deleted && s.slices.Keys <= t.slices.Keys + deleted
    requires Tracked(before, s, listing, i, gone) && ClaimedGone(before, listing, i, gone)
    requires forall name | name in MayDelete(s, listing[i]) :: name !in t.slices
    ensures ClaimedGone(before, listing, i + 1, deleted)
  {
  }

  /** After a completed turn, what the pool may delete is gone. */
  lemma MayDeleteIsGone(s: Store, t: Store, p: Pool)
    requires s.nodes == t.nodes
    requires (Publishes(p) ==> NodeNamesDistinct(p, t.nodes)) ==> SlicesAsWanted(t, p)
    requires Finalizes(p) ==> forall name | name in MayDelete(s, p) :: name !in t.slices
    ensures forall name | name in MayDelete(s, p) :: name !in t.slices
  {
  }

  lemma StepForeign(before: Store, s: Store, t: Store, listing: seq<Pool>, i: nat)
    requires Step(s, t, listing, i) && before.nodes == s.nodes && ForeignKept(before, s, listing)
    ensures ForeignKept(before, t, listing)
  {
  }

  /** An unclaimed wanted slice survives the step, whether or not the step completes. */
  lemma StepKeepsWanted(
    before: Store, s: Store, pools: map<Ref, Pool>, listing: seq<Pool>, i: nat, gone: set<string>, deleted: set<string>)
    requires i < |listing| && before.nodes == s.nodes && Lists(listing, pools) && Tracked(before, s, listing, i, gone)
    requires Unclaimed(before, listing) && deleted <= gone + MayDelete(s, listing[i])
    requires gone !! Wanted(listing, s.nodes)
    ensures deleted !! Wanted(listing, s.nodes)
  {
    hide Lists, Tracked, MayDelete, Wanted, Claims;
    forall name | name in deleted && name in Wanted(listing, s.nodes) ensures false {
      StepSpares(before, s, pools, listing, i, gone, name);
    }
  }

  // ---------- the sweep ----------

  ghost function OrphanNames(items: seq<(string, SliceObject)>, active: set<string>): seq<string> {
    if items == [] then []
    else (if Orphan(items[0].0, items[0].1, active) then [items[0].0] else []) + OrphanNames(items[1..], active)
  }

  lemma OrphansFrom(items: seq<(string, SliceObject)>, active: set<string>, i: nat)
    requires i < |items|
    ensures OrphanNames(items[i..], active) ==
            (if Orphan(items[i].0, items[i].1, active) then [items[i].0] else []) + OrphanNames(items[i + 1..], active)
  {
  }

  /** Nothing but orphans has gone. */
  ghost predicate OnlyOrphansGone(
    before: map<string, SliceObject>, now: map<string, SliceObject>, active: set<string>)
  {
    && (forall name | name in now :: name in before && now[name] == before[name])
    && (forall name | name in before && !Orphan(name, before[name], active) :: name in now)
  }

  ghost predicate NoOrphans(slices: map<string, SliceObject>, active: set<string>) {
    forall name | name in slices :: !Orphan(name, slices[name], active)
  }

  /** Of the first i listed slices no orphan is left. */
  ghost predicate OrphansGone(
    now: map<string, SliceObject>, active: set<string>, items: seq<(string, SliceObject)>, i: nat)
  {
    forall j | 0 <= j < i && j < |items| && Orphan(items[j].0, items[j].1, active) :: items[j].0 !in now
  }

  lemma SweepStarts(slices: map<string, SliceObject>, active: set<string>, items: seq<(string, SliceObject)>)
    ensures OnlyOrphansGone(slices, slices, active) && OrphansGone(slices, active, items, 0)
  {
  }

  lemma SweepGoesOn(
    before: map<string, SliceObject>, now: map<string, SliceObject>, active: set<string>,
    items: seq<(string, SliceObject)>, i: nat)
    requires i < |items| && ListsSlices(items, before)
    requires OnlyOrphansGone(before, now, active) && OrphansGone(now, active, items, i)
    ensures var next := if Orphan(items[i].0, items[i].1, active) then now - {items[i].0} else now;
            OnlyOrphansGone(before, next, active) && OrphansGone(next, active, items, i + 1)
    ensures NoOrphans(before, active) ==> !Orphan(items[i].0, items[i].1, active)
  {
  }

  lemma SweepEnds(
    before: map<string, SliceObject>, now: map<string, SliceObject>, active: set<string>,
    items: seq<(string, SliceObject)>)
    requires ListsSlices(items, before) && OnlyOrphansGone(before, now, active)
    requires OrphansGone(now, active, items, |items|)
    ensures NoOrphans(now, active)
  {
  }

  method DropOrphan(c: Cluster, name: string, ghost rest: seq<string>) returns (ok: bool)
    requires c.Linked() && c.Now().worker == FP.Sweeping([name] + rest)
    modifies c`calls, c`store, c`writes, c`deleted, c`run
    ensures c.Linked() && old(c.run) <= c.run && (ok ==> c.Now().worker == FP.Sweeping(rest))
    ensures old(c.deleted) <= c.deleted <= old(c.deleted) + {name}
    ensures Alone(c.env) ==>
              c.store == if ok then old(c.store).(slices := old(c.store.slices) - {name}) else old(c.store)
    ensures Alone(c.env) && Reliable(c.up) ==> ok
  {
    hide Abstracts, Lawful, Alone, FP.Steps, FP.WorkerRun, FP.WorkerStep;
    ghost var was;
    ok, was := c.DeleteSlice(name);
    if ok {
      ghost var next := OrphanStep(c.Now(), was, name, rest);
      c.Follow(next, was);
    }
  }

  /** Deletes the managed slices that no pool made active. */
  method Sweep(c: Cluster, active: set<string>) returns (ok: bool)
    requires c.Linked() && c.Now().worker == FP.Pools([])
    modifies c`calls, c`store, c`writes, c`deleted, c`run
    ensures c.Linked() && old(c.run) <= c.run
    ensures old(c.deleted) <= c.deleted && c.deleted * active <= old(c.deleted)
    ensures Alone(c.env) ==>
              && SlicesOnly(old(c.store), c.store)
              && OnlyOrphansGone(old(c.store.slices), c.store.slices, active)
              && (ok ==> NoOrphans(c.store.slices, active))
    ensures Alone(c.env) && NoOrphans(old(c.store.slices), active) ==>
              c.store == old(c.store) && c.writes == old(c.writes)
    ensures Alone(c.env) && Reliable(c.up) ==> ok
  {
    hide Abstracts, OrphanNames, OnlyOrphansGone, OrphansGone, NoOrphans, Lawful, Alone,
      FP.Steps, FP.WorkerRun, FP.WorkerStep;
    SweepStarts(c.store.slices, active, []);
    var items;
    ok, items := c.ListSlices();
    if !ok {
      return;
    }
    SweepStarts(c.store.slices, active, items);
    ghost var listed := c.store.slices;
    ghost var next := SweepBegins(c.Now(), OrphanNames(items, active));
    c.Follow(next, c.store);
    assert items[0..] == items;
    for i := 0 to |items|
      invariant ok && ListsSlices(items, listed)
      invariant c.Linked() && old(c.run) <= c.run && c.Now().worker == FP.Sweeping(OrphanNames(items[i..], active))
      invariant old(c.deleted) <= c.deleted && c.deleted * active <= old(c.deleted)
      invariant Alone(c.env) ==>
                  && listed == old(c.store.slices) && SlicesOnly(old(c.store), c.store)
                  && OnlyOrphansGone(listed, c.store.slices, active)
                  && OrphansGone(c.store.slices, active, items, i)
                  && (NoOrphans(listed, active) ==> c.store == old(c.store) && c.writes == old(c.writes))
    {
      OrphansFrom(items, active, i);
      if Alone(c.env) { SweepGoesOn(listed, c.store.slices, active, items, i); }
      if Orphan(items[i].0, items[i].1, active) {
        ok := DropOrphan(c, items[i].0, OrphanNames(items[i + 1..], active));
        if !ok {
          return;
        }
      } else {
        assert OrphanNames(items[i..], active) == OrphanNames(items[i + 1..], active);
      }
    }
    if Alone(c.env) { SweepEnds(listed, c.store.slices, active, items); }
  }

  /** What the sweep leaves is as wanted, when the active names are the wanted ones. */
  lemma SweepKeepsWanted(s: Store, t: Store, listing: seq<Pool>, i: nat)
    requires i < |listing| && s.nodes == t.nodes && SlicesAsWanted(s, listing[i])
    requires OnlyOrphansGone(s.slices, t.slices, Wanted(listing, s.nodes))
    ensures SlicesAsWanted(t, listing[i])
  {
    hide Decode, Targets, Desired, Wanted;
    var p := listing[i];
    if Publishes(p) {
      forall n | n in Targets(p, s.nodes) ensures SliceName(p.ref, n) in t.slices {
        assert SliceName(p.ref, n) in NamesOf(p, s.nodes);
        WantedExactly(listing, s.nodes, SliceName(p.ref, n));
      }
    }
  }

  lemma SweepKeepsForeign(before: Store, s: Store, t: Store, listing: seq<Pool>, active: set<string>)
    requires s.nodes == t.nodes == before.nodes && ForeignKept(before, s, listing)
    requires OnlyOrphansGone(s.slices, t.slices, active)
    ensures ForeignKept(before, t, listing)
  {
  }

  // ---------- settled stores ----------

  lemma PassSettles(before: Store, s: Store, listing: seq<Pool>)
    requires Lists(listing, before.pools) && s.nodes == before.nodes
    requires s.pools == PoolsAfter(before.pools, listing, s.nodes) && Done(s, listing, |listing|)
    requires forall name | name in s.slices && s.slices[name].labels.managed :: name in Wanted(listing, s.nodes)
    ensures Settled(s)
  {
    hide Quiet, Publishes, NamesOf, PoolAfter, PoolsAfter, SlicesAsWanted, Wanted;
    assert listing[..|listing|] == listing;
    forall ref | ref in s.pools ensures s.pools[ref].ref == ref && Quiet(s, s.pools[ref]) {
      PoolsAfterAt(before.pools, listing, s.nodes, |listing|, ref);
      var j :| 0 <= j < |listing| && listing[j].ref == ref;
      KeepsRef(listing[j], s.nodes);
      PoolAfterSettles(s, listing[j]);
    }
    forall name | name in s.slices && s.slices[name].labels.managed ensures WantedBySome(s, name) {
      WantedExactly(listing, s.nodes, name);
      var j :| 0 <= j < |listing| && Publishes(listing[j]) && name in NamesOf(listing[j], s.nodes);
      PoolsAfterAt(before.pools, listing, s.nodes, |listing|, listing[j].ref);
      LivePoolsStay(listing[j], s.nodes);
      PoolAfterSettles(s, listing[j]);
      assert listing[j].ref in s.pools;
    }
  }

  /** Slices can be as wanted by two pools at once only when no name is contested. */
  lemma ContestedNamesNeverSettle(s: Store, p: Pool, q: Pool)
    requires SlicesAsWanted(s, p) && SlicesAsWanted(s, q) && Publishes(p) && !q.deleting && p.ref != q.ref
    ensures NamesOf(p, s.nodes) !! NamesOf(q, s.nodes)
  {
  }

  /** Nor can one pool have its slices as wanted when two of its nodes share a name. */
  lemma SharedNodeNamesNeverSettle(s: Store, p: Pool)
    requires SlicesAsWanted(s, p) && Publishes(p)
    ensures NodeNamesDistinct(p, s.nodes)
  {
  }

  /** What the stored pool is quiet about, the listed pool has. */
  lemma SettledIsDone(before: Store, s: Store, listing: seq<Pool>, i: nat)
    requires Lists(listing, before.pools) && s.nodes == before.nodes && i < |listing|
    requires s.pools == PoolsAfter(before.pools, listing, s.nodes) && Settled(s)
    ensures SlicesAsWanted(s, listing[i])
  {
    hide SlicesAsWanted, NamesOf, Published, PoolsAfter;
    var p := listing[i];
    assert listing[..|listing|] == listing;
    PoolsAfterAt(before.pools, listing, s.nodes, |listing|, p.ref);
    if p.deleting {
      NothingToPublish(s, p);
    } else {
      assert Quiet(s, s.pools[p.ref]);
      SameWishes(s, p, s.pools[p.ref]);
    }
  }

  lemma SettledIsSeparate(before: Store, s: Store, listing: seq<Pool>)
    requires Lists(listing, before.pools) && s.nodes == before.nodes
    requires s.pools == PoolsAfter(before.pools, listing, s.nodes) && Settled(s)
    ensures Separate(listing, s.nodes)
  {
    hide SlicesAsWanted, NamesOf, PoolsAfter, Settled, Publishes, NodeNamesDistinct;
    forall i | 0 <= i < |listing| && Publishes(listing[i]) ensures NodeNamesDistinct(listing[i], s.nodes) {
      SettledIsDone(before, s, listing, i);
      SharedNodeNamesNeverSettle(s, listing[i]);
    }
    forall i, j | 0 <= i < |listing| && 0 <= j < |listing| && i != j && Publishes(listing[i]) && !listing[j].deleting
      ensures NamesOf(listing[i], s.nodes) !! NamesOf(listing[j], s.nodes)
    {
      SettledIsDone(before, s, listing, i);
      SettledIsDone(before, s, listing, j);
      assert listing[i].ref != listing[j].ref by {
        if i < j { assert listing[i].ref != listing[j].ref; } else { assert listing[j].ref != listing[i].ref; }
      }
      ContestedNamesNeverSettle(s, listing[i], listing[j]);
    }
  }

  // ---------- what users see ----------

  /** After a complete pass, pools and slices are what the specs of the listed pools say. */
  lemma PassIsTold(before: Store, s: Store, listing: seq<Pool>)
    requires Lists(listing, before.pools) && s.nodes == before.nodes
    requires s.pools == PoolsAfter(before.pools, listing, s.nodes)
    requires forall name | name in s.slices && s.slices[name].labels.managed :: name in Wanted(listing, s.nodes)
    ensures PoolsTold(before, s, listing)
    ensures Done(s, listing, |listing|) ==> forall p | p in listing :: PoolsSlicesTold(s, p)
  {
    hide Lists, PoolsAfter, PoolTold, Wanted, SlicesAsWanted, PoolsSlicesTold, SomeoneHas, StoredPool;
    forall p | p in listing
      ensures PoolTold(StoredPool(s, p.ref), p, s.nodes)
      ensures Done(s, listing, |listing|) ==> PoolsSlicesTold(s, p)
    {
      var j :| 0 <= j < |listing| && listing[j] == p;
      PoolLeftIsTold(before, s, listing, j);
      if Done(s, listing, |listing|) { WantedIsTold(s, p); }
    }
    NoPoolIsNew(before, s, listing);
    forall name | name in s.slices && s.slices[name].labels.managed ensures SomeoneHas(listing, s.nodes, name) {
      WantedBySomeone(listing, s.nodes, name);
    }
  }

  lemma NoPoolIsNew(before: Store, s: Store, listing: seq<Pool>)
    requires Lists(listing, before.pools) && s.pools == PoolsAfter(before.pools, listing, s.nodes)
    ensures forall ref | ref in s.pools :: ref in before.pools
  {
    hide Lists, PoolsAfter;
    assert listing[..|listing|] == listing;
    forall ref | ref in s.pools ensures ref in before.pools {
      PoolsAfterAt(before.pools, listing, s.nodes, |listing|, ref);
    }
  }

  lemma PoolLeftIsTold(before: Store, s: Store, listing: seq<Pool>, i: nat)
    requires Lists(listing, before.pools) && i < |listing|
    requires s.pools == PoolsAfter(before.pools, listing, s.nodes)
    ensures PoolTold(StoredPool(s, listing[i].ref), listing[i], s.nodes)
  {
    hide Lists, PoolAfter, PoolsAfter, PoolTold;
    assert listing[..|listing|] == listing;
    PoolsAfterAt(before.pools, listing, s.nodes, |listing|, listing[i].ref);
    PoolAfterIsTold(listing[i], s.nodes);
  }

  lemma WantedBySomeone(listing: seq<Pool>, nodes: seq<string>, name: string)
    requires name in Wanted(listing, nodes)
    ensures SomeoneHas(listing, nodes, name)
  {
    hide SliceName;
    WantedExactly(listing, nodes, name);
    var i :| 0 <= i < |listing| && Publishes(listing[i]) && name in NamesOf(listing[i], nodes);
    assert For(listing[i], nodes, Targets(listing[i], nodes));
  }

  // ---------- inputs at which the hypotheses fail ----------

  const SPEC := PoolSpec("driver", "pool", "gpu", 1, [], "healthy", map[], map[])

  /** A pool of namespace ns with one target node. */
  function Example(name: string, uid: nat, deleting: bool, node: string): Pool {
    Pool(FP.Ref("ns", name), uid, [FP.CLEANUP], deleting, Some(SPEC.(targetNodes := [node])), None)
  }

  lemma ExampleNames(name: string, uid: nat, deleting: bool, node: string)
    ensures Targets(Example(name, uid, deleting, node), []) == [node]
    ensures NamesOf(Example(name, uid, deleting, node), []) == {SliceName(FP.Ref("ns", name), node)}
  {
  }

  lemma TwoAreListed(one: Pool, other: Pool)
    requires one.ref != other.ref
    ensures Lists([one, other], map[one.ref := one, other.ref := other])
  {
    var listing := [one, other];
    assert listing[0].ref == one.ref && listing[1].ref == other.ref;
  }

  /**
   * Pool ns/a is deleting, and the slice it published for node b-c is still there; meanwhile pool
   * ns/a-b has come to want a slice of that name for node c. The pass deletes it.
   */
  lemma ClaimsHappen() returns (s: Store, listing: seq<Pool>)
    ensures Lists(listing, s.pools) && Separate(listing, s.nodes) && !Unclaimed(s, listing)
  {
    hide NamesOf, SliceName, Targets, Wanted, Lists;
    var deleting, live := Example("a", 1, true, "b-c"), Example("a-b", 2, false, "c");
    TwoAreListed(deleting, live);
    SliceNamesClash();
    ExampleNames("a", 1, true, "b-c");
    ExampleNames("a-b", 2, false, "c");
    var name := SliceName(live.ref, "c");
    var slice := SliceObject(LabelsFor(deleting), "healthy", PROJECT, SliceSpec("driver", "b-c", "pool", 1, 1, []));
    s := Store(map[deleting.ref := deleting, live.ref := live], map[name := slice], [], map[], 1, 3);
    listing := [deleting, live];
    WantedExactly(listing, [], name);
    assert listing[1] == live && Publishes(live);
    WantedExactly(listing[..0], [], name);
    assert Claims(s, listing, 0, name);
  }

  /** Pools ns/a and ns/a-b, both live, want one slice name for nodes b-c and c: no pass can settle them. */
  lemma ContestsHappen() returns (s: Store, listing: seq<Pool>)
    ensures Lists(listing, s.pools) && !Separate(listing, s.nodes)
    ensures forall p | p in listing :: Publishes(p)
  {
    hide NamesOf, SliceName, Targets, Lists;
    var one, other := Example("a", 1, false, "b-c"), Example("a-b", 2, false, "c");
    TwoAreListed(one, other);
    SliceNamesClash();
    ExampleNames("a", 1, false, "b-c");
    ExampleNames("a-b", 2, false, "c");
    s := Store(map[one.ref := one, other.ref := other], map[], [], map[], 1, 3);
    listing := [one, other];
    var name := SliceName(one.ref, "b-c");
    assert Publishes(listing[0]) && !listing[1].deleting;
    assert name in NamesOf(listing[0], s.nodes) && name in NamesOf(listing[1], s.nodes);
  }

  /** Two pools, and two nodes, that share a slice name although nothing else about them agrees. */
  lemma SliceNamesClash()
    ensures SliceName(FP.Ref("ns", "a-b"), "c") == SliceName(FP.Ref("ns", "a"), "b-c")
    ensures SliceName(FP.Ref("ns", "a"), "n.1") == SliceName(FP.Ref("ns", "a"), "n-1")
  {
  }

  lemma LivePoolsStay(p: Pool, nodes: seq<string>)
    requires Publishes(p)
    ensures PoolAfter(p, nodes).Some?
  {
  }

  lemma SettledHasNoOrphans(s: Store, listing: seq<Pool>)
    requires Settled(s) && Lists(listing, s.pools)
    ensures NoOrphans(s.slices, Wanted(listing, s.nodes))
  {
    hide Quiet, Publishes, NamesOf, Wanted;
    forall name | name in s.slices && s.slices[name].labels.managed
      ensures !Orphan(name, s.slices[name], Wanted(listing, s.nodes))
    {
      assert WantedBySome(s, name);
      var ref :| ref in s.pools && Publishes(s.pools[ref]) && name in NamesOf(s.pools[ref], s.nodes);
      var i :| 0 <= i < |listing| && listing[i].ref == ref;
      assert listing[i] == s.pools[ref];
      WantedExactly(listing, s.nodes, name);
    }
  }

  lemma ClaimedWasDeleted(before: Store, listing: seq<Pool>, deleted: set<string>)
    requires ClaimedGone(before, listing, |listing|, deleted) && !Unclaimed(before, listing)
    ensures !(deleted !! Wanted(listing, before.nodes))
  {
  }

  // ---------- the pass ----------

  lemma PassBegins(before: Store, listing: seq<Pool>, versions: seq<nat>)
    requires Unmoved(before, listing, versions, 0)
    ensures PassOn(before, before, listing, versions, 0, {}, {})
    ensures ForeignKept(before, before, listing)
  {
  }

  lemma NoFaultsYet(listing: seq<Pool>)
    ensures FaultCount(listing[..0]) == 0
  {
  }

  lemma AllAreActive(
    before: Store, s: Store, listing: seq<Pool>, versions: seq<nat>, deleted: set<string>, active: set<string>)
    requires PassOn(before, s, listing, versions, |listing|, deleted, active)
    ensures active == Wanted(listing, before.nodes)
  {
    assert listing[..|listing|] == listing;
  }

  lemma SettledIsQuiet(s: Store, listing: seq<Pool>, i: nat)
    requires Settled(s) && Lists(listing, s.pools) && i < |listing|
    ensures Quiet(s, listing[i])
  {
  }

  lemma SeparateNames(listing: seq<Pool>, nodes: seq<string>, i: nat)
    requires Separate(listing, nodes) && i < |listing|
    ensures Publishes(listing[i]) ==> NodeNamesDistinct(listing[i], nodes)
  {
  }

  /** From the end of the sweep to the end of the pass. */
  lemma PassEnds(before: Store, s: Store, t: Store, listing: seq<Pool>)
    requires Lists(listing, before.pools) && before.nodes == s.nodes == t.nodes
    requires t.pools == PoolsAfter(before.pools, listing, t.nodes) && Done(s, listing, |listing|)
    requires OnlyOrphansGone(s.slices, t.slices, Wanted(listing, s.nodes))
    requires NoOrphans(t.slices, Wanted(listing, s.nodes))
    ensures Done(t, listing, |listing|) && Settled(t)
  {
    hide Lists, PoolsAfter, SlicesAsWanted, Wanted, Settled;
    forall i | 0 <= i < |listing| ensures SlicesAsWanted(t, listing[i]) {
      SweepKeepsWanted(s, t, listing, i);
    }
    PassSettles(before, t, listing);
  }

  /** How a pass ends; `NotInstalled` is the quiet end when the pools cannot be listed because their type is unknown. */
  datatype PassEnd = Complete | NotInstalled | Aborted

  /** The number of faulty pools. */
  function FaultCount(listing: seq<Pool>): nat {
    if listing == [] then 0
    else FaultCount(listing[..|listing| - 1]) + if Faulty(listing[|listing| - 1]) then 1 else 0
  }

  /** The faults counted are those of the pools that their specs say are not healthy. */
  lemma {:induction false} FaultsAreUnhealthy(listing: seq<Pool>)
    ensures FaultCount(listing) == |Unhealthy(listing)|
  {
    if listing != [] {
      var n := |listing| - 1;
      FaultsAreUnhealthy(listing[..n]);
      assert Unhealthy(listing) == Unhealthy(listing[..n]) + if Faulty(listing[n]) then {n} else {};
    }
  }

  lemma FaultsNext(listing: seq<Pool>, i: nat)
    requires i < |listing|
    ensures FaultCount(listing[..i + 1]) == FaultCount(listing[..i]) + if Faulty(listing[i]) then 1 else 0
  {
    assert listing[..i + 1][..i] == listing[..i];
  }

  /** An undisturbed pass, after the turns of the first i pools. */
  ghost predicate PassOn(
    before: Store, s: Store, listing: seq<Pool>, versions: seq<nat>, i: nat, deleted: set<string>,
    active: set<string>)
    requires i <= |listing|
  {
    && s.nodes == before.nodes && Unmoved(s, listing, versions, i)
    && s.pools == PoolsAfter(before.pools, listing[..i], before.nodes)
    && active == Wanted(listing[..i], before.nodes)
    && Tracked(before, s, listing, i, deleted) && ClaimedGone(before, listing, i, deleted)
    && ForeignKept(before, s, listing)
    && (Unclaimed(before, listing) ==> deleted !! Wanted(listing, before.nodes))
    && (Separate(listing, before.nodes) ==> Done(s, listing, i))
  }

  /** The pool whose turn it is has not changed since it was listed. */
  lemma PoolIsCurrent(
    before: Store, s: Store, listing: seq<Pool>, versions: seq<nat>, i: nat, deleted: set<string>,
    active: set<string>)
    requires i < |listing| && Lists(listing, before.pools)
    requires PassOn(before, s, listing, versions, i, deleted, active)
    ensures Current(s, listing[i], versions[i])
  {
    hide PoolsAfter, Tracked, ClaimedGone, ForeignKept, Unclaimed, Wanted, Separate, Done;
    PoolsAfterAt(before.pools, listing, before.nodes, i, listing[i].ref);
  }

  /** What holds after a turn even when a call failed in it. */
  lemma TurnKeeps(
    before: Store, s: Store, t: Store, listing: seq<Pool>, versions: seq<nat>, i: nat, gone: set<string>,
    deleted: set<string>, active: set<string>)
    requires i < |listing| && Lists(listing, before.pools)
    requires PassOn(before, s, listing, versions, i, gone, active)
    requires t.nodes == s.nodes && OnlyTouches(s.slices, t.slices, Touches(s, listing[i]), listing[i])
    requires deleted <= gone + MayDelete(s, listing[i])
    ensures t.nodes == before.nodes && Step(s, t, listing, i) && ForeignKept(before, t, listing)
    ensures Unclaimed(before, listing) ==> deleted !! Wanted(listing, before.nodes)
  {
    hide Lists, OnlyTouches, Touches, MayDelete, PoolsAfter, Tracked, ClaimedGone, ForeignKept, Unclaimed, Wanted,
      Separate, Done, Unmoved;
    StepForeign(before, s, t, listing, i);
    if Unclaimed(before, listing) {
      StepKeepsWanted(before, s, before.pools, listing, i, gone, deleted);
    }
  }

  lemma TurnGoesOn(
    before: Store, s: Store, t: Store, listing: seq<Pool>, versions: seq<nat>, i: nat, gone: set<string>,
    deleted: set<string>, active: set<string>, nowActive: set<string>)
    requires i < |listing| && Lists(listing, before.pools)
    requires PassOn(before, s, listing, versions, i, gone, active)
    requires var p := listing[i];
             && t.nodes == s.nodes && VersionsKept(s, t, p.ref)
             && OnlyTouches(s.slices, t.slices, Touches(s, p), p)
             && gone <= deleted <= gone + MayDelete(s, p) && s.slices.Keys <= t.slices.Keys + deleted
             && t.pools == Replace(s.pools, p.ref, PoolAfter(p, t.nodes))
             && nowActive == active + (if Publishes(p) then NamesOf(p, t.nodes) else {})
             && (Finalizes(p) ==> forall name | name in MayDelete(s, p) :: name !in t.slices)
             && (Publishes(p) ==> CarriesLabels(t, p, NamesOf(p, t.nodes)))
             && ((Publishes(p) ==> NodeNamesDistinct(p, t.nodes)) ==> SlicesAsWanted(t, p))
    ensures PassOn(before, t, listing, versions, i + 1, deleted, nowActive)
  {
    hide Lists, OnlyTouches, Touches, MayDelete, PoolsAfter, Tracked, ClaimedGone, ForeignKept, Unclaimed, Wanted,
      Separate, Done, Unmoved, VersionsKept, Publishes, Finalizes, NamesOf, PoolAfter, Replace, CarriesLabels,
      NodeNamesDistinct, SlicesAsWanted, Step;
    TurnKeeps(before, s, t, listing, versions, i, gone, deleted, active);
    UnmovedNext(s, t, before.pools, listing, versions, i);
    WantedNext(listing, before.nodes, i);
    PoolsAfterNext(before.pools, listing, before.nodes, i);
    StepTracked(before, s, t, listing, i, gone, deleted);
    MayDeleteIsGone(s, t, listing[i]);
    StepClaims(before, s, t, listing, i, gone, deleted);
    if Separate(listing, before.nodes) {
      SeparateNames(listing, before.nodes, i);
      StepDone(s, t, before.pools, listing, i);
    }
  }

  /** From the last turn through the sweep to the end of the pass. */
  lemma PassIsOver(
    before: Store, s: Store, t: Store, listing: seq<Pool>, versions: seq<nat>, gone: set<string>,
    deleted: set<string>, active: set<string>, ok: bool)
    requires Lists(listing, before.pools) && PassOn(before, s, listing, versions, |listing|, gone, active)
    requires SlicesOnly(s, t) && OnlyOrphansGone(s.slices, t.slices, active)
    requires gone <= deleted && deleted * active <= gone && (ok ==> NoOrphans(t.slices, active))
    ensures t.nodes == before.nodes && ForeignKept(before, t, listing)
    ensures Unclaimed(before, listing) ==> deleted !! Wanted(listing, before.nodes)
    ensures ok ==>
              && (!Unclaimed(before, listing) ==> !(deleted !! Wanted(listing, before.nodes)))
              && t.pools == PoolsAfter(before.pools, listing, t.nodes)
              && (Settled(t) <==> Separate(listing, t.nodes))
              && (Separate(listing, t.nodes) ==> Done(t, listing, |listing|))
              && forall name | name in t.slices && t.slices[name].labels.managed :: name in Wanted(listing, t.nodes)
  {
    hide Lists, PoolsAfter, Tracked, ClaimedGone, ForeignKept, Unclaimed, Wanted, Separate, Done, Unmoved, Settled,
      OnlyOrphansGone;
    assert listing[..|listing|] == listing;
    SweepKeepsForeign(before, s, t, listing, active);
    if !Unclaimed(before, listing) { ClaimedWasDeleted(before, listing, gone); }
    if ok && Separate(listing, before.nodes) { PassEnds(before, s, t, listing); }
    if ok && Settled(t) { SettledIsSeparate(before, t, listing); }
  }

  /** What remains of the worker's list is what remains of the listing. */
  ghost predicate Ahead(f: FP.State, listing: seq<Pool>, versions: seq<nat>, i: nat) {
    && f.worker.Pools? && i + |f.worker.todo| == |listing| == |versions|
    && forall j | i <= j < |listing| :: Represents(f.worker.todo[j - i], listing[j], versions[j])
  }

  /** The pools ahead are stored in the versions listed. */
  ghost predicate Unmoved(s: Store, listing: seq<Pool>, versions: seq<nat>, i: nat) {
    |versions| == |listing| && forall j | i <= j < |listing| :: VersionOf(s, listing[j].ref) == versions[j]
  }

  lemma UnmovedNext(s: Store, t: Store, pools: map<Ref, Pool>, listing: seq<Pool>, versions: seq<nat>, i: nat)
    requires Unmoved(s, listing, versions, i) && i < |listing| && Lists(listing, pools)
    requires VersionsKept(s, t, listing[i].ref)
    ensures Unmoved(t, listing, versions, i + 1)
  {
  }

  lemma AheadNow(f: FP.State, listing: seq<Pool>, versions: seq<nat>, i: nat)
    requires Ahead(f, listing, versions, i) && i < |listing|
    ensures AtPool(f, listing[i], versions[i])
  {
  }

  lemma AheadNext(f: FP.State, g: FP.State, listing: seq<Pool>, versions: seq<nat>, i: nat)
    requires Ahead(f, listing, versions, i) && i < |listing|
    requires g.worker == FP.Pools(f.worker.todo[1..])
    ensures Ahead(g, listing, versions, i + 1)
  {
  }

  /** From an invariant state, everything done during the pass was safe. */
  lemma PassWasSafe(run: seq<FP.State>, from: nat, s: Store)
    requires FP.Steps(run) && from < |run| && FP.Inv(run[from]) && Abstracts(run[|run| - 1].store, s)
    ensures forall k | from <= k < |run| :: FP.Inv(run[k])
    ensures SlicesGuarded(s)
  {
    hide FP.Inv, FP.Steps;
    forall k | from <= k < |run| ensures FP.Inv(run[k]) {
      FP.StepsKeepInv(run, from, k);
    }
    InvIsSafe(run[|run| - 1]);
    SafeMeansGuarded(run[|run| - 1].store, s);
  }

  lemma InvIsSafe(f: FP.State)
    requires FP.Inv(f)
    ensures FP.Safe(f.store)
  {
  }

  /**
   * One pass over the pools, as listed at its start and stopping at the first failed call. Whatever
   * others do between its calls, what is done are steps of the finalizer protocol, so the protocol's
   * invariant holds all along and no slice is left without its pool, however the pass ends.
   *
   * When nobody else writes, all steps are the worker's; a complete pass settles the store unless
   * names are in dispute; pools, and then slices, are what the stored specs say; on a settled store a
   * pass writes nothing; and a wanted slice is deleted only, and in a complete pass surely, when some
   * pool claims it.
   */
  method Reconcile(c: Cluster, notInstalled: bool, faultsBefore: nat)
    returns (end: PassEnd, faults: nat, listing: seq<Pool>)
    requires c.Linked() && c.Now().worker.Idle?
    modifies c`calls, c`store, c`writes, c`deleted, c`run
    ensures c.Linked() && c.Now().worker.Idle? && old(c.run) <= c.run
    ensures FP.Inv(old(c.Now())) ==>
              SlicesGuarded(c.store) && forall k | |old(c.run)| - 1 <= k < |c.run| :: FP.Inv(c.run[k])
    ensures faults == if end.Complete? then |Unhealthy(listing)| else faultsBefore
    ensures end.NotInstalled? ==> notInstalled
    ensures Alone(c.env) ==>
              && Lists(listing, old(c.store.pools)) && c.store.nodes == old(c.store.nodes)
              && (Unclaimed(old(c.store), listing) ==> c.deleted !! Wanted(listing, c.store.nodes))
              && ForeignKept(old(c.store), c.store, listing)
              && (end.NotInstalled? || Settled(old(c.store)) ==>
                    c.store == old(c.store) && c.writes == old(c.writes))
    ensures Alone(c.env) && end.Complete? ==>
              && (!Unclaimed(old(c.store), listing) ==> !(c.deleted !! Wanted(listing, c.store.nodes)))
              && c.store.pools == PoolsAfter(old(c.store.pools), listing, c.store.nodes)
              && (Settled(c.store) <==> Separate(listing, c.store.nodes))
              && (Separate(listing, c.store.nodes) ==> Done(c.store, listing, |listing|))
              && PoolsTold(old(c.store), c.store, listing)
              && (Separate(listing, c.store.nodes) ==> forall p | p in listing :: PoolsSlicesTold(c.store, p))
              && forall name | name in c.store.slices && c.store.slices[name].labels.managed ::
                   name in Wanted(listing, c.store.nodes)
    ensures Alone(c.env) && Reliable(c.up) ==> end.Complete?
  {
    hide FP.Inv, FP.Steps, FP.WorkerRun, FP.WorkerStep, Abstracts, Lawful, Alone, Unclaimed, Wanted, ForeignKept,
      Settled, PoolsAfter, Separate, Done, Lists, PoolsTold, PoolsSlicesTold;
    ghost var start := |c.run| - 1;
    var ok, called, counted;
    ok, called, counted, listing := ReconcileAll(c);
    ghost var next := AbandonStep(c.Now());
    c.Follow(next, c.store);
    if FP.Inv(old(c.Now())) { PassWasSafe(c.run, start, c.store); }
    if ok {
      FaultsAreUnhealthy(listing);
      if Alone(c.env) { PassIsTold(old(c.store), c.store, listing); }
      return Complete, counted, listing;
    }
    return if !called && notInstalled then NotInstalled else Aborted, faultsBefore, listing;
  }

  /** The pass up to its first failed call; `called` says that the pools could be listed. */
  method ReconcileAll(c: Cluster) returns (ok: bool, called: bool, faults: nat, listing: seq<Pool>)
    requires c.Linked() && c.Now().worker.Idle?
    modifies c`calls, c`store, c`writes, c`deleted, c`run
    ensures c.Linked() && old(c.run) <= c.run
    ensures ok ==> called && faults == FaultCount(listing)
    ensures Alone(c.env) ==>
              && Lists(listing, old(c.store.pools)) && c.store.nodes == old(c.store.nodes)
              && (Unclaimed(old(c.store), listing) ==> c.deleted !! Wanted(listing, c.store.nodes))
              && ForeignKept(old(c.store), c.store, listing)
              && (!called || Settled(old(c.store)) ==> c.store == old(c.store) && c.writes == old(c.writes))
    ensures Alone(c.env) && ok ==>
              && (!Unclaimed(old(c.store), listing) ==> !(c.deleted !! Wanted(listing, c.store.nodes)))
              && c.store.pools == PoolsAfter(old(c.store.pools), listing, c.store.nodes)
              && (Settled(c.store) <==> Separate(listing, c.store.nodes))
              && (Separate(listing, c.store.nodes) ==> Done(c.store, listing, |listing|))
              && forall name | name in c.store.slices && c.store.slices[name].labels.managed ::
                   name in Wanted(listing, c.store.nodes)
    ensures Alone(c.env) && Reliable(c.up) ==> ok
  {
    hide Separate, Unclaimed, Wanted, ForeignKept, PoolsAfter, Done, Settled, Tracked, ClaimedGone, Publishes, NamesOf,
      PoolAfter, SlicesAsWanted, Replace, OnlyChanges, OnlyTouches, Touches, MayDelete, NodeNamesDistinct, Unmoved,
      CarriesLabels, FaultCount, Faulty, Ahead, AtPool, Abstracts, Lawful, Alone, FP.Steps, FP.WorkerRun, FP.WorkerStep,
      PassOn, Step, VersionOf, Lists, Current, Quiet, VersionsKept, OnlyOrphansGone, NoOrphans;
    ghost var before := c.store;
    c.deleted := {};
    faults := 0;
    var versions;
    ok, listing, versions := c.ListPools();
    called := ok;
    AllUnmoved(c.store, listing, versions);
    if Alone(c.env) { PassBegins(before, listing, versions); }
    NoFaultsYet(listing);
    if !ok {
      return;
    }
    ghost var next := ListStep(c.Now(), c.store, listing);
    c.Follow(next, c.store);
    var active: set<string> := {};
    AllAhead(c.Now(), c.store, listing, versions);
    for i := 0 to |listing|
      invariant ok && c.Linked() && old(c.run) <= c.run && Ahead(c.Now(), listing, versions, i)
      invariant faults == FaultCount(listing[..i])
      invariant Alone(c.env) ==>
                  Lists(listing, before.pools) && PassOn(before, c.store, listing, versions, i, c.deleted, active)
      invariant Alone(c.env) && Settled(before) ==> c.store == before && c.writes == old(c.writes)
    {
      ghost var s, gone, f := c.store, c.deleted, c.Now();
      AheadNow(c.Now(), listing, versions, i);
      if Alone(c.env) { PoolIsCurrent(before, s, listing, versions, i, gone, active); }
      if Alone(c.env) && Settled(before) { SettledIsQuiet(before, listing, i); }
      ghost var wasActive := active;
      var faulty;
      ok, active, faulty := ReconcilePool(c, listing[i], versions[i], active);
      if Alone(c.env) { TurnKeeps(before, s, c.store, listing, versions, i, gone, c.deleted, wasActive); }
      if !ok {
        return;
      }
      if Alone(c.env) { TurnGoesOn(before, s, c.store, listing, versions, i, gone, c.deleted, wasActive, active); }
      faults := faults + faulty;
      AheadNext(f, c.Now(), listing, versions, i);
      FaultsNext(listing, i);
    }
    assert listing[..|listing|] == listing;
    ghost var s, gone := c.store, c.deleted;
    NothingAhead(c.Now(), listing, versions);
    if Alone(c.env) && Settled(before) {
      SettledHasNoOrphans(before, listing);
      AllAreActive(before, s, listing, versions, gone, active);
    }
    ok := Sweep(c, active);
    if Alone(c.env) { PassIsOver(before, s, c.store, listing, versions, gone, c.deleted, active, ok); }
  }

  lemma AllAhead(f: FP.State, s: Store, listing: seq<Pool>, versions: seq<nat>)
    requires f.worker.Pools? && |f.worker.todo| == |listing| && Unmoved(s, listing, versions, 0)
    requires forall i | 0 <= i < |listing| ::
               Represents(f.worker.todo[i], listing[i], VersionOf(s, listing[i].ref))
    ensures Ahead(f, listing, versions, 0)
  {
  }

  lemma AllUnmoved(s: Store, listing: seq<Pool>, versions: seq<nat>)
    requires |versions| == |listing| && forall i | 0 <= i < |listing| :: versions[i] == VersionOf(s, listing[i].ref)
    ensures Unmoved(s, listing, versions, 0)
  {
  }

  lemma NothingAhead(f: FP.State, listing: seq<Pool>, versions: seq<nat>)
    requires Ahead(f, listing, versions, |listing|)
    ensures f.worker == FP.Pools([])
  {
  }
}
