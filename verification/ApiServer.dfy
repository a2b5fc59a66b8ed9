/**
 * The API server as the reconciler calls it: calls may fail, others may write between any two of them,
 * and the protocol steps taken so far are recorded.
 */
module ApiServer {
  import opened Types
  import opened PoolStore
  import opened WorkerSteps
  import FP = FinalizerProtocol

  /** What the store has become, through others, by the time of the n-th call. */
  type Environment = (nat, Store) -> Store

  /** No call fails. */
  ghost predicate Reliable(up: nat -> bool) {
    forall n :: up(n)
  }

  /** Nobody else writes. */
  ghost predicate Alone(env: Environment) {
    forall n: nat, s: Store :: env(n, s) == s
  }

  /** Others do what users may do in the finalizer protocol, any number of steps at a time. */
  ghost predicate Lawful(env: Environment) {
    forall n: nat, s: Store, f: FP.State | Abstracts(f.store, s) :: UsersReach(f, env(n, s))
  }

  ghost predicate UsersReach(f: FP.State, s: Store) {
    exists moves :: LeadsTo(f, moves, s)
  }

  ghost predicate LeadsTo(f: FP.State, moves: seq<FP.State>, s: Store) {
    FP.UserRun(moves) && moves[0] == f && Abstracts(moves[|moves| - 1].store, s)
  }

  lemma AloneIsLawful(env: Environment)
    requires Alone(env)
    ensures Lawful(env)
  {
    forall n: nat, s: Store, f: FP.State | Abstracts(f.store, s) ensures UsersReach(f, env(n, s)) {
      assert LeadsTo(f, [f], env(n, s));
    }
  }

  /** Some user deletes pool `ref` between two calls of a pass, whatever the worker is doing. */
  function Deleting(ref: Ref, before: nat): Environment {
    (n: nat, s: Store) => if n == before && ref in s.pools then PutPool(s, s.pools[ref].(deleting := true)) else s
  }

  lemma DeletingIsLawful(ref: Ref, before: nat)
    ensures Lawful(Deleting(ref, before))
  {
    var env := Deleting(ref, before);
    forall n: nat, s: Store, f: FP.State | Abstracts(f.store, s) ensures UsersReach(f, env(n, s)) {
      if n == before && ref in s.pools {
        DeletionIsStep(f, s, ref);
        var t := f.(store := FP.Put(f.store, f.store.pools[ref].(deleting := true)));
        assert LeadsTo(f, [f, t], env(n, s));
      } else {
        assert LeadsTo(f, [f], env(n, s));
      }
    }
  }

  lemma DeletionIsStep(f: FP.State, s: Store, ref: Ref)
    requires Abstracts(f.store, s) && ref in s.pools
    ensures var x := f.store.pools[ref].(deleting := true);
            && FP.UserStep(f, f.(store := FP.Put(f.store, x)))
            && Abstracts(FP.Put(f.store, x), PutPool(s, s.pools[ref].(deleting := true)))
  {
    var q := s.pools[ref].(deleting := true);
    assert FinalizerSet(q) == FinalizerSet(s.pools[ref]);
    PutsAlike(f.store, s, f.store.pools[ref].(deleting := true), q, VersionOf(s, ref));
    assert FP.Delete(f.store, FP.Put(f.store, f.store.pools[ref].(deleting := true)), ref);
  }

  /**
   * The store behind an API whose n-th call succeeds when `up(n)`. `deleted` is what the current pass
   * deleted, and `run` the steps of the finalizer protocol that the worker and others have taken.
   */
  class Cluster {
    const up: nat -> bool
    const env: Environment
    var store: Store
    var calls: nat
    var writes: nat
    ghost var deleted: set<string>
    ghost var run: seq<FP.State>

    constructor (up: nat -> bool, env: Environment, store: Store, ghost start: FP.State)
      requires Lawful(env) && Abstracts(start.store, store)
      ensures this.up == up && this.env == env && this.store == store && calls == 0 && writes == 0 && deleted == {}
      ensures Linked() && run == [start]
    {
      this.up := up;
      this.env := env;
      this.store := store;
      calls, writes, deleted, run := 0, 0, {}, [start];
    }

    /** The protocol state reached. */
    ghost function Now(): FP.State
      requires run != []
      reads this`run
    {
      run[|run| - 1]
    }

    /** The steps taken are steps of the protocol and lead to what the store was; undisturbed, all are the worker's. */
    ghost predicate Followed(was: Store)
      reads this`run
    {
      run != [] && FP.Steps(run) && (Alone(env) ==> FP.WorkerRun(run)) && Abstracts(Now().store, was)
    }

    /** The steps taken lead to what is stored, and others keep to the protocol. */
    ghost predicate Linked()
      reads this`run, this`store
    {
      Followed(store) && Lawful(env)
    }

    ghost method Follow(t: FP.State, was: Store)
      requires Followed(was) && FP.WorkerStep(Now(), t) && Abstracts(t.store, store)
      modifies this`run
      ensures Followed(store) && run == old(run) + [t] && Now() == t
    {
      hide FP.Steps, FP.WorkerRun, FP.WorkerStep, Abstracts;
      FP.WorkerGoesOn(run, t);
      run := run + [t];
    }

    method Call() returns (ok: bool)
      requires Linked()
      modifies this`calls, this`store, this`run
      ensures ok == up(old(calls)) && calls == old(calls) + 1
      ensures Linked() && old(run) <= run && Now().worker == old(Now()).worker
      ensures Alone(env) ==> store == old(store) && run == old(run)
    {
      hide FP.Steps, FP.WorkerRun, FP.UserRun, Abstracts;
      ghost var was := store;
      store := env(calls, store);
      if store != was {
        assert UsersReach(Now(), store);
        ghost var moves :| LeadsTo(Now(), moves, store);
        MovesExist(moves, Now(), store);
        FP.UsersGoOn(run, moves);
        run := run + moves[1..];
      }
      ok := up(calls);
      calls := calls + 1;
    }

    /** Stores a pool, unless its version has moved; returns the version stored. */
    method UpdatePool(p: Pool, version: nat) returns (ok: bool, stored: nat, ghost was: Store)
      requires Linked()
      modifies this`calls, this`store, this`writes, this`run
      ensures Lawful(env) && Followed(was) && old(run) <= run && Now().worker == old(Now()).worker
      ensures store == if ok then PutPool(was, p) else was
      ensures ok ==> Accepts(was, p.ref, version) && stored == VersionOf(store, p.ref)
      ensures writes == old(writes) + if ok then 1 else 0
      ensures Alone(env) ==> was == old(store)
      ensures Alone(env) && Reliable(up) && Accepts(was, p.ref, version) ==> ok
    {
      hide Lawful, Abstracts;
      ok := Call();
      was := store;
      ok := ok && Accepts(store, p.ref, version);
      if ok {
        store := PutPool(store, p);
        writes := writes + 1;
      }
      stored := VersionOf(store, p.ref);
    }

    /** Writes the status and nothing else of a pool, unless its version has moved. */
    method UpdateStatus(ref: Ref, version: nat, status: Status) returns (ok: bool, ghost was: Store)
      requires Linked()
      modifies this`calls, this`store, this`writes, this`run
      ensures Lawful(env) && Followed(was) && old(run) <= run && Now().worker == old(Now()).worker
      ensures ok ==> Accepts(was, ref, version)
      ensures store == if ok then PutPool(was, was.pools[ref].(status := Some(status))) else was
      ensures writes == old(writes) + if ok then 1 else 0
      ensures Alone(env) ==> was == old(store)
      ensures Alone(env) && Reliable(up) && Accepts(was, ref, version) ==> ok
    {
      hide Lawful, Abstracts;
      ok := Call();
      was := store;
      ok := ok && Accepts(store, ref, version);
      if ok {
        store := PutPool(store, store.pools[ref].(status := Some(status)));
        writes := writes + 1;
      }
    }

    /** All pools, each with its version, in some order. */
    method ListPools() returns (ok: bool, listing: seq<Pool>, versions: seq<nat>)
      requires Linked()
      modifies this`calls, this`store, this`run
      ensures Linked() && old(run) <= run && Now().worker == old(Now()).worker
      ensures Lists(listing, store.pools) && |versions| == |listing|
      ensures forall i | 0 <= i < |listing| :: versions[i] == VersionOf(store, listing[i].ref)
      ensures Alone(env) ==> store == old(store)
      ensures Alone(env) && Reliable(up) ==> ok
    {
      hide Lawful, Abstracts, FP.Steps, FP.WorkerRun;
      ok := Call();
      PoolsAreKeyed(Now().store, store);
      listing, versions := [], [];
      var refs := store.pools.Keys;
      while refs != {}
        invariant refs <= store.pools.Keys && forall i | 0 <= i < |listing| :: listing[i].ref !in refs
        invariant forall i | 0 <= i < |listing| ::
                    listing[i].ref in store.pools && store.pools[listing[i].ref] == listing[i]
        invariant forall ref | ref in store.pools && ref !in refs ::
                    exists i :: 0 <= i < |listing| && listing[i].ref == ref
        invariant forall i, j | 0 <= i < j < |listing| :: listing[i].ref != listing[j].ref
        invariant |versions| == |listing|
        invariant forall i | 0 <= i < |listing| :: versions[i] == VersionOf(store, listing[i].ref)
        decreases refs
      {
        var ref :| ref in refs;
        ghost var before := listing;
        listing, versions := listing + [store.pools[ref]], versions + [VersionOf(store, ref)];
        assert listing[|before|].ref == ref && forall i | 0 <= i < |before| :: listing[i] == before[i];
        refs := refs - {ref};
      }
    }

    method GetSlice(name: string) returns (ok: bool, o: Option<SliceObject>)
      requires Linked()
      modifies this`calls, this`store, this`run
      ensures Linked() && old(run) <= run && Now().worker == old(Now()).worker
      ensures Alone(env) ==> store == old(store)
      ensures ok ==> o == StoredSlice(store, name)
      ensures Alone(env) && Reliable(up) ==> ok
    {
      hide Lawful, Abstracts;
      ok := Call();
      o := StoredSlice(store, name);
    }

    /** All slices, in some order. */
    method ListSlices() returns (ok: bool, items: seq<(string, SliceObject)>)
      requires Linked()
      modifies this`calls, this`store, this`run
      ensures Linked() && old(run) <= run && Now().worker == old(Now()).worker
      ensures Alone(env) ==> store == old(store)
      ensures ListsSlices(items, store.slices)
      ensures Alone(env) && Reliable(up) ==> ok
    {
      hide Lawful, Abstracts;
      ok := Call();
      items := [];
      var names := store.slices.Keys;
      while names != {}
        invariant names <= store.slices.Keys && forall i | 0 <= i < |items| :: items[i].0 !in names
        invariant forall i | 0 <= i < |items| :: items[i].0 in store.slices && items[i].1 == store.slices[items[i].0]
        invariant forall name | name in store.slices && name !in names :: (name, store.slices[name]) in items
        invariant forall i, j | 0 <= i < j < |items| :: items[i].0 != items[j].0
        decreases names
      {
        var name :| name in names;
        items := items + [(name, store.slices[name])];
        names := names - {name};
      }
    }

    /** Creates a slice, or updates the one that was read; refused when what is stored has changed since. */
    method PutSlice(name: string, existing: Option<SliceObject>, o: SliceObject) returns (ok: bool, ghost was: Store)
      requires Linked()
      modifies this`calls, this`store, this`writes, this`run
      ensures Lawful(env) && Followed(was) && old(run) <= run && Now().worker == old(Now()).worker
      ensures ok ==> existing == StoredSlice(was, name)
      ensures store == if ok then was.(slices := was.slices[name := o]) else was
      ensures writes == old(writes) + if ok then 1 else 0
      ensures Alone(env) ==> was == old(store)
      ensures Alone(env) && Reliable(up) && existing == StoredSlice(was, name) ==> ok
    {
      hide Lawful, Abstracts;
      ok := Call();
      was := store;
      ok := ok && existing == StoredSlice(store, name);
      if ok {
        store := store.(slices := store.slices[name := o]);
        writes := writes + 1;
      }
    }

    /** A missing slice counts as deleted. */
    method DeleteSlice(name: string) returns (ok: bool, ghost was: Store)
      requires Linked()
      modifies this`calls, this`store, this`writes, this`deleted, this`run
      ensures Lawful(env) && Followed(was) && old(run) <= run && Now().worker == old(Now()).worker
      ensures store == if ok then was.(slices := was.slices - {name}) else was
      ensures deleted == old(deleted) + if ok && name in was.slices then {name} else {}
      ensures writes == old(writes) + if ok && name in was.slices then 1 else 0
      ensures Alone(env) ==> was == old(store)
      ensures Alone(env) && Reliable(up) ==> ok
    {
      hide Lawful, Abstracts;
      ok := Call();
      was := store;
      if ok {
        if name in store.slices {
          writes := writes + 1;
          deleted := deleted + {name};
        } else {
          assert store.slices - {name} == store.slices;
        }
        store := store.(slices := store.slices - {name});
      }
    }
  }

  lemma MovesExist(moves: seq<FP.State>, f: FP.State, s: Store)
    requires LeadsTo(f, moves, s)
    ensures FP.UserRun(moves) && moves != [] && moves[0] == f && Abstracts(moves[|moves| - 1].store, s)
  {
  }
}
