/**
 * Whole runs: the simulator lists the claims, plans against what it listed and has written since, and
 * commits, while the stored claims change around it.
 */
module Runs {
  import opened Types
  import opened Ledger
  import opened Simulation

  // ---------- what the environment does ----------

  ghost predicate Arrives(before: seq<Claim>, i: nat, claim: Claim, after: seq<Claim>) {
    i <= |before| && claim.allocation.None? && after == before[..i] + [claim] + before[i..]
  }

  ghost predicate Leaves(before: seq<Claim>, i: nat, after: seq<Claim>) {
    i < |before| && after == before[..i] + before[i + 1..]
  }

  ghost predicate Releases(before: seq<Claim>, i: nat, claim: Claim, after: seq<Claim>) {
    i < |before| && claim.allocation.None? && after == before[i := claim]
  }

  /** Between commits, nothing happens, or claims arrive pending, leave, or are edited and lose their allocation. */
  ghost predicate Environment(before: seq<Claim>, after: seq<Claim>) {
    || after == before
    || (exists i, claim :: Arrives(before, i, claim, after))
    || (exists i :: Leaves(before, i, after))
    || (exists i, claim :: Releases(before, i, claim, after))
  }

  /** The environment's steps only take results away. */
  lemma EnvironmentRemoves(before: seq<Claim>, after: seq<Claim>)
    returns (a: seq<Result>, gone: seq<Result>, b: seq<Result>)
    requires Environment(before, after)
    ensures AllResults(before) == a + gone + b && AllResults(after) == a + b
  {
    hide Arrives, Leaves, Releases;
    if after == before {
      a, gone, b := AllResults(before), [], [];
    } else if i, claim :| Arrives(before, i, claim, after) {
      a, gone, b := ArrivalRemoves(before, i, claim, after);
    } else if i :| Leaves(before, i, after) {
      a, gone, b := LeavingRemoves(before, i, after);
    } else {
      var i, claim :| Releases(before, i, claim, after);
      a, gone, b := ReleaseRemoves(before, i, claim, after);
    }
  }

  lemma ArrivalRemoves(before: seq<Claim>, i: nat, claim: Claim, after: seq<Claim>)
    returns (a: seq<Result>, gone: seq<Result>, b: seq<Result>)
    requires Arrives(before, i, claim, after)
    ensures AllResults(before) == a + gone + b && AllResults(after) == a + b
  {
    hide AllResults;
    a, gone, b := AllResults(before[..i]), [], AllResults(before[i..]);
    assert before == before[..i] + before[i..];
    AllResultsConcat(before[..i], before[i..]);
    AllResultsConcat(before[..i] + [claim], before[i..]);
    AllResultsSnoc(before[..i], claim);
  }

  lemma LeavingRemoves(before: seq<Claim>, i: nat, after: seq<Claim>)
    returns (a: seq<Result>, gone: seq<Result>, b: seq<Result>)
    requires Leaves(before, i, after)
    ensures AllResults(before) == a + gone + b && AllResults(after) == a + b
  {
    hide AllResults;
    a, gone, b := AllResults(before[..i]), ResultsOf(before[i]), AllResults(before[i + 1..]);
    ResultsAround(before, i, before[i]);
    assert before[i := before[i]] == before;
    AllResultsConcat(before[..i], before[i + 1..]);
  }

  lemma ReleaseRemoves(before: seq<Claim>, i: nat, claim: Claim, after: seq<Claim>)
    returns (a: seq<Result>, gone: seq<Result>, b: seq<Result>)
    requires Releases(before, i, claim, after)
    ensures AllResults(before) == a + gone + b && AllResults(after) == a + b
  {
    hide AllResults;
    a, gone, b := AllResults(before[..i]), ResultsOf(before[i]), AllResults(before[i + 1..]);
    ResultsAround(before, i, before[i]);
    ResultsAround(before, i, claim);
    assert before[i := before[i]] == before;
  }

  lemma {:induction false} TotalNotNegative(rs: seq<Result>, k: Key, n: string)
    requires forall r | r in rs :: Ledger.WellFormed(r)
    ensures Total(rs, k, n) >= 0
  {
    if rs != [] {
      var r := rs[|rs| - 1];
      assert rs == rs[..|rs| - 1] + [r];
      assert Ledger.WellFormed(r);
      TotalNotNegative(rs[..|rs| - 1], k, n);
    }
  }

  // ---------- fewer results ----------

  lemma {:induction false} Twice<T>(s: seq<T>, x: T) returns (i: nat, j: nat)
    requires multiset(s)[x] >= 2
    ensures i < j < |s| && s[i] == x == s[j]
  {
    var init, last := s[..|s| - 1], s[|s| - 1];
    assert s == init + [last];
    if multiset(init)[x] >= 2 {
      i, j := Twice(init, x);
    } else {
      assert x in multiset(init);
      i, j := 0, |s| - 1;
      while s[i] != x
        invariant i <= |init| && x in multiset(init[i..])
        decreases |init| - i
      {
        assert init[i..] == [init[i]] + init[i + 1..];
        i := i + 1;
      }
    }
  }

  /** Some of the results of a consistent ledger are consistent, in whatever order. */
  lemma FewerAreConsistent(less: seq<Result>, more: seq<Result>)
    requires multiset(less) <= multiset(more) && Consistent(more)
    ensures Consistent(less)
  {
    forall r | r in less ensures Ledger.WellFormed(r) {
      assert r in multiset(more);
      var m :| 0 <= m < |more| && more[m] == r;
    }
    forall i, j | 0 <= i < j < |less|
      ensures Compatible(less[i], less[j])
    {
      var m, n := Somewhere(less, more, i, j);
    }
  }

  /** Two results at different places are at different places of the larger collection, too. */
  lemma Somewhere<T>(less: seq<T>, more: seq<T>, i: nat, j: nat) returns (m: nat, n: nat)
    requires multiset(less) <= multiset(more) && i < j < |less|
    ensures m < |more| && n < |more| && m != n && more[m] == less[i] && more[n] == less[j]
  {
    var x, y := less[i], less[j];
    if x == y {
      CountsTwo(less, i, j);
      m, n := Twice(more, x);
    } else {
      assert x in multiset(less) && y in multiset(less);
      assert x in more && y in more;
      m :| 0 <= m < |more| && more[m] == x;
      n :| 0 <= n < |more| && more[n] == y;
    }
  }

  lemma CountsTwo<T>(s: seq<T>, i: nat, j: nat)
    requires i < j < |s| && s[i] == s[j]
    ensures multiset(s)[s[i]] >= 2
  {
    var a, b := s[..j], s[j..];
    assert s == a + b;
    assert a[i] == s[i] && b[0] == s[i];
    assert multiset(s) == multiset(a) + multiset(b);
    assert s[i] in multiset(a) && s[i] in multiset(b);
  }

  lemma LeaveOne<T>(m: multiset<T>, n: multiset<T>, x: T)
    requires m + multiset{x} <= n + multiset{x}
    ensures m <= n
  {
    forall y ensures m[y] <= n[y] {
      assert (m + multiset{x})[y] <= (n + multiset{x})[y];
    }
  }

  /** Leaving out results does not raise a total. */
  lemma {:induction false} FewerConsumeLess(less: seq<Result>, more: seq<Result>, k: Key, n: string)
    requires multiset(less) <= multiset(more) && forall r | r in more :: Ledger.WellFormed(r)
    ensures Total(less, k, n) <= Total(more, k, n)
    decreases |less|
  {
    if less == [] {
      TotalNotNegative(more, k, n);
    } else {
      var init, x := less[..|less| - 1], less[|less| - 1];
      assert less == init + [x];
      assert x in multiset(more);
      var i :| 0 <= i < |more| && more[i] == x;
      var rest := more[..i] + more[i + 1..];
      assert more == more[..i] + [x] + more[i + 1..];
      assert multiset(more) == multiset(rest) + multiset{x};
      LeaveOne(multiset(init), multiset(rest), x);
      FewerConsumeLess(init, rest, k, n);
      TotalConcat(more[..i] + [x], more[i + 1..], k, n);
      TotalConcat(more[..i], [x], k, n);
      TotalConcat(more[..i], more[i + 1..], k, n);
      TotalConcat(init, [x], k, n);
    }
  }

  lemma FewerFit(less: seq<Result>, more: seq<Result>, slices: seq<Slice>)
    requires multiset(less) <= multiset(more) && Consistent(more) && FitsInventory(more, slices)
    ensures FitsInventory(less, slices)
  {
    forall r | r in less ensures r in more { assert r in multiset(less); }
    forall r | r in more ensures Ledger.WellFormed(r) { var m :| 0 <= m < |more| && more[m] == r; }
    forall s, d | s in slices && s.managed && d in s.devices && d.shareable
      ensures FitsDevice(less, Key(s.driver, s.pool, d.name), d)
    {
      var k := Key(s.driver, s.pool, d.name);
      assert FitsDevice(more, k, d);
      forall n | n in d.capacity ensures Total(less, k, n) <= d.capacity[n].total {
        FewerConsumeLess(less, more, k, n);
      }
    }
  }

  // ---------- runs ----------

  /** The claims as stored, and as the simulator knows them from its last listing and its writes since. */
  datatype View = View(stored: seq<Claim>, known: seq<Claim>)

  /** Every pass begins by listing the claims. */
  ghost predicate ListStep(s: View, t: View) {
    t == View(s.stored, s.stored)
  }

  /**
   * A plan made against the known claims is stored. The API accepts the write only when the claim is
   * still stored as the simulator knows it; the other claims may have changed meanwhile.
   */
  ghost predicate CommitStep(inv: Inventory, s: View, t: View) {
    exists i: nat, j: nat, path, ids ::
      && Commits(inv, s.known, i, path, ids, t.known)
      && Accepted(s, t, i, j)
  }

  ghost predicate Accepted(s: View, t: View, i: nat, j: nat) {
    && i < |s.known| == |t.known| && j < |s.stored|
    && s.stored[j] == s.known[i] && t.stored == s.stored[j := t.known[i]]
  }

  ghost predicate OutsideStep(s: View, t: View) {
    t.known == s.known && Environment(s.stored, t.stored)
  }

  ghost predicate Step(inv: Inventory, s: View, t: View) {
    ListStep(s, t) || CommitStep(inv, s, t) || OutsideStep(s, t)
  }

  /** A run: step t reads inventory invs[t]; it starts with a listing. */
  ghost predicate Run(invs: seq<Inventory>, views: seq<View>) {
    && |views| == |invs| + 1 && views[0].known == views[0].stored
    && forall t | 0 <= t < |invs| :: Step(invs[t], views[t], views[t + 1])
  }

  /** What is stored may have lost results that the simulator still counts, but gained none. */
  ghost predicate Tracks(s: View) {
    && Consistent(AllResults(s.known))
    && multiset(AllResults(s.stored)) <= multiset(AllResults(s.known))
  }

  lemma EnvironmentGainsNothing(before: seq<Claim>, after: seq<Claim>)
    requires Environment(before, after)
    ensures multiset(AllResults(after)) <= multiset(AllResults(before))
  {
    hide AllResults, Environment;
    var a, gone, b := EnvironmentRemoves(before, after);
  }

  lemma WriteAddsResults(claims: seq<Claim>, i: nat, claim: Claim)
    requires i < |claims| && claims[i].allocation.None?
    ensures multiset(AllResults(claims[i := claim])) == multiset(AllResults(claims)) + multiset(ResultsOf(claim))
  {
    hide AllResults;
    ResultsAround(claims, i, claims[i]);
    ResultsAround(claims, i, claim);
    assert claims[i := claims[i]] == claims;
  }

  lemma AcceptedTracks(s: View, t: View, i: nat, j: nat)
    requires Accepted(s, t, i, j) && s.known[i].allocation.None? && t.known == s.known[i := t.known[i]]
    requires multiset(AllResults(s.stored)) <= multiset(AllResults(s.known))
    ensures multiset(AllResults(t.stored)) <= multiset(AllResults(t.known))
  {
    hide AllResults, ResultsOf;
    WriteAddsResults(s.known, i, t.known[i]);
    WriteAddsResults(s.stored, j, t.known[i]);
  }

  lemma CommitTracks(inv: Inventory, catalog: seq<Slice>, s: View, t: View)
    requires CommitStep(inv, s, t) && Tracks(s)
    ensures Tracks(t)
    ensures UniqueRecords(catalog) && PartOf(inv.slices, catalog) && FitsInventory(AllResults(s.known), catalog) ==>
              FitsInventory(AllResults(t.known), catalog)
  {
    hide PlanFor, FreshIDs, Consistent, FitsInventory, UniqueRecords, PartOf, AllResults;
    var i: nat, j: nat, path, ids :| Commits(inv, s.known, i, path, ids, t.known) && Accepted(s, t, i, j);
    CommitKeepsConsistency(inv, s.known, i, path, ids, t.known);
    AcceptedTracks(s, t, i, j);
    if UniqueRecords(catalog) && PartOf(inv.slices, catalog) && FitsInventory(AllResults(s.known), catalog) {
      CommitKeepsCapacity(inv, catalog, s.known, i, path, ids, t.known);
    }
  }

  lemma StepTracks(inv: Inventory, catalog: seq<Slice>, s: View, t: View)
    requires Step(inv, s, t) && Tracks(s)
    ensures Tracks(t)
    ensures UniqueRecords(catalog) && PartOf(inv.slices, catalog) && FitsInventory(AllResults(s.known), catalog) ==>
              FitsInventory(AllResults(t.known), catalog)
  {
    hide Consistent, FitsInventory, UniqueRecords, PartOf, AllResults, CommitStep, Environment;
    if ListStep(s, t) {
      FewerAreConsistent(AllResults(s.stored), AllResults(s.known));
      if FitsInventory(AllResults(s.known), catalog) {
        FewerFit(AllResults(s.stored), AllResults(s.known), catalog);
      }
    } else if CommitStep(inv, s, t) {
      CommitTracks(inv, catalog, s, t);
    } else {
      EnvironmentGainsNothing(s.stored, t.stored);
    }
  }

  lemma {:induction false} RunTracks(invs: seq<Inventory>, views: seq<View>, catalog: seq<Slice>, t: nat)
    requires Run(invs, views) && t < |views| && Consistent(AllResults(views[0].stored))
    ensures Tracks(views[t])
    ensures (UniqueRecords(catalog) && FitsInventory(AllResults(views[0].stored), catalog)
             && forall i | 0 <= i < |invs| :: PartOf(invs[i].slices, catalog)) ==>
              FitsInventory(AllResults(views[t].known), catalog)
  {
    hide Consistent, FitsInventory, UniqueRecords, PartOf, AllResults, Step;
    if t > 0 {
      RunTracks(invs, views, catalog, t - 1);
      StepTracks(invs[t - 1], catalog, views[t - 1], views[t]);
    }
  }

  /**
   * Over all runs, with inventories that may change at every step and plans made against listings that
   * may be out of date: from a consistent ledger, the stored claims and those the simulator knows are
   * always consistent, so collecting the ledger never fails, no exclusive device is held twice, and no
   * device is both exclusive and shared.
   */
  lemma RunsStayConsistent(invs: seq<Inventory>, views: seq<View>, t: nat)
    requires Run(invs, views) && t < |views| && Collect(AllResults(views[0].stored)).Some?
    ensures Collect(AllResults(views[t].stored)).Some? && Consistent(AllResults(views[t].stored))
    ensures Collect(AllResults(views[t].known)).Some?
  {
    hide Consistent, Collect, AllResults, Run;
    CollectIffConsistent(AllResults(views[0].stored));
    RunTracks(invs, views, [], t);
    FewerAreConsistent(AllResults(views[t].stored), AllResults(views[t].known));
    CollectIffConsistent(AllResults(views[t].stored));
    CollectIffConsistent(AllResults(views[t].known));
  }

  /**
   * Over all runs in which slices come and go but a device's record never changes, no shared device is
   * consumed beyond its capacities, and its shares report exactly them.
   */
  lemma RunsStayWithinCapacity(invs: seq<Inventory>, views: seq<View>, catalog: seq<Slice>, t: nat)
    requires Run(invs, views) && t < |views| && Collect(AllResults(views[0].stored)).Some?
    requires UniqueRecords(catalog) && forall i | 0 <= i < |invs| :: PartOf(invs[i].slices, catalog)
    requires FitsInventory(AllResults(views[0].stored), catalog)
    ensures FitsInventory(AllResults(views[t].stored), catalog)
  {
    hide Consistent, Collect, AllResults, Run, FitsInventory, UniqueRecords, PartOf;
    CollectIffConsistent(AllResults(views[0].stored));
    RunTracks(invs, views, catalog, t);
    FewerFit(AllResults(views[t].stored), AllResults(views[t].known), catalog);
  }

  // ---------- passes are runs ----------

  function Alone(claims: seq<Claim>): View {
    View(claims, claims)
  }

  /** A pass, complete or cut short, is part of a run. */
  lemma TurnsAreRun(inv: Inventory, states: seq<seq<Claim>>, accepts: nat -> bool)
    requires Turns(inv, states, accepts)
    ensures Run(seq(|states| - 1, _ => inv), seq(|states|, i requires 0 <= i < |states| => Alone(states[i])))
  {
    hide Planned, PlanFor, FreshIDs;
    forall i: nat | i < |states| - 1 ensures Step(inv, Alone(states[i]), Alone(states[i + 1])) {
      TurnIsStep(inv, states[i], i, accepts, states[i + 1]);
    }
  }

  lemma TurnIsStep(inv: Inventory, before: seq<Claim>, i: nat, accepts: nat -> bool, after: seq<Claim>)
    requires Turn(inv, before, i, accepts, after)
    ensures Step(inv, Alone(before), Alone(after))
  {
    hide Planned, PlanFor, FreshIDs;
    if after != before {
      var r :| Planned(inv, before, before[i], r) && Disposes(inv, before, i, r, accepts, after);
      var ids :| Commits(inv, before, i, r.value, ids, after);
      assert Accepted(Alone(before), Alone(after), i, i);
      assert CommitStep(inv, Alone(before), Alone(after));
    }
  }

  /** After every commit of every pass, however it ends, the ledger is consistent and within capacity. */
  lemma PassIsSafe(inv: Inventory, states: seq<seq<Claim>>, accepts: nat -> bool, t: nat)
    requires Turns(inv, states, accepts) && t < |states| && Collect(AllResults(states[0])).Some?
    ensures Collect(AllResults(states[t])).Some?
    ensures UniqueRecords(inv.slices) && FitsInventory(AllResults(states[0]), inv.slices) ==>
              FitsInventory(AllResults(states[t]), inv.slices)
  {
    hide Collect, FitsInventory, UniqueRecords, Turns, Step, Run, AllResults;
    TurnsAreRun(inv, states, accepts);
    var invs := seq(|states| - 1, _ => inv);
    var views := seq(|states|, i requires 0 <= i < |states| => Alone(states[i]));
    RunsStayConsistent(invs, views, t);
    if UniqueRecords(inv.slices) && FitsInventory(AllResults(states[0]), inv.slices) {
      RunsStayWithinCapacity(invs, views, inv.slices, t);
    }
  }
}
