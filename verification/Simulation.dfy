/** Planning and committing one claim, what a commit keeps, and a pass over the claims. */
module Simulation {
  import opened Types
  import opened Candidates
  import opened Choices
  import opened Constraints
  import opened Backtracking
  import opened Ledger
  import opened Plans
  import Greedy
  import SearchMachine

  function ResultsOf(claim: Claim): seq<Result> {
    match claim.allocation
    case None => []
    case Some(a) => a.results
  }

  /** All results of all allocated claims. */
  function AllResults(claims: seq<Claim>): seq<Result>
  {
    if claims == [] then []
    else
      AllResults(claims[..|claims| - 1]) + ResultsOf(claims[|claims| - 1])
  }

  /** What a pass reads besides the claims. */
  datatype Inventory = Inventory(
    slices: seq<Slice>, classes: map<string, seq<string>>,
    selects: (string, Device, seq<string>, seq<string>) -> Selection, errorFirst: (Query, Key, Attempt) -> bool)

  function PlannerFor(inv: Inventory, committed: Usage): Planner {
    Planner(inv.slices, inv.classes, committed, inv.selects, inv.errorFirst)
  }

  // ---------- planning one claim ----------

  predicate HasManagedShareable(slices: seq<Slice>) {
    exists i, j | 0 <= i < |slices| && 0 <= j < |slices[i].devices| ::
      slices[i].managed && slices[i].devices[j].shareable
  }

  predicate HasShared(usage: Usage) {
    exists k | k in usage :: usage[k].shared
  }

  /** The path solves the claim's requests under its constraints, beside what the claims have committed. */
  ghost predicate PlanFor(inv: Inventory, claims: seq<Claim>, claim: Claim, path: seq<Choice>) {
    && SupportedConstraints(claim).Ok?
    && Collect(AllResults(claims)).Some?
    && Solution(PlannerFor(inv, Collect(AllResults(claims)).value), claim.requests, SupportedConstraints(claim).value,
                START, path)
  }

  function Answer(v: Verdict): Outcome<seq<Choice>> {
    match v
    case Solved(path) => Ok(path)
    case Unsolvable => Err(NoMatch)
    case Aborted(f) => Err(f)
    case OutOfBudget => Err(Unsupported)
  }

  /** What planning the claim comes to: the search where constraints or shares are involved, else the greedy planner. */
  ghost predicate Planned(inv: Inventory, claims: seq<Claim>, claim: Claim, r: Outcome<seq<Choice>>) {
    var cs, committed := SupportedConstraints(claim), Collect(AllResults(claims));
    if cs.Err? then r == Err(cs.failure)
    else if committed.None? then r == Err(Unsupported)
    else
      var p := PlannerFor(inv, committed.value);
      if cs.value != [] || HasManagedShareable(inv.slices) || HasShared(committed.value)
      then r == Answer(Search(p, claim.requests, cs.value, START, SearchMachine.SEARCH_LIMIT).0)
      else Greedy.GreedyPlans(p, claim.requests, r)
  }

  /** Chooses the planner; whichever it is, what it returns is a solution. */
  method PlanClaim(inv: Inventory, claims: seq<Claim>, claim: Claim) returns (r: Outcome<seq<Choice>>)
    ensures Planned(inv, claims, claim, r)
    ensures r.Ok? ==> PlanFor(inv, claims, claim, r.value)
  {
    hide Solution, Search, Explore, Greedy.GreedyPlans;
    var cs := SupportedConstraints(claim);
    if cs.Err? {
      return Err(cs.failure);
    }
    var committed := CollectUsage(AllResults(claims));
    if committed.None? {
      return Err(Unsupported);
    }
    var p := PlannerFor(inv, committed.value);
    if cs.value != [] || HasManagedShareable(inv.slices) || HasShared(committed.value) {
      var v := SearchMachine.PlanConstrained(p, claim.requests, cs.value);
      return Answer(v);
    }
    CollectIffConsistent(AllResults(claims));
    Greedy.UnsharedLedger(committed.value, AllResults(claims));
    r := Greedy.PlanUnconstrained(p, claim.requests);
  }

  // ---------- committing a plan ----------

  /** The stored result of a planned device; a share receives an identifier. */
  function Stamp(g: Grant, id: string): Result {
    Result(g.request, g.key, if g.consumed.Some? then Some(id) else None, g.consumed)
  }

  function StampAll(picks: seq<Pick>, ids: seq<string>): (rs: seq<Result>)
    requires |ids| == |picks|
    ensures |rs| == |picks| && forall i | 0 <= i < |rs| :: rs[i] == Stamp(picks[i].grant, ids[i])
  {
    seq(|picks|, i requires 0 <= i < |picks| => Stamp(picks[i].grant, ids[i]))
  }

  /** Identifiers as a UUID generator draws them: well formed, distinct and not in use. */
  ghost predicate FreshIDs(ids: seq<string>, results: seq<Result>) {
    && (forall i | 0 <= i < |ids| :: ValidShareID(ids[i]))
    && (forall i, j | 0 <= i < j < |ids| :: ids[i] != ids[j])
    && (forall i, r | 0 <= i < |ids| && r in results :: r.shareID != Some(ids[i]))
  }

  function Allocate(claim: Claim, rs: seq<Result>, node: string): Claim {
    claim.(allocation := Some(Allocation(rs, node)))
  }

  /** Claim number i, still pending, receives the results of a plan for it. */
  ghost predicate Commits(
    inv: Inventory, before: seq<Claim>, i: nat, path: seq<Choice>, ids: seq<string>, after: seq<Claim>)
  {
    && i < |before| && before[i].allocation.None?
    && PlanFor(inv, before, before[i], path)
    && |ids| == |Finish(START, path).picks| && FreshIDs(ids, AllResults(before))
    && after == before[i := Allocate(before[i], StampAll(Finish(START, path).picks, ids), Finish(START, path).node)]
  }

  // ---------- what a commit keeps ----------

  lemma AllResultsSnoc(claims: seq<Claim>, claim: Claim)
    ensures AllResults(claims + [claim]) == AllResults(claims) + ResultsOf(claim)
  {
  }

  lemma Associates<T>(a: seq<T>, b: seq<T>, c: seq<T>)
    ensures a + b + c == a + (b + c)
  {
  }

  lemma {:induction false} AllResultsConcat(a: seq<Claim>, b: seq<Claim>)
    ensures AllResults(a + b) == AllResults(a) + AllResults(b)
  {
    if b == [] {
      assert a + b == a;
    } else {
      hide AllResults, ResultsOf;
      var init, claim := b[..|b| - 1], b[|b| - 1];
      AllResultsConcat(a, init);
      AllResultsSnoc(a + init, claim);
      AllResultsSnoc(init, claim);
      assert b == init + [claim];
      Associates(a, init, [claim]);
      Associates(AllResults(a), AllResults(init), ResultsOf(claim));
    }
  }

  lemma ResultsAround(claims: seq<Claim>, i: nat, claim: Claim)
    requires i < |claims|
    ensures AllResults(claims[i := claim]) == AllResults(claims[..i]) + ResultsOf(claim) + AllResults(claims[i + 1..])
  {
    hide AllResults, ResultsOf;
    assert claims[i := claim] == claims[..i] + [claim] + claims[i + 1..];
    AllResultsConcat(claims[..i] + [claim], claims[i + 1..]);
    AllResultsSnoc(claims[..i], claim);
  }

  lemma {:induction false} TotalConcat(a: seq<Result>, b: seq<Result>, k: Key, n: string)
    ensures Total(a + b, k, n) == Total(a, k, n) + Total(b, k, n)
  {
    if b == [] {
      assert a + b == a;
    } else {
      TotalConcat(a, b[..|b| - 1], k, n);
      assert (a + b)[..|a + b| - 1] == a + b[..|b| - 1];
    }
  }

  lemma ConsistentInsert(a: seq<Result>, added: seq<Result>, b: seq<Result>)
    requires Consistent(a + b) && Consistent(added)
    requires forall x, y | x in added && y in a + b :: Compatible(x, y)
    ensures Consistent(a + added + b)
  {
    var present, all := a + b, a + added + b;
    forall i | 0 <= i < |all|
      ensures Ledger.WellFormed(all[i])
    {
      if i < |a| { assert all[i] == present[i]; }
      else if i < |a| + |added| { assert all[i] == added[i - |a|]; }
      else { assert all[i] == present[i - |added|]; }
    }
    forall i, j | 0 <= i < j < |all|
      ensures Compatible(all[i], all[j])
    {
      var inI, inJ := |a| <= i < |a| + |added|, |a| <= j < |a| + |added|;
      var oi, oj := if i < |a| then i else i - |added|, if j < |a| then j else j - |added|;
      assert if inI then all[i] == added[i - |a|] && all[i] in added else all[i] == present[oi] && all[i] in present;
      assert if inJ then all[j] == added[j - |a|] && all[j] in added else all[j] == present[oj] && all[j] in present;
    }
  }

  lemma StampedConsistent(p: Planner, picks: seq<Pick>, ids: seq<string>, results: seq<Result>)
    requires Safe(p, picks) && |ids| == |picks| && FreshIDs(ids, results)
    requires Mirrors(p.committed, results)
    ensures Consistent(StampAll(picks, ids))
    ensures forall x, y | x in StampAll(picks, ids) && y in results :: Compatible(x, y)
  {
    hide SharesValid, Mirrors, ValidShareID;
    var rs := StampAll(picks, ids);
    assert forall i | 0 <= i < |picks| :: picks[i] in picks;
    forall i, y | 0 <= i < |rs| && y in results
      ensures Compatible(rs[i], y)
    {
      StampedCompatible(p, picks[i], ids[i], results, y);
    }
  }

  /** A planned device may stand beside every committed result. */
  lemma StampedCompatible(p: Planner, x: Pick, id: string, results: seq<Result>, y: Result)
    requires Sound(p, x) && Mirrors(p.committed, results) && y in results && y.shareID != Some(id)
    ensures Compatible(Stamp(x.grant, id), y)
  {
  }

  /** No commit makes the ledger inconsistent: it can always be collected again. */
  lemma CommitKeepsConsistency(
    inv: Inventory, before: seq<Claim>, i: nat, path: seq<Choice>, ids: seq<string>, after: seq<Claim>)
    requires Commits(inv, before, i, path, ids, after)
    ensures Consistent(AllResults(before)) && Consistent(AllResults(after))
  {
    hide Solution, Safe, AllWithinCapacity, Consistent, Collect, Mirrors, FreshIDs;
    var results := AllResults(before);
    var p, picks := PlannerFor(inv, Collect(results).value), Finish(START, path).picks;
    CollectIffConsistent(results);
    NothingIsSafe(p);
    SolutionIsSafe(p, before[i].requests, SupportedConstraints(before[i]).value, START, path);
    StampedConsistent(p, picks, ids, results);
    CommitInserts(before, i, StampAll(picks, ids), Finish(START, path).node);
  }

  lemma CommitInserts(before: seq<Claim>, i: nat, stamped: seq<Result>, node: string)
    requires i < |before| && before[i].allocation.None? && Consistent(AllResults(before)) && Consistent(stamped)
    requires forall x, y | x in stamped && y in AllResults(before) :: Compatible(x, y)
    ensures Consistent(AllResults(before[i := Allocate(before[i], stamped, node)]))
  {
    hide Consistent, Compatible, AllResults;
    ResultsAround(before, i, before[i]);
    ResultsAround(before, i, Allocate(before[i], stamped, node));
    assert before[i := before[i]] == before;
    var a, b := AllResults(before[..i]), AllResults(before[i + 1..]);
    assert AllResults(before) == a + b;
    ConsistentInsert(a, stamped, b);
  }

  lemma NothingIsSafe(p: Planner)
    ensures Safe(p, []) && AllWithinCapacity(p, [])
  {
  }

  // ---------- capacity ----------

  /** A (driver, pool, device) triple names one device record among the managed slices. */
  ghost predicate UniqueRecords(slices: seq<Slice>) {
    forall s, t, d, e |
      s in slices && t in slices && s.managed && t.managed && d in s.devices && e in t.devices
      && Key(s.driver, s.pool, d.name) == Key(t.driver, t.pool, e.name) :: d == e
  }

  ghost predicate PartOf(slices: seq<Slice>, catalog: seq<Slice>) {
    forall s | s in slices :: s in catalog
  }

  /** Every share of device k reports exactly the capacities of d, and together they stay within them. */
  ghost predicate FitsDevice(results: seq<Result>, k: Key, d: Device) {
    && (forall r | r in results && r.key == k && r.consumed.Some? :: r.consumed.value.Keys == d.capacity.Keys)
    && (forall n | n in d.capacity :: Total(results, k, n) <= d.capacity[n].total)
  }

  ghost predicate FitsInventory(results: seq<Result>, slices: seq<Slice>) {
    forall s, d | s in slices && s.managed && d in s.devices && d.shareable ::
      FitsDevice(results, Key(s.driver, s.pool, d.name), d)
  }

  lemma {:induction false} StampedTotals(picks: seq<Pick>, ids: seq<string>, k: Key, n: string)
    requires |ids| == |picks|
    ensures Total(StampAll(picks, ids), k, n) == Pending(picks, k, n)
  {
    if picks != [] {
      var init, x := picks[..|picks| - 1], picks[|picks| - 1];
      StampedTotals(init, ids[..|ids| - 1], k, n);
      assert picks == init + [x];
      PendingNext(init, x, k, n);
      assert StampAll(picks, ids)[..|init|] == StampAll(init, ids[..|ids| - 1]);
    }
  }

  /** Planned devices come from the inventory, so two picks of one device carry one record. */
  lemma PicksHaveOneRecord(p: Planner, picks: seq<Pick>, node: string)
    requires UniqueRecords(p.slices) && forall x | x in picks :: OnNode(p, x, node)
    ensures OneRecord(picks)
  {
  }

  /**
   * After a commit, every device that received a share fits its record, and the consumption of all
   * other devices is what it was.
   */
  lemma CommitFitsTouched(
    inv: Inventory, before: seq<Claim>, i: nat, path: seq<Choice>, ids: seq<string>, after: seq<Claim>, k: Key)
    requires Commits(inv, before, i, path, ids, after) && UniqueRecords(inv.slices)
    ensures forall x | x in Finish(START, path).picks && x.grant.key == k && x.grant.consumed.Some? ::
              FitsDevice(AllResults(after), k, x.device)
    ensures (forall x | x in Finish(START, path).picks && x.grant.key == k :: x.grant.consumed.None?) ==>
              && (forall n :: Total(AllResults(after), k, n) == Total(AllResults(before), k, n))
              && (forall r | r in AllResults(after) && r.key == k && r.consumed.Some? :: r in AllResults(before))
  {
    hide Solution, Safe, AllWithinCapacity, OnNode, UniqueRecords, Sound, Mirrors, Consistent, Collect, Total,
      FitsDevice, AllResults, Finish;
    var results, now := AllResults(before), AllResults(after);
    var p, picks := PlannerFor(inv, Collect(results).value), Finish(START, path).picks;
    CollectIffConsistent(results);
    NothingIsSafe(p);
    SolutionIsSafe(p, before[i].requests, SupportedConstraints(before[i]).value, START, path);
    SolutionOnOneNode(p, before[i].requests, SupportedConstraints(before[i]).value, START, path);
    PicksHaveOneRecord(p, picks, Finish(START, path).node);
    var stamped := StampAll(picks, ids);
    CommittedResults(before, i, after, stamped);
    forall n ensures Total(now, k, n) == Total(results, k, n) + Pending(picks, k, n) {
      CommittedTotals(before, i, after, stamped, k, n);
      StampedTotals(picks, ids, k, n);
    }
    forall x | x in picks && x.grant.key == k && x.grant.consumed.Some?
      ensures FitsDevice(now, k, x.device)
    {
      TouchedDeviceFits(p, results, picks, ids, now, x);
    }
    if forall x | x in picks && x.grant.key == k :: x.grant.consumed.None? {
      forall n ensures Pending(picks, k, n) == 0 { NothingPending(picks, k, n); }
      assert forall j | 0 <= j < |stamped| && stamped[j].key == k :: picks[j] in picks && stamped[j].consumed.None?;
    }
  }

  lemma {:induction false} NothingPending(picks: seq<Pick>, k: Key, n: string)
    requires forall x | x in picks && x.grant.key == k :: x.grant.consumed.None?
    ensures Pending(picks, k, n) == 0
  {
    if picks != [] {
      var init, x := picks[..|picks| - 1], picks[|picks| - 1];
      assert picks == init + [x];
      NothingPending(init, k, n);
      PendingNext(init, x, k, n);
    }
  }

  lemma CommittedResults(before: seq<Claim>, i: nat, after: seq<Claim>, stamped: seq<Result>)
    requires i < |before| && before[i].allocation.None?
    requires exists node :: after == before[i := Allocate(before[i], stamped, node)]
    ensures forall r :: r in AllResults(after) <==> r in AllResults(before) || r in stamped
  {
    ResultsAround(before, i, before[i]);
    ResultsAround(before, i, after[i]);
    assert before[i := before[i]] == before && before[i := after[i]] == after;
  }

  lemma CommittedTotals(before: seq<Claim>, i: nat, after: seq<Claim>, stamped: seq<Result>, k: Key, n: string)
    requires i < |before| && before[i].allocation.None?
    requires exists node :: after == before[i := Allocate(before[i], stamped, node)]
    ensures Total(AllResults(after), k, n) == Total(AllResults(before), k, n) + Total(stamped, k, n)
  {
    ResultsAround(before, i, before[i]);
    ResultsAround(before, i, after[i]);
    assert before[i := before[i]] == before && before[i := after[i]] == after;
    var a, b := AllResults(before[..i]), AllResults(before[i + 1..]);
    assert AllResults(before) == a + b;
    TotalConcat(a, b, k, n);
    TotalConcat(a + stamped, b, k, n);
    TotalConcat(a, stamped, k, n);
  }

  lemma TouchedDeviceFits(
    p: Planner, results: seq<Result>, picks: seq<Pick>, ids: seq<string>, now: seq<Result>, x: Pick)
    requires Mirrors(p.committed, results) && |ids| == |picks|
    requires Safe(p, picks) && AllWithinCapacity(p, picks) && OneRecord(picks)
    requires x in picks && x.grant.consumed.Some?
    requires forall r :: r in now <==> r in results || r in StampAll(picks, ids)
    requires forall n :: Total(now, x.grant.key, n) == Total(results, x.grant.key, n) + Pending(picks, x.grant.key, n)
    ensures FitsDevice(now, x.grant.key, x.device)
  {
    var k := x.grant.key;
    var held := UseOf(p.committed, k);
    assert NamesHolders(held, results, k) && SumsAmounts(held, results, k);
    assert WithinCapacity(p, picks, x) && Sound(p, x);
    forall r | r in now && r.key == k && r.consumed.Some?
      ensures r.consumed.value.Keys == x.device.capacity.Keys
    {
      if r in results {
        assert r.consumed.value in held.shares;
        CommittedShareKeys(p, results, x, r);
      } else {
        var j :| 0 <= j < |picks| && StampAll(picks, ids)[j] == r;
        assert picks[j] in picks && Sound(p, picks[j]);
        assert picks[j].device == x.device;
      }
    }
  }

  lemma CommittedShareKeys(p: Planner, results: seq<Result>, x: Pick, r: Result)
    requires Mirrors(p.committed, results) && Sound(p, x) && x.grant.consumed.Some?
    requires r in results && r.key == x.grant.key && r.consumed.Some?
    ensures r.consumed.value.Keys == x.device.capacity.Keys
  {
  }

  /**
   * A commit keeps every shared device within its capacities, whatever part of a catalog of device
   * records it was planned on.
   */
  lemma CommitKeepsCapacity(
    inv: Inventory, catalog: seq<Slice>, before: seq<Claim>, i: nat, path: seq<Choice>, ids: seq<string>,
    after: seq<Claim>)
    requires Commits(inv, before, i, path, ids, after) && UniqueRecords(catalog) && PartOf(inv.slices, catalog)
    requires FitsInventory(AllResults(before), catalog)
    ensures FitsInventory(AllResults(after), catalog)
  {
    hide Commits, AllResults;
    var picks := Finish(START, path).picks;
    assert UniqueRecords(inv.slices);
    forall s, d | s in catalog && s.managed && d in s.devices && d.shareable
      ensures FitsDevice(AllResults(after), Key(s.driver, s.pool, d.name), d)
    {
      var k := Key(s.driver, s.pool, d.name);
      CommitFitsTouched(inv, before, i, path, ids, after, k);
      if x :| x in picks && x.grant.key == k && x.grant.consumed.Some? {
        PickIsRecord(inv, catalog, before, i, path, ids, after, x, s, d);
      }
    }
  }

  lemma PickIsRecord(
    inv: Inventory, catalog: seq<Slice>, before: seq<Claim>, i: nat, path: seq<Choice>, ids: seq<string>,
    after: seq<Claim>, x: Pick, s: Slice, d: Device)
    requires Commits(inv, before, i, path, ids, after) && UniqueRecords(catalog) && PartOf(inv.slices, catalog)
    requires x in Finish(START, path).picks && s in catalog && s.managed && d in s.devices
    requires x.grant.key == Key(s.driver, s.pool, d.name)
    ensures x.device == d
  {
    hide Solution;
    var p := PlannerFor(inv, Collect(AllResults(before)).value);
    SolutionOnOneNode(p, before[i].requests, SupportedConstraints(before[i]).value, START, path);
    assert OnNode(p, x, Finish(START, path).node);
  }

  // ---------- a pass ----------

  /** Claim number i is as the plan for it, or the lack of one, leaves it. `accepts` stands for the status writes. */
  ghost predicate Disposes(
    inv: Inventory, before: seq<Claim>, i: nat, r: Outcome<seq<Choice>>, accepts: nat -> bool, after: seq<Claim>)
  {
    if r.Err? || Finish(START, r.value).picks == [] then after == before
    else accepts(i) && exists ids :: Commits(inv, before, i, r.value, ids, after)
  }

  ghost predicate Waiting(claims: seq<Claim>, i: nat) {
    i < |claims| && claims[i].allocation.None? && claims[i].requests != []
  }

  /** Claim number i has had its turn. */
  ghost predicate Turn(inv: Inventory, before: seq<Claim>, i: nat, accepts: nat -> bool, after: seq<Claim>) {
    if Waiting(before, i)
    then exists r :: Planned(inv, before, before[i], r) && Disposes(inv, before, i, r, accepts, after)
    else after == before
  }

  /** The plan for claim number i is ready, but the API refuses to store it. */
  ghost predicate Refused(inv: Inventory, claims: seq<Claim>, i: nat, accepts: nat -> bool) {
    Waiting(claims, i) && !accepts(i) &&
    exists path :: Planned(inv, claims, claims[i], Ok(path)) && Finish(START, path).picks != []
  }

  /** Claim after claim has had its turn. */
  ghost predicate Turns(inv: Inventory, states: seq<seq<Claim>>, accepts: nat -> bool) {
    states != [] && forall i: nat | i < |states| - 1 :: Turn(inv, states[i], i, accepts, states[i + 1])
  }

  function Changes(states: seq<seq<Claim>>): nat {
    if |states| <= 1 then 0
    else
      var n := |states| - 1;
      Changes(states[..n]) + if states[n] == states[n - 1] then 0 else 1
  }

  lemma PlanWithinLimit(inv: Inventory, claims: seq<Claim>, claim: Claim, path: seq<Choice>)
    requires PlanFor(inv, claims, claim, path)
    ensures |Finish(START, path).picks| <= MAX_RESULTS
  {
    hide Solution;
    SolutionOnOneNode(PlannerFor(inv, Collect(AllResults(claims)).value), claim.requests,
                      SupportedConstraints(claim).value, START, path);
  }

  /** Identifiers not yet drawn stay fresh when earlier ones are stored. */
  lemma StillFresh(before: seq<Claim>, i: nat, picks: seq<Pick>, ids: seq<string>, node: string)
    requires i < |before| && before[i].allocation.None? && |picks| <= |ids| && FreshIDs(ids, AllResults(before))
    ensures var after := before[i := Allocate(before[i], StampAll(picks, ids[..|picks|]), node)];
            FreshIDs(ids[|picks|..], AllResults(after))
    ensures FreshIDs(ids[..|picks|], AllResults(before))
  {
    var stamped := StampAll(picks, ids[..|picks|]);
    var after := before[i := Allocate(before[i], stamped, node)];
    CommittedResults(before, i, after, stamped);
    forall j, r | 0 <= j < |ids| - |picks| && r in AllResults(after)
      ensures r.shareID != Some(ids[|picks|..][j])
    {
      if r in stamped {
        var m :| 0 <= m < |stamped| && stamped[m] == r;
        assert ids[m] != ids[|picks| + j];
      }
    }
  }

  /** The claims as the pass knows them, and the number of allocations it has written. */
  class AllocationPass {
    var claims: seq<Claim>
    var allocationsSimulated: nat

    constructor (claims: seq<Claim>)
      ensures this.claims == claims && allocationsSimulated == 0
    {
      this.claims := claims;
      allocationsSimulated := 0;
    }

    /**
     * Plans and commits claim after claim, each against the claims as committed so far; the first
     * refused status write ends the pass.
     */
    method SimulateAllocation(inv: Inventory, ids: seq<string>, accepts: nat -> bool)
      returns (ok: bool, ghost states: seq<seq<Claim>>)
      requires |ids| >= MAX_RESULTS * |claims| && FreshIDs(ids, AllResults(claims))
      modifies this
      ensures Turns(inv, states, accepts) && states[0] == old(claims) && states[|states| - 1] == claims
      ensures ok ==> |states| == |old(claims)| + 1
      ensures !ok ==> |states| <= |old(claims)| && Refused(inv, claims, |states| - 1, accepts)
      ensures allocationsSimulated == old(allocationsSimulated) + Changes(states)
    {
      hide FreshIDs, Planned, PlanFor, Turns, Turn, Changes, AllResults, Finish, Refused;
      states := [claims];
      NoTurns(inv, claims, accepts);
      var unused := ids;
      for i := 0 to |claims|
        invariant |claims| == |old(claims)| && |unused| >= MAX_RESULTS * (|claims| - i)
        invariant FreshIDs(unused, AllResults(claims))
        invariant |states| == i + 1 && states[0] == old(claims) && states[i] == claims
        invariant Turns(inv, states, accepts)
        invariant allocationsSimulated == old(allocationsSimulated) + Changes(states)
      {
        if claims[i].allocation.Some? || claims[i].requests == [] {
          Skipped(inv, claims, i, accepts);
          states := NextTurn(inv, states, i, claims, accepts);
          continue;
        }
        var plan := PlanClaim(inv, claims, claims[i]);
        if plan.Err? || Finish(START, plan.value).picks == [] {
          Unplanned(inv, claims, i, plan, accepts);
          states := NextTurn(inv, states, i, claims, accepts);
          continue;
        }
        var finish := Finish(START, plan.value);
        PlanWithinLimit(inv, claims, claims[i], plan.value);
        var used := unused[..|finish.picks|];
        StillFresh(claims, i, finish.picks, unused, finish.node);
        var updated := claims[i := Allocate(claims[i], StampAll(finish.picks, used), finish.node)];
        if !accepts(i) {
          WasRefused(inv, claims, i, plan.value, accepts);
          return false, states;
        }
        CommitHappens(inv, claims, i, plan.value, used, updated, accepts);
        states := NextTurn(inv, states, i, updated, accepts);
        claims, unused := updated, unused[|finish.picks|..];
        allocationsSimulated := allocationsSimulated + 1;
      }
      ok := true;
    }
  }

  lemma NoTurns(inv: Inventory, claims: seq<Claim>, accepts: nat -> bool)
    ensures Turns(inv, [claims], accepts) && Changes([claims]) == 0
  {
  }

  lemma NextTurn(inv: Inventory, states: seq<seq<Claim>>, i: nat, next: seq<Claim>, accepts: nat -> bool)
    returns (longer: seq<seq<Claim>>)
    requires Turns(inv, states, accepts) && |states| == i + 1 && Turn(inv, states[i], i, accepts, next)
    ensures longer == states + [next] && Turns(inv, longer, accepts)
    ensures Changes(longer) == Changes(states) + if next == states[i] then 0 else 1
  {
    hide Turn;
    longer := states + [next];
    assert longer[..|states|] == states;
  }

  lemma WasRefused(inv: Inventory, claims: seq<Claim>, i: nat, path: seq<Choice>, accepts: nat -> bool)
    requires Waiting(claims, i) && !accepts(i)
    requires Planned(inv, claims, claims[i], Ok(path)) && Finish(START, path).picks != []
    ensures Refused(inv, claims, i, accepts)
  {
    hide Planned, Finish;
  }

  lemma Skipped(inv: Inventory, claims: seq<Claim>, i: nat, accepts: nat -> bool)
    requires !Waiting(claims, i)
    ensures Turn(inv, claims, i, accepts, claims)
  {
  }

  lemma Unplanned(inv: Inventory, claims: seq<Claim>, i: nat, r: Outcome<seq<Choice>>, accepts: nat -> bool)
    requires Waiting(claims, i) && Planned(inv, claims, claims[i], r)
    requires r.Err? || Finish(START, r.value).picks == []
    ensures Turn(inv, claims, i, accepts, claims)
  {
    hide Planned;
    assert Disposes(inv, claims, i, r, accepts, claims);
  }

  lemma CommitHappens(
    inv: Inventory, before: seq<Claim>, i: nat, path: seq<Choice>, ids: seq<string>, after: seq<Claim>,
    accepts: nat -> bool)
    requires Waiting(before, i) && Planned(inv, before, before[i], Ok(path)) && PlanFor(inv, before, before[i], path)
    requires Finish(START, path).picks != [] && accepts(i)
    requires |ids| == |Finish(START, path).picks| && FreshIDs(ids, AllResults(before))
    requires var finish := Finish(START, path);
             after == before[i := Allocate(before[i], StampAll(finish.picks, ids), finish.node)]
    ensures Turn(inv, before, i, accepts, after) && after != before
  {
    hide Planned, PlanFor, FreshIDs;
    assert Commits(inv, before, i, path, ids, after);
    assert Disposes(inv, before, i, Ok(path), accepts, after);
    assert after[i].allocation.Some?;
  }

}
