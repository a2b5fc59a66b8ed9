/** What planning a claim comes to over an inventory that can always be assessed, whichever planner is used. */
module Outcomes {
  import opened Types
  import opened Candidates
  import opened Choices
  import opened Constraints
  import opened Backtracking
  import opened Greedy
  import opened Aborts
  import opened Failures
  import opened Simulation
  import Ledger
  import SearchMachine

  // ---------- the greedy planner ----------

  /** No healthy managed device is to be shared. */
  ghost predicate NothingToShare(p: Planner) {
    forall s, d | s in p.slices && Eligible(s) && d in s.devices :: !d.shareable
  }

  lemma {:induction false} PlainGreedyScan(p: Planner, q: Query, chosen: set<Key>, sites: seq<Site>)
    requires Plain(p) && NothingToShare(p) && forall s | s in sites :: IsSite(p, s)
    ensures ScanBy(GreedyEvaluating(p, q, chosen), sites).Ok?
  {
    hide GreedyEvaluate, Readable;
    if sites != [] {
      var init, s := sites[..|sites| - 1], sites[|sites| - 1];
      PlainGreedyScan(p, q, chosen, init);
      assert IsSite(p, s) && Assessable(p, s.slice, s.device) && !s.device.shareable;
      GreedyFailsExactly(p, q, chosen, s, KeysOf(ScanBy(GreedyEvaluating(p, q, chosen), init).value));
    }
  }

  /** Everything that is on offer on some node is more than the results that remain. */
  ghost predicate NodeOverflows(p: Planner, a: Alternative, st: State)
    requires a.className in p.classes
  {
    exists c: Choice ::
      && DistinctDevices(c.picks) && c.picks != [] && |c.picks| > Remaining(st)
      && TakesEverything(p, QueryFor(p, a), st, c)
  }

  /** The alternative needs more results than remain. */
  ghost predicate Overlarge(p: Planner, a: Alternative, st: State) {
    a.className in p.classes && if a.mode == All then NodeOverflows(p, a, st) else a.count > Remaining(st)
  }

  /** The request is supported, and asks for all devices only where pools are complete. */
  ghost predicate Assessed(p: Planner, r: Request) {
    && SupportedAlternatives(r).Ok?
    && forall a | a in SupportedAlternatives(r).value && a.mode == All :: PoolsComplete(p)
  }

  lemma PlainNeverStops(p: Planner, a: Alternative, st: State, i: nat, f: Failure)
    requires Plain(p) && NothingToShare(p) && (a.mode == All ==> PoolsComplete(p))
    ensures !Comes(p, a, st, i, Stops(f))
  {
    hide GreedyEvaluate, ScanBy, Plain, NothingToShare, AllPassedOver, NoneFills, IsSite;
    if Comes(p, a, st, i, Stops(f)) {
      var q, chosen := QueryFor(p, a), st.usage.exclusive;
      if a.mode == All {
        var nodes := ManagedNodes(p.slices, st.node);
        var eval := GreedyEvaluating(p, q, chosen);
        if j :| 0 <= j < |nodes| && FailsOn(eval, p.slices, st.node, Remaining(st), nodes, j, f) {
          PlainGreedyNode(p, q, chosen, st.node, nodes[j]);
        }
        assert false;
      } else {
        var sites := ExactSites(p.slices, st.node);
        var n: nat :| Greedy.FailsFirst(GreedyEvaluating(p, q, chosen), sites, n, a.count, f);
        ExactSitesAreSites(p, st.node);
        PlainGreedyScan(p, q, chosen, sites[..n + 1]);
        assert false;
      }
    }
  }

  lemma PlainGreedyNode(p: Planner, q: Query, chosen: set<Key>, pinned: string, node: string)
    requires Plain(p) && NothingToShare(p) && PoolsComplete(p)
    ensures AllSites(p.slices, pinned, node).Some?
    ensures ScanBy(GreedyEvaluating(p, q, chosen), AllSites(p.slices, pinned, node).value).Ok?
  {
    hide GreedyEvaluate, ScanBy, Plain, NothingToShare, IsSite, AllSites;
    var sites := AllSites(p.slices, pinned, node).value;
    forall s | s in sites ensures IsSite(p, s) {
      CurrentSiteIsSite(p, pinned, node, s);
    }
    PlainGreedyScan(p, q, chosen, sites);
  }

  /** An alternative skipped for the limit really is too large. */
  lemma SkippedIsOverlarge(p: Planner, a: Alternative, st: State, i: nat)
    requires OnlyExclusive(p.committed) && Exclusively(st) && Comes(p, a, st, i, Skipped(true))
    ensures Overlarge(p, a, st)
  {
    hide GreedyEvaluate, ScanBy, AllSites, NoneFills;
    if a.mode == All && a.className in p.classes {
      var q, chosen, nodes := QueryFor(p, a), st.usage.exclusive, ManagedNodes(p.slices, st.node);
      var eval := GreedyEvaluating(p, q, chosen);
      var j :| 0 <= j < |nodes| && var e := EverythingOn(eval, p.slices, st.node, nodes[j]);
                                  e.Some? && e.value.Ok? && e.value.value != [];
      assert Greedy.PassedOver(eval, p.slices, st.node, nodes[j], Remaining(st));
      var sites := AllSites(p.slices, st.node, nodes[j]).value;
      SearchScansAlike(p, q, chosen, sites);
      AllOnExact(p, q, st, nodes[j]);
      var c := Choice(i, j, [], nodes[j], AllOn(p, q, st, nodes[j]).value);
      assert TakesEverything(p, q, st, c);
    }
  }

  /**
   * Over a plain inventory a request fails for a missing class, for want of a match, or because its
   * only alternative needs more results than remain.
   */
  lemma PlainRequestFails(p: Planner, r: Request, st: State, f: Failure)
    requires Plain(p) && NothingToShare(p) && OnlyExclusive(p.committed) && Exclusively(st) && Assessed(p, r)
    requires RequestComes(p, r, st, Err(f))
    ensures var all := SupportedAlternatives(r).value;
            && (f == ClassNotFound <==> forall a | a in all :: a.className !in p.classes)
            && (f == NoMatch || f == ClassNotFound || (f == Unsupported && |all| == 1 && Overlarge(p, all[0], st)))
  {
    hide Plain, NothingToShare, Comes, SkippedAll, Overlarge, PoolsComplete;
    var all := SupportedAlternatives(r).value;
    if i: nat :| i < |all| && DecidedBy(p, all, st, i, Err(f)) {
      assert all[i] in all;
      PlainNeverStops(p, all[i], st, i, f);
      assert false;
    }
    if |all| == 1 && Comes(p, all[0], st, 0, Skipped(true)) {
      SkippedIsOverlarge(p, all[0], st, 0);
      OverlargeIsKnown(p, all[0], st);
      assert all[0] in all;
    }
  }

  lemma OverlargeIsKnown(p: Planner, a: Alternative, st: State)
    requires Overlarge(p, a, st)
    ensures a.className in p.classes
  {
  }

  lemma {:induction false} FollowedIsExclusive(p: Planner, requests: seq<Request>, path: seq<Choice>)
    requires OnlyExclusive(p.committed) && Follows(p, requests, path)
    ensures Exclusively(Finish(START, path))
  {
    hide RequestComes, Admissible;
    if path != [] {
      var n := |path| - 1;
      assert forall i | 0 <= i < n :: path[..n][..i] == path[..i];
      FollowedIsExclusive(p, requests, path[..n]);
      RequestIsAdmissible(p, requests[n], Finish(START, path[..n]), path[n]);
      ReserveExclusive(Finish(START, path[..n]).usage, path[n].picks);
      FinishSnoc(START, path[..n], path[n]);
      assert path == path[..n] + [path[n]];
    }
  }

  /** The only alternative of some request needs more results than remain after the selections before it. */
  ghost predicate SomeOverlarge(p: Planner, requests: seq<Request>) {
    exists path, all ::
      && Follows(p, requests, path) && |path| < |requests| && SupportedAlternatives(requests[|path|]) == Ok(all)
      && |all| == 1 && Overlarge(p, all[0], Finish(START, path))
  }

  /** Over a plain inventory the greedy planner fails for nothing else. */
  lemma PlainClaimFails(p: Planner, requests: seq<Request>, f: Failure)
    requires Plain(p) && NothingToShare(p) && OnlyExclusive(p.committed) && forall r | r in requests :: Assessed(p, r)
    requires GreedyPlans(p, requests, Err(f))
    ensures f == NoMatch || f == ClassNotFound || (f == Unsupported && SomeOverlarge(p, requests))
  {
    hide Plain, NothingToShare, RequestComes, Overlarge, Exclusively, Assessed;
    var path :| Follows(p, requests, path) && FailsAfter(p, requests, path, f);
    FollowedIsExclusive(p, requests, path);
    var r := requests[|path|];
    assert Assessed(p, r) && SupportedAlternatives(r).Ok? by {
      assert r in requests;
      AssessedIsSupported(p, r);
    }
    PlainRequestFails(p, r, Finish(START, path), f);
  }

  lemma AssessedIsSupported(p: Planner, r: Request)
    requires Assessed(p, r)
    ensures SupportedAlternatives(r).Ok?
  {
  }

  /** A claim of one request that does not overflow is served exactly when it has a solution. */
  lemma OneRequestDecided(p: Planner, r: Request, result: Outcome<seq<Choice>>)
    requires Plain(p) && NothingToShare(p) && OnlyExclusive(p.committed) && Assessed(p, r)
    requires !(|SupportedAlternatives(r).value| == 1 && Overlarge(p, SupportedAlternatives(r).value[0], START))
    requires GreedyPlans(p, [r], result)
    ensures result.Ok? <==> Completable(p, [r], [], START)
  {
    hide Plain, NothingToShare, RequestComes, Overlarge, Admissible, Assessed, Solution;
    if result.Ok? {
      var path := result.value;
      assert path[..0] == [];
      RequestIsAdmissible(p, r, START, path[0]);
      StepsAreSolution(p, [r], START, path);
    } else {
      var f := result.failure;
      var done :| Follows(p, [r], done) && FailsAfter(p, [r], done, f);
      assert done == [] && Finish(START, done) == START;
      PlainRequestFails(p, r, START, f);
      forall path { OneRequestComplete(p, r, f, path); }
    }
  }

  // ---------- the search ----------

  /** A node has too much exactly when everything on offer there is more than remains. */
  lemma TooManyIffOverflows(p: Planner, a: Alternative, st: State)
    requires a.className in p.classes
    ensures SomeTooMany(p, QueryFor(p, a), st, ManagedNodes(p.slices, st.node)) <==> NodeOverflows(p, a, st)
  {
    var q, nodes := QueryFor(p, a), ManagedNodes(p.slices, st.node);
    if i :| 0 <= i < |nodes| && TooMany(p, q, st, nodes[i]) {
      AllOnExact(p, q, st, nodes[i]);
      assert TakesEverything(p, q, st, Choice(0, i, [], nodes[i], AllOn(p, q, st, nodes[i]).value));
    }
    if c: Choice :|
      DistinctDevices(c.picks) && c.picks != [] && |c.picks| > Remaining(st) && TakesEverything(p, q, st, c)
    {
      AllOnExact(p, q, st, c.node);
      SameDistinct(c.picks, AllOn(p, q, st, c.node).value);
      ManagedNodesCover(p.slices, st.node, c.node);
      assert c.picks[0] in c.picks;
      assert ManagedOn(p.slices, st.node, c.node) != [];
      var i :| 0 <= i < |nodes| && nodes[i] == c.node;
      assert TooMany(p, q, st, nodes[i]);
    }
  }

  lemma TooLargeIffOverlarge(p: Planner, a: Alternative, st: State)
    ensures AlternativeTooLarge(p, a, st) <==> Overlarge(p, a, st)
  {
    hide SomeTooMany, NodeOverflows;
    if a.className in p.classes { TooManyIffOverflows(p, a, st); }
  }

  /**
   * Over a plain inventory, once the selections for a request are exhausted, the search fails exactly
   * when every class is missing or the only alternative needs more results than remain.
   */
  lemma PlainSearchFails(p: Planner, r: Request, st: State)
    requires Plain(p) && Orderly(p, st.usage) && Assessed(p, r)
    ensures var all := SupportedAlternatives(r).value;
            RequestTrace(p, r, st).end ==
              if forall a | a in all :: a.className !in p.classes then Some(ClassNotFound)
              else if |all| == 1 && Overlarge(p, all[0], st) then Some(Unsupported)
              else None
  {
    hide Plain, Orderly, AlternativeMoves, PoolsComplete, Overlarge, AlternativeFails, AlternativeTooLarge;
    var all := SupportedAlternatives(r).value;
    RequestFails(p, r, st);
    forall j | 0 <= j < |all| ensures !SomeFails(p, all[j], st) {
      assert all[j] in all;
      PlainAlternativeSucceeds(p, all[j], st, j);
      AlternativeSettled(p, all[j], st, j);
    }
    if |all| == 1 { TooLargeIffOverlarge(p, all[0], st); }
  }

  // ---------- whole claims, with the choice of planner ----------

  /** Planning over the whole inventory, beside what all claims have been allocated. */
  ghost function PlannerOver(inv: Inventory, claims: seq<Claim>): Planner
    requires Ledger.Collect(AllResults(claims)).Some?
  {
    Planner(inv.slices, inv.classes, Ledger.Collect(AllResults(claims)).value, inv.selects, inv.errorFirst)
  }

  /** Constraints, or devices to be shared, or shares already allocated. */
  ghost predicate Searched(inv: Inventory, claims: seq<Claim>, claim: Claim) {
    || claim.constraints != []
    || (exists s, d | s in inv.slices && d in s.devices :: s.managed && d.shareable)
    || (exists r | r in AllResults(claims) :: r.shareID.Some?)
  }

  lemma SearchedIffSearch(inv: Inventory, claims: seq<Claim>, claim: Claim)
    requires SupportedConstraints(claim).Ok? && Ledger.Collect(AllResults(claims)).Some?
    ensures Searched(inv, claims, claim) <==>
            || SupportedConstraints(claim).value != [] || HasManagedShareable(inv.slices)
            || HasShared(Ledger.Collect(AllResults(claims)).value)
  {
    hide AllResults, Ledger.Collect, Ledger.Consistent;
    var results := AllResults(claims);
    var usage := Ledger.Collect(results).value;
    Ledger.CollectIffConsistent(results);
    if s, d :| s in inv.slices && d in s.devices && s.managed && d.shareable {
      var i :| 0 <= i < |inv.slices| && inv.slices[i] == s;
      var j :| 0 <= j < |s.devices| && s.devices[j] == d;
    }
    if r :| r in results && r.shareID.Some? {
      assert Ledger.NamesHolders(Ledger.UseOf(usage, r.key), results, r.key);
      assert r.key in usage && usage[r.key].shared;
    }
    if k :| k in usage && usage[k].shared {
      assert Ledger.NamesHolders(Ledger.UseOf(usage, k), results, k);
    }
  }

  /**
   * A claim with constraints or shares, over a plain inventory and asking for no more than fits, is
   * planned exactly when it has a plan, as far as the limit on the search permits.
   */
  lemma SearchedClaimIsDecided(inv: Inventory, claims: seq<Claim>, claim: Claim, r: Outcome<seq<Choice>>)
    requires SupportedConstraints(claim).Ok? && Ledger.Collect(AllResults(claims)).Some?
    requires Planned(inv, claims, claim, r) && Searched(inv, claims, claim)
    requires var p := PlannerOver(inv, claims);
             && Plain(p) && (forall x | x in claim.requests :: Answerable(p, x))
             && Demand(p, claim.requests) <= MAX_RESULTS
    ensures var p := PlannerOver(inv, claims);
            if Explore(p, claim.requests, SupportedConstraints(claim).value, START).1 <= 100_000
            then (r.Ok? <==> Completable(p, claim.requests, SupportedConstraints(claim).value, START))
                 && (r.Err? ==> r.failure == NoMatch)
            else r == Err(Unsupported)
  {
    hide Plain, Answerable, Demand, Searched, Explore, Search, Solution, AllResults, Ledger.Collect,
      SupportedConstraints;
    var p, cs := PlannerOver(inv, claims), SupportedConstraints(claim).value;
    SearchedIffSearch(inv, claims, claim);
    FittingSearchDecides(p, claim.requests, cs);
    FittingSearchNeverAborts(p, claim.requests, cs);
    BudgetIsTransparent(p, claim.requests, cs, START, SearchMachine.SEARCH_LIMIT);
  }

  /**
   * Over any inventory, a searched claim fails for want of a match only when it has no plan; otherwise
   * the limit on the search is exhausted, or the failure has its cause in a state that the search reaches.
   */
  lemma SearchedClaimFails(inv: Inventory, claims: seq<Claim>, claim: Claim, r: Outcome<seq<Choice>>)
    requires SupportedConstraints(claim).Ok? && Ledger.Collect(AllResults(claims)).Some?
    requires Planned(inv, claims, claim, r) && Searched(inv, claims, claim) && r.Err?
    ensures var p, cs := PlannerOver(inv, claims), SupportedConstraints(claim).value;
            if Explore(p, claim.requests, cs, START).1 > 100_000 then r.failure == Unsupported
            else
              || (r.failure == NoMatch && !Completable(p, claim.requests, cs, START))
              || exists path :: Reaches(p, claim.requests, START, path)
                                && Causes(p, claim.requests, cs, START, path, r.failure)
  {
    hide Searched, Explore, Search, Solution, AllResults, Ledger.Collect, SupportedConstraints, Causes, Reaches;
    var p, cs := PlannerOver(inv, claims), SupportedConstraints(claim).value;
    SearchedIffSearch(inv, claims, claim);
    BudgetIsTransparent(p, claim.requests, cs, START, SearchMachine.SEARCH_LIMIT);
    var v := Explore(p, claim.requests, cs, START).0;
    if v.Aborted? {
      var path := AbortHasCause(p, claim.requests, cs, START);
    } else if v.Unsolvable? {
      forall path { ExploreComplete(p, claim.requests, cs, START, path); }
    }
  }

  /** Without any of these, a claim of one request that does not overflow is planned exactly when it has a plan. */
  lemma UnsearchedClaimIsDecided(inv: Inventory, claims: seq<Claim>, claim: Claim, r: Outcome<seq<Choice>>)
    requires SupportedConstraints(claim).Ok? && Ledger.Collect(AllResults(claims)).Some?
    requires Planned(inv, claims, claim, r) && !Searched(inv, claims, claim) && |claim.requests| == 1
    requires var p := PlannerOver(inv, claims);
             && Plain(p) && Assessed(p, claim.requests[0])
             && !(|SupportedAlternatives(claim.requests[0]).value| == 1
                  && Overlarge(p, SupportedAlternatives(claim.requests[0]).value[0], START))
    ensures r.Ok? <==> Completable(PlannerOver(inv, claims), claim.requests, [], START)
  {
    hide Plain, Assessed, Overlarge, Explore, Search, Solution, AllResults, Ledger.Collect, SupportedConstraints,
      GreedyPlans;
    var results := AllResults(claims);
    var p := PlannerOver(inv, claims);
    SearchedIffSearch(inv, claims, claim);
    Ledger.CollectIffConsistent(results);
    UnsharedLedger(p.committed, results);
    assert NothingToShare(p);
    assert claim.requests == [claim.requests[0]];
    OneRequestDecided(p, claim.requests[0], r);
  }
}
