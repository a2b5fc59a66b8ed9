/** What an allocated claim has stored, told by the claim, the inventory and the plan. */
module StoredClaims {
  import opened Types
  import opened Candidates
  import opened Choices
  import opened Constraints
  import opened Backtracking
  import opened Plans
  import opened Simulation
  import Ledger

  // ---------- stored results that serve requests ----------

  /**
   * The result is of a healthy managed device on the node that the alternative selects, and which has
   * what the alternative asks for. It carries an identifier exactly when it is a share.
   */
  ghost predicate ResultFor(inv: Inventory, a: Alternative, node: string, r: Result) {
    && r.request == a.requestName
    && (r.shareID.Some? <==> r.consumed.Some?)
    && a.className in inv.classes
    && exists s, d | s in inv.slices && d in s.devices ::
      && s.managed && !s.unhealthy && s.nodeName.Some? && (s.nodeName.value == "" || s.nodeName.value == node)
      && r.key == Key(s.driver, s.pool, d.name)
      && inv.selects(s.driver, d, inv.classes[a.className], a.selectors) == Selected
      && Meets(a.requests, d, r.consumed)
  }

  /** The results serve the request by the alternative: as many different devices as it asks for. */
  ghost predicate ResultsServe(inv: Inventory, a: Alternative, node: string, rs: seq<Result>) {
    && rs != [] && (a.mode == ExactCount ==> |rs| == a.count)
    && (forall i, j | 0 <= i < j < |rs| :: rs[i].key != rs[j].key)
    && forall r | r in rs :: ResultFor(inv, a, node, r)
  }

  /** The results are one stretch per request, in request order, each by some alternative of its request. */
  ghost predicate ResultsInOrder(inv: Inventory, requests: seq<Request>, node: string, rs: seq<Result>)
  {
    if requests == [] then rs == []
    else
      && SupportedAlternatives(requests[0]).Ok?
      && exists n, a | 0 <= n <= |rs| && a in SupportedAlternatives(requests[0]).value ::
        ResultsServe(inv, a, node, rs[..n]) && ResultsInOrder(inv, requests[1..], node, rs[n..])
  }

  /** The results are those of the picks, one for one and in order. */
  ghost predicate Records(rs: seq<Result>, picks: seq<Pick>) {
    && |rs| == |picks|
    && forall i | 0 <= i < |rs| ::
      && rs[i].request == picks[i].grant.request && rs[i].key == picks[i].grant.key
      && rs[i].consumed == picks[i].grant.consumed && (rs[i].shareID.Some? <==> rs[i].consumed.Some?)
  }

  lemma RecordedServes(
    inv: Inventory, p: Planner, a: Alternative, node: string, picks: seq<Pick>, rs: seq<Result>)
    requires p == PlannerFor(inv, p.committed) && Records(rs, picks) && ServesBy(p, a, picks)
    requires forall x | x in picks :: OnNode(p, x, node)
    ensures ResultsServe(inv, a, node, rs)
  {
    hide Meets;
    forall r | r in rs ensures ResultFor(inv, a, node, r) {
      var i :| 0 <= i < |rs| && rs[i] == r;
      assert FitsAlternative(p, a, picks[i]) && OnNode(p, picks[i], node);
    }
  }

  lemma {:induction false} RecordedInOrder(
    inv: Inventory, p: Planner, requests: seq<Request>, node: string, picks: seq<Pick>, rs: seq<Result>)
    requires p == PlannerFor(inv, p.committed) && Records(rs, picks) && ServedInOrder(p, requests, picks)
    requires forall x | x in picks :: OnNode(p, x, node)
    ensures ResultsInOrder(inv, requests, node, rs)
  {
    hide OnNode, ServesBy, ResultsServe;
    if requests != [] {
      var n :| 0 <= n <= |picks| && Serves(p, requests[0], picks[..n]) && ServedInOrder(p, requests[1..], picks[n..]);
      var a :| a in SupportedAlternatives(requests[0]).value && ServesBy(p, a, picks[..n]);
      RecordedServes(inv, p, a, node, picks[..n], rs[..n]);
      RecordedInOrder(inv, p, requests[1..], node, picks[n..], rs[n..]);
    }
  }

  // ---------- what a turn stores ----------

  /** The claim is as it was, but for the allocation, which records the plan. */
  ghost predicate StoresPlan(inv: Inventory, was: Claim, now: Claim, picks: seq<Pick>, node: string) {
    && now.name == was.name && now.requests == was.requests && now.constraints == was.constraints
    && now.allocation.Some?
    && var a := now.allocation.value;
       && a.nodeName == node && Records(a.results, picks)
       && |a.results| <= 32 && ResultsInOrder(inv, was.requests, node, a.results)
  }

  /**
   * A commit stores the plan's devices, one for one and in order, with the plan's node; all of them
   * lie on that node, serve the claim's requests in order and satisfy its constraints.
   */
  lemma CommitStores(
    inv: Inventory, before: seq<Claim>, i: nat, path: seq<Choice>, ids: seq<string>, after: seq<Claim>)
    requires Commits(inv, before, i, path, ids, after)
    ensures |after| == |before| && forall j | 0 <= j < |before| && j != i :: after[j] == before[j]
    ensures StoresPlan(inv, before[i], after[i], Finish(START, path).picks, Finish(START, path).node)
    ensures SupportedConstraints(before[i]).Ok?
    ensures AllAgree(SupportedConstraints(before[i]).value, Finish(START, path).picks)
  {
    hide Solution, OnNode, ServedInOrder, ResultsInOrder, AllAgree, FreshIDs, Ledger.Collect, SupportedConstraints;
    var p := PlannerFor(inv, Ledger.Collect(AllResults(before)).value);
    var cs, finish := SupportedConstraints(before[i]).value, Finish(START, path);
    SolutionOnOneNode(p, before[i].requests, cs, START, path);
    SolutionServesInOrder(p, before[i].requests, cs, START, path);
    SolutionSatisfiesConstraints(p, before[i].requests, cs, START, path);
    assert finish.picks[0..] == finish.picks;
    RecordedInOrder(inv, p, before[i].requests, finish.node, finish.picks, after[i].allocation.value.results);
  }

  /** The results of the claims are those of their allocations. */
  lemma {:induction false} AllResultsExactly(claims: seq<Claim>, r: Result)
    ensures r in AllResults(claims) <==>
            exists c | c in claims :: c.allocation.Some? && r in c.allocation.value.results
  {
    if claims != [] {
      var n := |claims| - 1;
      assert claims == claims[..n] + [claims[n]];
      AllResultsExactly(claims[..n], r);
    }
  }

  /** A turn comes to nothing exactly when the claim is not pending, has no requests, or has no plan with devices. */
  lemma TurnServes(inv: Inventory, before: seq<Claim>, i: nat, accepts: nat -> bool, after: seq<Claim>)
    returns (r: Outcome<seq<Choice>>)
    requires Turn(inv, before, i, accepts, after) && i < |before|
    ensures if before[i].allocation.Some? || before[i].requests == [] then after == before
            else
              && Planned(inv, before, before[i], r)
              && (after == before <==> r.Err? || Finish(START, r.value).picks == [])
              && (after != before ==> accepts(i))
  {
    hide Planned, Finish, StampAll, PlanFor, FreshIDs;
    r := Err(NoMatch);
    if before[i].allocation.None? && before[i].requests != [] {
      r :| Planned(inv, before, before[i], r) && Disposes(inv, before, i, r, accepts, after);
    }
  }

  /** A turn leaves the claims as they were, or stores a plan made for its claim in it and in no other. */
  lemma TurnStores(inv: Inventory, before: seq<Claim>, i: nat, accepts: nat -> bool, after: seq<Claim>)
    returns (path: seq<Choice>)
    requires Turn(inv, before, i, accepts, after)
    ensures after != before ==>
              && i < |before| == |after| && before[i].allocation.None? && Planned(inv, before, before[i], Ok(path))
              && (forall j | 0 <= j < |before| && j != i :: after[j] == before[j])
              && StoresPlan(inv, before[i], after[i], Finish(START, path).picks, Finish(START, path).node)
              && Finish(START, path).picks != []
              && SupportedConstraints(before[i]).Ok?
              && AllAgree(SupportedConstraints(before[i]).value, Finish(START, path).picks)
  {
    hide Planned, Commits, StoresPlan, AllAgree, SupportedConstraints, Finish;
    path := [];
    if after != before {
      var r :| Planned(inv, before, before[i], r) && Disposes(inv, before, i, r, accepts, after);
      path := r.value;
      var ids :| Commits(inv, before, i, path, ids, after);
      CommitStores(inv, before, i, path, ids, after);
    }
  }
}
