/** The greedy planner, for claims and inventories without constraints and without shared devices. */
module Greedy {
  import opened Types
  import opened Candidates
  import opened Choices
  import opened Backtracking
  import Collector
  import Combinations
  import Ledger
  import Pools

  // ---------- assessing a device ----------

  /** A rescan of all results for device k. */
  method IsDeviceAllocated(results: seq<Result>, k: Key) returns (found: bool)
    ensures found <==> exists r | r in results :: r.key == k
  {
    for i := 0 to |results|
      invariant forall r | r in results[..i] :: r.key != k
    {
      if results[i].key == k {
        return true;
      }
    }
    assert results[..|results|] == results;
    return false;
  }

  /** Capacity is checked before availability, so an unavailable device may still cause a failure. */
  function GreedyEvaluate(p: Planner, q: Query, chosen: set<Key>, s: Site, seen: set<Key>): Offer {
    match Screen(p, q, s)
    case Err(f) => Fail(f)
    case Ok(selected) =>
      if !selected then Refuse
      else
        match ExclusiveFit(s.device, q.alternative.requests)
        case Fails => Fail(Unsupported)
        case Rejects => Refuse
        case Passes =>
          if KeyOf(s) in seen + chosen || KeyOf(s) in p.committed then Refuse
          else Give(Pick(Grant(q.alternative.requestName, KeyOf(s), None), s.device))
  }

  function GreedyEvaluating(p: Planner, q: Query, chosen: set<Key>): Evaluator {
    (s: Site, seen: set<Key>) => GreedyEvaluate(p, q, chosen, s, seen)
  }

  /** The device is selected, on one node, and not partitioned. */
  ghost predicate SelectedHere(p: Planner, q: Query, s: Site) {
    && p.selects(s.slice.driver, s.device, q.classSelectors, q.alternative.selectors) == Selected
    && s.slice.nodeName.Some? && !s.slice.multiNode && !s.device.partitioned
  }

  /** The greedy planner cannot take the device as a whole: it is to be shared, or has capacities meant for that. */
  ghost predicate NotForOne(d: Device) {
    d.shareable || exists n | n in d.capacity :: d.capacity[n].policy.Some? || d.capacity[n].total < 0
  }

  /**
   * The greedy assessment fails exactly when selectors fail, or a selected device is not supported or
   * not for one claim alone, taken or not. A device that is too small, chosen or committed is refused.
   */
  lemma GreedyFailsExactly(p: Planner, q: Query, chosen: set<Key>, s: Site, seen: set<Key>)
    ensures var d, k := s.device, Key(s.slice.driver, s.slice.pool, s.device.name);
            var o, sel := GreedyEvaluate(p, q, chosen, s, seen),
                p.selects(s.slice.driver, d, q.classSelectors, q.alternative.selectors);
            && (o.Fail? <==> sel == SelectorFailed || (sel == Selected && (!SelectedHere(p, q, s) || NotForOne(d))))
            && (o.Fail? ==> o.failure == if sel == SelectorFailed then SelectorError else Unsupported)
            && (o.Give? <==>
                  && SelectedHere(p, q, s) && !NotForOne(d) && k !in seen && k !in chosen && k !in p.committed
                  && forall n | n in q.alternative.requests ::
                       n in d.capacity && q.alternative.requests[n] <= d.capacity[n].total)
            && (o.Give? ==> o.pick == Pick(Grant(q.alternative.requestName, k, None), d))
  {
  }

  /** Every entry of the ledger is an exclusive allocation. */
  ghost predicate OnlyExclusive(committed: Ledger.Usage) {
    forall k | k in committed :: committed[k].exclusive && !committed[k].shared
  }

  /** A ledger that mirrors consistent results without shares has only exclusive entries. */
  lemma UnsharedLedger(committed: Ledger.Usage, results: seq<Result>)
    requires Ledger.Mirrors(committed, results) && forall k | k in committed :: !committed[k].shared
    ensures OnlyExclusive(committed)
  {
    forall k | k in committed
      ensures committed[k].exclusive
    {
      assert Ledger.NamesHolders(Ledger.UseOf(committed, k), results, k);
      var r :| r in results && r.key == k;
    }
  }

  /** The usage of an attempt that holds only exclusive devices. */
  function Holding(chosen: set<Key>): Attempt {
    Attempt(chosen, {}, map[])
  }

  /** Unless it fails, the greedy assessment grants what the search would grant. */
  lemma GreedyDecides(p: Planner, q: Query, chosen: set<Key>)
    requires OnlyExclusive(p.committed)
    ensures Decides(GreedyEvaluating(p, q, chosen), Granting(p, q, Holding(chosen)))
  {
  }

  /** Where the greedy assessment does not fail, neither does that of the search. */
  lemma SearchFailsLess(p: Planner, q: Query, chosen: set<Key>, s: Site, seen: set<Key>)
    requires OnlyExclusive(p.committed) && !GreedyEvaluate(p, q, chosen, s, seen).Fail?
    ensures Evaluate(p, q, Holding(chosen), s, seen) == GreedyEvaluate(p, q, chosen, s, seen)
  {
  }

  lemma {:induction false} SearchScansAlike(p: Planner, q: Query, chosen: set<Key>, sites: seq<Site>)
    requires OnlyExclusive(p.committed) && ScanBy(GreedyEvaluating(p, q, chosen), sites).Ok?
    ensures Scan(p, q, Holding(chosen), sites) == ScanBy(GreedyEvaluating(p, q, chosen), sites)
  {
    hide Evaluate, GreedyEvaluate;
    if sites != [] {
      var init, s := sites[..|sites| - 1], sites[|sites| - 1];
      SearchScansAlike(p, q, chosen, init);
      SearchFailsLess(p, q, chosen, s, KeysOf(ScanBy(GreedyEvaluating(p, q, chosen), init).value));
    }
  }

  ghost predicate AllExclusive(picks: seq<Pick>) {
    forall x | x in picks :: x.grant.consumed.None?
  }

  lemma {:induction false} GreedyGivesExclusive(p: Planner, q: Query, chosen: set<Key>, sites: seq<Site>)
    requires ScanBy(GreedyEvaluating(p, q, chosen), sites).Ok?
    ensures forall c | c in ScanBy(GreedyEvaluating(p, q, chosen), sites).value :: c.pick.grant.consumed.None?
  {
    if sites != [] {
      GreedyGivesExclusive(p, q, chosen, sites[..|sites| - 1]);
    }
  }

  // ---------- ExactCount: the node that fills first ----------

  lemma OfferedInPrefix(answers: seq<Answer>, more: seq<Answer>, c: Candidate)
    requires Offered(answers, c)
    ensures Offered(answers + more, c)
  {
    var i :| 0 <= i < |answers| && answers[i] == Answer(c.node, Some(c.pick))
          && forall j | 0 <= j < i :: !SameDevice(answers[j], answers[i]);
    var all := answers + more;
    assert all[i] == answers[i] && forall j | 0 <= j < i :: all[j] == answers[j];
  }

  /**
   * After the first n sites, choice c's node has just been filled: its first devices are taken, and
   * no other node has enough yet.
   */
  ghost predicate FillsFirst(eval: Evaluator, sites: seq<Site>, n: nat, count: nat, node: string, picks: seq<Pick>) {
    && 0 < n <= |sites|
    && ScanBy(eval, sites[..n]).Ok? && ScanBy(eval, sites[..n - 1]).Ok?
    && PicksOn(ScanBy(eval, sites[..n]).value, node) == picks && |picks| == count
    && (forall other | other != node :: |PicksOn(ScanBy(eval, sites[..n]).value, other)| < count)
    && |PicksOn(ScanBy(eval, sites[..n - 1]).value, node)| < count
  }

  /** No node has enough devices on offer. */
  ghost predicate NoneFills(eval: Evaluator, sites: seq<Site>, count: nat) {
    ScanBy(eval, sites).Ok? && forall node :: |PicksOn(ScanBy(eval, sites).value, node)| < count
  }

  /** Site n cannot be assessed, and no node has enough devices before it. */
  ghost predicate FailsFirst(eval: Evaluator, sites: seq<Site>, n: nat, count: nat, failure: Failure) {
    n < |sites| && NoneFills(eval, sites[..n], count) && ScanBy(eval, sites[..n + 1]) == Err(failure)
  }

  /** The accumulator: devices by node, and the devices seen. */
  class Accumulator {
    const count: nat
    var byNode: map<string, seq<Pick>>
    var seen: set<Key>

    constructor (count: nat)
      ensures this.count == count && byNode == map[] && seen == {}
    {
      this.count := count;
      byNode, seen := map[], {};
    }

    function On(node: string): seq<Pick>
      reads this
    {
      if node in byNode then byNode[node] else []
    }

    method Add(node: string, pick: Pick) returns (complete: bool)
      modifies this
      ensures forall n :: On(n) == if n == node then old(On(n)) + [pick] else old(On(n))
      ensures seen == old(seen) + {pick.grant.key}
      ensures complete <==> |On(node)| == count
    {
      byNode := byNode[node := On(node) + [pick]];
      seen := seen + {pick.grant.key};
      complete := |byNode[node]| == count;
    }
  }

  /** The accumulator holds what scanning the sites collected, and no node is complete. */
  ghost predicate Accumulates(acc: Accumulator, eval: Evaluator, sites: seq<Site>)
    reads acc
  {
    && ScanBy(eval, sites).Ok?
    && acc.seen == KeysOf(ScanBy(eval, sites).value)
    && forall node :: acc.On(node) == PicksOn(ScanBy(eval, sites).value, node) && |acc.On(node)| < acc.count
  }

  datatype Progress = Failed(failure: Failure) | More | Filled(node: string, picks: seq<Pick>)

  function Joined(collected: seq<Candidate>, node: string, o: Offer): Outcome<seq<Candidate>> {
    match o
    case Fail(f) => Err(f)
    case Refuse => Ok(collected)
    case Give(pick) => Ok(collected + [Candidate(node, pick)])
  }

  lemma ScanNext(eval: Evaluator, sites: seq<Site>, s: Site)
    requires ScanBy(eval, sites).Ok?
    ensures var collected := ScanBy(eval, sites).value;
            ScanBy(eval, sites + [s]) == Joined(collected, s.node, eval(s, KeysOf(collected)))
  {
  }

  /** Offers one more site to the accumulator. */
  method Consider(acc: Accumulator, eval: Evaluator, s: Site, ghost before: seq<Site>) returns (r: Progress)
    requires Accumulates(acc, eval, before) && acc.count > 0
    modifies acc
    ensures match r
            case Failed(f) => FailsFirst(eval, before + [s], |before|, acc.count, f)
            case More => Accumulates(acc, eval, before + [s])
            case Filled(node, picks) => FillsFirst(eval, before + [s], |before| + 1, acc.count, node, picks)
  {
    hide ScanBy, PicksOn;
    ScanNext(eval, before, s);
    assert (before + [s])[..|before|] == before && (before + [s])[..|before| + 1] == before + [s];
    match eval(s, acc.seen) {
      case Fail(f) => return Failed(f);
      case Refuse => return More;
      case Give(pick) =>
        ghost var cs := ScanBy(eval, before).value;
        KeysOfSnoc(cs, Candidate(s.node, pick));
        forall node { PicksOnNext(cs, Candidate(s.node, pick), node); }
        var complete := acc.Add(s.node, pick);
        return if complete then Filled(s.node, acc.On(s.node)) else More;
    }
  }

  lemma PicksOnNext(cs: seq<Candidate>, c: Candidate, node: string)
    ensures PicksOn(cs + [c], node) == if c.node == node then PicksOn(cs, node) + [c.pick] else PicksOn(cs, node)
  {
  }

  /** How offering sites one by one ends: at the first failure or full node, or after all of them. */
  ghost predicate Ends(eval: Evaluator, sites: seq<Site>, count: nat, r: Progress) {
    match r
    case Failed(f) => exists n: nat :: FailsFirst(eval, sites, n, count, f)
    case More => NoneFills(eval, sites, count)
    case Filled(node, picks) => exists n: nat :: FillsFirst(eval, sites, n, count, node, picks)
  }

  lemma EndsInMore(eval: Evaluator, some: seq<Site>, all: seq<Site>, count: nat, r: Progress)
    requires some <= all && Ends(eval, some, count, r) && !r.More?
    ensures Ends(eval, all, count, r)
  {
    hide ScanBy, PicksOn;
    match r {
      case Failed(f) =>
        var n: nat :| FailsFirst(eval, some, n, count, f);
        assert all[..n] == some[..n] && all[..n + 1] == some[..n + 1];
        assert FailsFirst(eval, all, n, count, f);
      case Filled(node, picks) =>
        var n: nat :| FillsFirst(eval, some, n, count, node, picks);
        assert all[..n] == some[..n] && all[..n - 1] == some[..n - 1];
        assert FillsFirst(eval, all, n, count, node, picks);
    }
  }

  method SelectFromSlice(acc: Accumulator, eval: Evaluator, node: string, s: Slice, ghost before: seq<Site>)
    returns (r: Progress)
    requires Accumulates(acc, eval, before) && acc.count > 0
    modifies acc
    ensures Ends(eval, before + DevicesAt(node, s), acc.count, r)
    ensures r.More? ==> Accumulates(acc, eval, before + DevicesAt(node, s))
  {
    hide ScanBy, PicksOn, FillsFirst, FailsFirst;
    ghost var sites := DevicesAt(node, s);
    assert before + sites[..0] == before;
    for i := 0 to |s.devices|
      invariant Accumulates(acc, eval, before + sites[..i])
    {
      assert before + sites[..i] + [sites[i]] == before + sites[..i + 1];
      r := Consider(acc, eval, Site(node, s, s.devices[i]), before + sites[..i]);
      if !r.More? {
        assert before + sites[..i + 1] <= before + sites;
        EndsInMore(eval, before + sites[..i + 1], before + sites, acc.count, r);
        return;
      }
    }
    assert before + sites[..|sites|] == before + sites;
    return More;
  }

  method SelectExact(eval: Evaluator, slices: seq<Slice>, pinned: string, count: nat) returns (r: Progress)
    requires count > 0
    ensures Ends(eval, ExactSites(slices, pinned), count, r)
  {
    hide Ends, ExactSites;
    var acc := new Accumulator(count);
    NoSlicesNoSites(pinned);
    for i := 0 to |slices|
      invariant fresh(acc) && Accumulates(acc, eval, ExactSites(slices[..i], pinned))
    {
      NextSliceSites(slices, pinned, i);
      var node := CompatibleNode(slices[i], pinned);
      if Eligible(slices[i]) && node.Some? {
        r := SelectFromSlice(acc, eval, node.value, slices[i], ExactSites(slices[..i], pinned));
        if !r.More? {
          Collector.ExactSitesGrow(slices, pinned, i + 1);
          EndsInMore(eval, ExactSites(slices[..i + 1], pinned), ExactSites(slices, pinned), count, r);
          return;
        }
      }
    }
    assert slices[..|slices|] == slices;
    NoneFilled(acc, eval, ExactSites(slices, pinned));
    return More;
  }

  lemma NoneFilled(acc: Accumulator, eval: Evaluator, sites: seq<Site>)
    requires Accumulates(acc, eval, sites)
    ensures Ends(eval, sites, acc.count, More)
  {
  }

  lemma NoSlicesNoSites(pinned: string)
    ensures ExactSites([], pinned) == []
  {
  }

  lemma NextSliceSites(slices: seq<Slice>, pinned: string, i: nat)
    requires i < |slices|
    ensures var node := CompatibleNode(slices[i], pinned);
            ExactSites(slices[..i + 1], pinned) ==
              if Eligible(slices[i]) && node.Some?
              then ExactSites(slices[..i], pinned) + DevicesAt(node.value, slices[i])
              else ExactSites(slices[..i], pinned)
  {
    assert slices[..i + 1][..i] == slices[..i];
  }

  /** The devices taken for the node that fills first are all on offer there. */
  lemma FilledIsAdmissible(
    p: Planner, a: Alternative, st: State, chosen: set<Key>, n: nat, c: Choice)
    requires OnlyExclusive(p.committed) && st.usage == Holding(chosen)
    requires WellFormed(a) && a.mode == ExactCount && a.className in p.classes && a.count <= Remaining(st)
    requires FillsFirst(GreedyEvaluating(p, QueryFor(p, a), chosen), ExactSites(p.slices, st.node), n, a.count,
                        c.node, c.picks)
    ensures AdmissibleFor(p, a, st, c) && AllExclusive(c.picks)
  {
    hide Grants, GreedyEvaluate, ExactSites, ScanBy, PicksOn;
    var q, sites := QueryFor(p, a), ExactSites(p.slices, st.node);
    var eval, grant := GreedyEvaluating(p, q, chosen), Granting(p, q, st.usage);
    GreedyDecides(p, q, chosen);
    ScanByExact(eval, grant, sites[..n]);
    var cs := ScanBy(eval, sites[..n]).value;
    PicksOnExact(cs, c.node);
    GreedyGivesExclusive(p, q, chosen, sites[..n]);
    forall x | x in c.picks
      ensures Offered(Answers(p, q, st.usage, sites), Candidate(c.node, x)) && x.grant.consumed.None?
    {
      assert Candidate(c.node, x) in cs;
      OfferedInPrefix(AnswersBy(grant, sites[..n]), AnswersBy(grant, sites[n..]), Candidate(c.node, x));
      assert AnswersBy(grant, sites[..n]) + AnswersBy(grant, sites[n..]) == AnswersBy(grant, sites);
    }
  }

  // ---------- All: the first node that qualifies ----------

  /** What a node offers to an All alternative: None when its pools are not complete. */
  ghost function EverythingOn(
    eval: Evaluator, slices: seq<Slice>, pinned: string, node: string): Option<Outcome<seq<Candidate>>> {
    match AllSites(slices, pinned, node)
    case None => None
    case Some(sites) => Some(ScanBy(eval, sites))
  }

  /** An All alternative cannot use this node: incomplete pools, nothing on offer, or more than fits. */
  ghost predicate PassedOver(eval: Evaluator, slices: seq<Slice>, pinned: string, node: string, max: int) {
    var e := EverythingOn(eval, slices, pinned, node);
    e.None? || (e.value.Ok? && (e.value.value == [] || |e.value.value| > max))
  }

  datatype AllProgress =
    | AllFailed(failure: Failure)
    | NoNode
    | OverLimit
    | Takes(rank: nat, node: string, picks: seq<Pick>)

  /** Some node has devices on offer. */
  ghost predicate SomeOffer(eval: Evaluator, slices: seq<Slice>, pinned: string, nodes: seq<string>) {
    exists i | 0 <= i < |nodes| ::
      var e := EverythingOn(eval, slices, pinned, nodes[i]); e.Some? && e.value.Ok? && e.value.value != []
  }

  /** Some node's pools are not complete. */
  ghost predicate SomeIncomplete(eval: Evaluator, slices: seq<Slice>, pinned: string, nodes: seq<string>) {
    exists i | 0 <= i < |nodes| :: EverythingOn(eval, slices, pinned, nodes[i]).None?
  }

  ghost predicate AllPassedOver(eval: Evaluator, slices: seq<Slice>, pinned: string, nodes: seq<string>, max: int) {
    forall i | 0 <= i < |nodes| :: PassedOver(eval, slices, pinned, nodes[i], max)
  }

  /** The first node not passed over is taken, or fails; with no such node, why the alternative is unusable. */
  ghost predicate EndsAll(eval: Evaluator, slices: seq<Slice>, pinned: string, max: int, r: AllProgress) {
    var nodes := ManagedNodes(slices, pinned);
    var offer, incomplete := SomeOffer(eval, slices, pinned, nodes), SomeIncomplete(eval, slices, pinned, nodes);
    match r
    case Takes(rank, node, picks) =>
      && rank < |nodes| && nodes[rank] == node && 0 < |picks| <= max
      && EverythingOn(eval, slices, pinned, node) == Some(Ok(Collector.CandidatesAt(node, picks)))
      && AllPassedOver(eval, slices, pinned, nodes[..rank], max)
    case AllFailed(f) =>
      || (exists i | 0 <= i < |nodes| :: FailsOn(eval, slices, pinned, max, nodes, i, f))
      || (f == Unsupported && AllPassedOver(eval, slices, pinned, nodes, max) && !offer && incomplete)
    case OverLimit => AllPassedOver(eval, slices, pinned, nodes, max) && offer
    case NoNode => AllPassedOver(eval, slices, pinned, nodes, max) && !offer && !incomplete
  }

  ghost predicate FailsOn(
    eval: Evaluator, slices: seq<Slice>, pinned: string, max: int, nodes: seq<string>, i: nat, failure: Failure)
    requires i < |nodes|
  {
    && EverythingOn(eval, slices, pinned, nodes[i]) == Some(Err(failure))
    && AllPassedOver(eval, slices, pinned, nodes[..i], max)
  }

  method SelectAll(eval: Evaluator, slices: seq<Slice>, pinned: string, max: int) returns (r: AllProgress)
    ensures EndsAll(eval, slices, pinned, max, r)
  {
    hide ScanBy, AllSites, PassedOver;
    var order, byNode := Collector.ManagedByNode(slices, pinned);
    var deferred, overLimit := false, false;
    for i := 0 to |order|
      invariant AllPassedOver(eval, slices, pinned, order[..i], max)
      invariant deferred <==> SomeIncomplete(eval, slices, pinned, order[..i])
      invariant overLimit <==> SomeOffer(eval, slices, pinned, order[..i])
    {
      assert order[i] in order;
      NextNode(eval, slices, pinned, order, i, max);
      var found := SelectAllFromNode(eval, slices, pinned, order[i], byNode[order[i]]);
      match found {
        case None => deferred := true;
        case Some(Err(f)) =>
          assert FailsOn(eval, slices, pinned, max, order, i, f);
          return AllFailed(f);
        case Some(Ok(picks)) =>
          if picks != [] && |picks| <= max {
            return Takes(i, order[i], picks);
          }
          if picks != [] {
            overLimit := true;
          }
      }
    }
    assert order[..|order|] == order;
    return if overLimit then OverLimit else if deferred then AllFailed(Unsupported) else NoNode;
  }

  lemma NextNode(eval: Evaluator, slices: seq<Slice>, pinned: string, nodes: seq<string>, i: nat, max: int)
    requires i < |nodes|
    ensures var e := EverythingOn(eval, slices, pinned, nodes[i]);
            && (SomeIncomplete(eval, slices, pinned, nodes[..i + 1]) <==>
                SomeIncomplete(eval, slices, pinned, nodes[..i]) || e.None?)
            && (SomeOffer(eval, slices, pinned, nodes[..i + 1]) <==>
                SomeOffer(eval, slices, pinned, nodes[..i]) || (e.Some? && e.value.Ok? && e.value.value != []))
            && (AllPassedOver(eval, slices, pinned, nodes[..i + 1], max) <==>
                AllPassedOver(eval, slices, pinned, nodes[..i], max)
                && (e.None? || (e.value.Ok? && (e.value.value == [] || |e.value.value| > max))))
  {
    hide EverythingOn;
    assert nodes[..i + 1] == nodes[..i] + [nodes[i]];
    assert nodes[..i + 1][i] == nodes[i];
  }

  method SelectAllFromNode(eval: Evaluator, slices: seq<Slice>, pinned: string, node: string, here: seq<Slice>)
    returns (r: Option<Outcome<seq<Pick>>>)
    requires here == ManagedOn(slices, pinned, node)
    ensures EverythingOn(eval, slices, pinned, node) ==
            if r.None? then None else Some(Collector.Placed(node, r.value))
  {
    var current := Pools.CompleteCurrentPoolSlices(here);
    if current.None? {
      return None;
    }
    var picks := Collector.CollectHealthy(eval, node, current.value);
    return Some(picks);
  }

  /** The devices taken by All are everything on offer on the node. */
  lemma TakenIsAdmissible(p: Planner, a: Alternative, st: State, chosen: set<Key>, c: Choice)
    requires OnlyExclusive(p.committed) && st.usage == Holding(chosen)
    requires a.mode == All && a.className in p.classes && 0 < |c.picks| <= Remaining(st)
    requires EverythingOn(GreedyEvaluating(p, QueryFor(p, a), chosen), p.slices, st.node, c.node)
          == Some(Ok(Collector.CandidatesAt(c.node, c.picks)))
    ensures AdmissibleFor(p, a, st, c) && AllExclusive(c.picks)
  {
    var q := QueryFor(p, a);
    var sites := AllSites(p.slices, st.node, c.node).value;
    SearchScansAlike(p, q, chosen, sites);
    GreedyGivesExclusive(p, q, chosen, sites);
    assert PicksOf(Collector.CandidatesAt(c.node, c.picks)) == c.picks;
    AllOnExact(p, q, st, c.node);
    forall x | x in c.picks
      ensures x.grant.consumed.None?
    {
      var i :| 0 <= i < |c.picks| && c.picks[i] == x;
      assert Collector.CandidatesAt(c.node, c.picks)[i] in Collector.CandidatesAt(c.node, c.picks);
    }
  }

  // ---------- requests and claims ----------

  datatype AlternativeResult = Skipped(overLimit: bool) | Stops(failure: Failure) | Selects(choice: Choice)

  /** What the alternative comes to when its class exists and its count is within the limit. */
  ghost predicate AlternativeComes(p: Planner, a: Alternative, st: State, alternative: nat, r: AlternativeResult)
    requires a.className in p.classes
  {
    var eval := GreedyEvaluating(p, QueryFor(p, a), st.usage.exclusive);
    if a.mode == All then
      match r
      case Selects(c) =>
        && EndsAll(eval, p.slices, st.node, Remaining(st), Takes(c.rank, c.node, c.picks))
        && c.alternative == alternative && c.indices == []
      case Skipped(over) => EndsAll(eval, p.slices, st.node, Remaining(st), if over then OverLimit else NoNode)
      case Stops(f) => EndsAll(eval, p.slices, st.node, Remaining(st), AllFailed(f))
    else
      match r
      case Selects(c) =>
        && Ends(eval, ExactSites(p.slices, st.node), a.count, Filled(c.node, c.picks))
        && c.alternative == alternative && c.rank == 0 && c.indices == []
      case Skipped(over) => !over && Ends(eval, ExactSites(p.slices, st.node), a.count, More)
      case Stops(f) => Ends(eval, ExactSites(p.slices, st.node), a.count, Failed(f))
  }

  /** Only exclusive devices are reserved. */
  ghost predicate Exclusively(st: State) {
    st.usage == Holding(st.usage.exclusive)
  }

  method SelectAlternative(p: Planner, a: Alternative, st: State, chosen: set<Key>, alternative: nat)
    returns (r: AlternativeResult)
    requires WellFormed(a) && a.className in p.classes && chosen == st.usage.exclusive
    ensures AlternativeComes(p, a, st, alternative, r)
  {
    hide Ends, EndsAll;
    var eval := GreedyEvaluating(p, QueryFor(p, a), chosen);
    if a.mode == All {
      var found := SelectAll(eval, p.slices, st.node, Remaining(st));
      match found {
        case AllFailed(f) => return Stops(f);
        case NoNode => return Skipped(false);
        case OverLimit => return Skipped(true);
        case Takes(rank, node, picks) => return Selects(Choice(alternative, rank, [], node, picks));
      }
    }
    var found := SelectExact(eval, p.slices, st.node, a.count);
    match found {
      case Failed(f) => return Stops(f);
      case More => return Skipped(false);
      case Filled(node, picks) => return Selects(Choice(alternative, 0, [], node, picks));
    }
  }

  /** What is selected is a legitimate choice, and holds no share. */
  lemma SelectedIsAdmissible(p: Planner, a: Alternative, st: State, alternative: nat, c: Choice)
    requires OnlyExclusive(p.committed) && Exclusively(st) && WellFormed(a) && a.className in p.classes
    requires a.mode == ExactCount ==> a.count <= Remaining(st)
    requires AlternativeComes(p, a, st, alternative, Selects(c))
    ensures c.alternative == alternative && AdmissibleFor(p, a, st, c) && AllExclusive(c.picks)
  {
    hide AdmissibleFor, FillsFirst, EverythingOn, PassedOver;
    if a.mode == All {
      TakenIsAdmissible(p, a, st, st.usage.exclusive, c);
    } else {
      var eval := GreedyEvaluating(p, QueryFor(p, a), st.usage.exclusive);
      var n: nat :| FillsFirst(eval, ExactSites(p.slices, st.node), n, a.count, c.node, c.picks);
      FilledIsAdmissible(p, a, st, st.usage.exclusive, n, c);
    }
  }

  /** What an alternative comes to; `overLimit` says that it would need more results than remain. */
  ghost predicate Comes(p: Planner, a: Alternative, st: State, alternative: nat, r: AlternativeResult) {
    if a.className !in p.classes then r == Skipped(false)
    else if a.mode == ExactCount && a.count > Remaining(st) then r == Skipped(true)
    else AlternativeComes(p, a, st, alternative, r)
  }

  ghost predicate SkippedAll(p: Planner, alternatives: seq<Alternative>, st: State) {
    forall j: nat | j < |alternatives| :: exists over :: Comes(p, alternatives[j], st, j, Skipped(over))
  }

  /** The first alternative that is not skipped decides; when all are skipped, why none serves the request. */
  ghost predicate RequestComes(p: Planner, request: Request, st: State, r: Outcome<Choice>) {
    var supported := SupportedAlternatives(request);
    if supported.Err? then r == Err(supported.failure)
    else
      var all := supported.value;
      || (exists i: nat :: i < |all| && DecidedBy(p, all, st, i, r))
      || (SkippedAll(p, all, st) && r == Err(
            if |all| == 1 && Comes(p, all[0], st, 0, Skipped(true)) then Unsupported
            else if forall a | a in all :: a.className !in p.classes then ClassNotFound
            else NoMatch))
  }

  ghost predicate DecidedBy(p: Planner, all: seq<Alternative>, st: State, i: nat, r: Outcome<Choice>)
    requires i < |all|
  {
    SkippedAll(p, all[..i], st) && Comes(p, all[i], st, i, if r.Ok? then Selects(r.value) else Stops(r.failure))
  }

  method SelectRequest(p: Planner, request: Request, st: State, chosen: set<Key>) returns (r: Outcome<Choice>)
    requires chosen == st.usage.exclusive
    ensures RequestComes(p, request, st, r)
  {
    hide AlternativeComes;
    var alternatives := SupportedAlternatives(request);
    if alternatives.Err? {
      return Err(alternatives.failure);
    }
    var all := alternatives.value;
    var missing, overLimit := 0, false;
    for i := 0 to |all|
      invariant SkippedAll(p, all[..i], st) && missing <= i
      invariant missing == i <==> forall j | 0 <= j < i :: all[j].className !in p.classes
      invariant i == 1 ==> (overLimit <==> Comes(p, all[0], st, 0, Skipped(true)))
      invariant i == 0 ==> !overLimit
    {
      var a := all[i];
      assert all[..i + 1] == all[..i] + [a];
      if a.className !in p.classes {
        assert Comes(p, a, st, i, Skipped(false));
        missing := missing + 1;
        continue;
      }
      if a.mode == ExactCount && a.count > Remaining(st) {
        assert Comes(p, a, st, i, Skipped(true));
        overLimit := true;
        continue;
      }
      var found := SelectAlternative(p, a, st, chosen, i);
      assert Comes(p, a, st, i, found);
      match found {
        case Stops(f) =>
          assert DecidedBy(p, all, st, i, Err(f));
          return Err(f);
        case Skipped(over) =>
          ComesOnce(p, a, st, i, over);
          overLimit := overLimit || over;
        case Selects(c) =>
          assert DecidedBy(p, all, st, i, Ok(c));
          return Ok(c);
      }
    }
    assert all[..|all|] == all;
    if overLimit && |all| == 1 {
      return Err(Unsupported);
    }
    return Err(if missing == |all| then ClassNotFound else NoMatch);
  }

  /** An alternative is not skipped for both reasons. */
  lemma ComesOnce(p: Planner, a: Alternative, st: State, alternative: nat, over: bool)
    requires Comes(p, a, st, alternative, Skipped(over))
    ensures !Comes(p, a, st, alternative, Skipped(!over))
  {
  }

  /** A choice the greedy planner makes is one that the search could make. */
  lemma RequestIsAdmissible(p: Planner, request: Request, st: State, c: Choice)
    requires OnlyExclusive(p.committed) && Exclusively(st) && RequestComes(p, request, st, Ok(c))
    ensures Admissible(p, request, st, c) && AllExclusive(c.picks)
  {
    hide AlternativeComes, AdmissibleFor, SkippedAll;
    var all := SupportedAlternatives(request).value;
    var i: nat :| i < |all| && DecidedBy(p, all, st, i, Ok(c));
    SelectedIsAdmissible(p, all[i], st, i, c);
  }

  // ---------- what the greedy planner passes over ----------

  /** No node has enough devices for the alternative, so none admits a selection. */
  lemma UnfilledIsHopeless(p: Planner, a: Alternative, st: State, c: Choice)
    requires OnlyExclusive(p.committed) && Exclusively(st) && WellFormed(a)
    requires a.mode == ExactCount && a.className in p.classes
    requires NoneFills(GreedyEvaluating(p, QueryFor(p, a), st.usage.exclusive), ExactSites(p.slices, st.node), a.count)
    ensures !AdmissibleFor(p, a, st, c)
  {
    hide ExactSites, GreedyEvaluate, Evaluate, AdmissibleFor;
    if AdmissibleFor(p, a, st, c) {
      var q, sites := QueryFor(p, a), ExactSites(p.slices, st.node);
      SearchScansAlike(p, q, st.usage.exclusive, sites);
      var cs := Scan(p, q, st.usage, sites).value;
      var d := ExactMovesComplete(p, a, st, c);
      ExactChoicesListed(cs, NodeOrder(cs), c.alternative, a.count, d);
      Combinations.IncreasingSpan(d.indices, 0, |PicksOn(cs, d.node)|);
      assert false;
    }
  }

  /** Every node is passed over for an All alternative, so none admits a selection. */
  lemma PassedOverIsHopeless(p: Planner, a: Alternative, st: State, c: Choice)
    requires OnlyExclusive(p.committed) && Exclusively(st) && a.mode == All && a.className in p.classes
    requires AllPassedOver(GreedyEvaluating(p, QueryFor(p, a), st.usage.exclusive), p.slices, st.node,
                           ManagedNodes(p.slices, st.node), Remaining(st))
    ensures !AdmissibleFor(p, a, st, c)
  {
    hide GreedyEvaluate, Evaluate, AdmissibleFor, AllSites, ManagedNodes;
    if AdmissibleFor(p, a, st, c) {
      var q, nodes := QueryFor(p, a), ManagedNodes(p.slices, st.node);
      var eval := GreedyEvaluating(p, q, st.usage.exclusive);
      var d := AllMovesComplete(p, a, st, c);
      AllFromListed(p, q, st, nodes, c.alternative, d);
      assert PassedOver(eval, p.slices, st.node, nodes[d.rank], Remaining(st));
      SearchScansAlike(p, q, st.usage.exclusive, AllSites(p.slices, st.node, d.node).value);
      assert false;
    }
  }

  /** An alternative that the greedy planner skips admits no selection at all. */
  lemma SkippedIsHopeless(p: Planner, a: Alternative, st: State, j: nat, over: bool, c: Choice)
    requires OnlyExclusive(p.committed) && Exclusively(st) && WellFormed(a) && Comes(p, a, st, j, Skipped(over))
    ensures !AdmissibleFor(p, a, st, c)
  {
    hide AllPassedOver, NoneFills, TakesEverything, TakesOffered;
    if a.className in p.classes && a.mode == All {
      PassedOverIsHopeless(p, a, st, c);
    } else if a.className in p.classes && a.count <= Remaining(st) {
      UnfilledIsHopeless(p, a, st, c);
    }
  }

  /** A request all of whose alternatives are skipped admits no selection. */
  lemma UnservedIsHopeless(p: Planner, r: Request, st: State, c: Choice)
    requires OnlyExclusive(p.committed) && Exclusively(st) && SupportedAlternatives(r).Ok?
    requires SkippedAll(p, SupportedAlternatives(r).value, st)
    ensures !Admissible(p, r, st, c)
  {
    hide Comes, AdmissibleFor, WellFormed;
    var all := SupportedAlternatives(r).value;
    if c.alternative < |all| {
      var over :| Comes(p, all[c.alternative], st, c.alternative, Skipped(over));
      SkippedIsHopeless(p, all[c.alternative], st, c.alternative, over, c);
    }
  }

  /** The greedy planner takes the first alternative that admits a selection. */
  lemma EarlierAdmitsNothing(p: Planner, r: Request, st: State, taken: Choice, c: Choice)
    requires OnlyExclusive(p.committed) && Exclusively(st) && RequestComes(p, r, st, Ok(taken))
    requires c.alternative < taken.alternative
    ensures !Admissible(p, r, st, c)
  {
    hide AdmissibleFor, WellFormed, AlternativeComes;
    var all := SupportedAlternatives(r).value;
    var i: nat :| i < |all| && DecidedBy(p, all, st, i, Ok(taken));
    SelectedIsAdmissible(p, all[i], st, i, taken);
    assert all[..i][c.alternative] == all[c.alternative];
    var over :| Comes(p, all[..i][c.alternative], st, c.alternative, Skipped(over));
    SkippedIsHopeless(p, all[c.alternative], st, c.alternative, over, c);
  }

  predicate Unmatched(f: Failure) {
    f == NoMatch || f == ClassNotFound
  }

  lemma {:induction false} ScanFailures(p: Planner, q: Query, chosen: set<Key>, sites: seq<Site>)
    ensures var scan := ScanBy(GreedyEvaluating(p, q, chosen), sites); scan.Err? ==> !Unmatched(scan.failure)
  {
    if sites != [] {
      ScanFailures(p, q, chosen, sites[..|sites| - 1]);
    }
  }

  /** An alternative never stops the planner for want of a match. */
  lemma StopsAreFailures(p: Planner, a: Alternative, st: State, i: nat, f: Failure)
    requires Comes(p, a, st, i, Stops(f))
    ensures !Unmatched(f)
  {
    hide GreedyEvaluate, ScanBy, AllPassedOver, NoneFills, SomeOffer, SomeIncomplete;
    var q, chosen := QueryFor(p, a), st.usage.exclusive;
    var eval := GreedyEvaluating(p, q, chosen);
    if a.mode == All {
      var nodes := ManagedNodes(p.slices, st.node);
      if i: nat :| i < |nodes| && FailsOn(eval, p.slices, st.node, Remaining(st), nodes, i, f) {
        ScanFailures(p, q, chosen, AllSites(p.slices, st.node, nodes[i]).value);
      }
    } else {
      var sites := ExactSites(p.slices, st.node);
      var n: nat :| FailsFirst(eval, sites, n, a.count, f);
      ScanFailures(p, q, chosen, sites[..n + 1]);
    }
  }

  /** A request reported as unmatched admits no selection after the choices made before it. */
  lemma UnmatchedIsHopeless(p: Planner, r: Request, st: State, f: Failure, c: Choice)
    requires OnlyExclusive(p.committed) && Exclusively(st) && RequestComes(p, r, st, Err(f)) && Unmatched(f)
    ensures !Admissible(p, r, st, c)
  {
    hide AdmissibleFor, Comes, SkippedAll;
    var supported := SupportedAlternatives(r);
    if supported.Ok? {
      if i: nat :| i < |supported.value| && DecidedBy(p, supported.value, st, i, Err(f)) {
        StopsAreFailures(p, supported.value[i], st, i, f);
      }
      UnservedIsHopeless(p, r, st, c);
    }
  }

  /** A claim of one request that the greedy planner reports as unmatched has no solution. */
  lemma OneRequestComplete(p: Planner, r: Request, f: Failure, path: seq<Choice>)
    requires OnlyExclusive(p.committed) && GreedyPlans(p, [r], Err(f)) && Unmatched(f)
    ensures !Solution(p, [r], [], START, path)
  {
    hide RequestComes, Admissible;
    var done :| Follows(p, [r], done) && FailsAfter(p, [r], done, f);
    assert done == [] && Finish(START, done) == START;
    if Solution(p, [r], [], START, path) {
      UnmatchedIsHopeless(p, r, START, f, path[0]);
    }
  }

  // ---------- whole claims ----------

  lemma {:induction false} ReserveExclusive(u: Attempt, picks: seq<Pick>)
    requires AllExclusive(picks)
    ensures ReserveAll(u, picks) == u.(exclusive := u.exclusive + set x | x in picks :: x.grant.key)
  {
    if picks != [] {
      var init, x := picks[..|picks| - 1], picks[|picks| - 1];
      assert picks == init + [x];
      ReserveExclusive(u, init);
      assert (set y | y in picks :: y.grant.key) == (set y | y in init :: y.grant.key) + {x.grant.key};
    }
  }

  /** A path whose steps are admissible one after another, with nothing left to satisfy, is a solution. */
  lemma {:induction false} StepsAreSolution(p: Planner, requests: seq<Request>, st: State, path: seq<Choice>)
    requires |path| == |requests|
    requires forall i | 0 <= i < |path| :: Admissible(p, requests[i], Finish(st, path[..i]), path[i])
    ensures Solution(p, requests, [], st, path)
    decreases |path|
  {
    hide Admissible, After;
    if path != [] {
      assert path[..0] == [];
      forall i | 0 <= i < |path| - 1
        ensures Admissible(p, requests[1..][i], Finish(After(st, path[0]), path[1..][..i]), path[1..][i])
      {
        assert path[..i + 1][1..] == path[1..][..i];
      }
      StepsAreSolution(p, requests[1..], After(st, path[0]), path[1..]);
    }
  }

  /** The path takes, request by request, what the greedy planner takes. */
  ghost predicate Follows(p: Planner, requests: seq<Request>, path: seq<Choice>) {
    && |path| <= |requests|
    && forall i | 0 <= i < |path| :: RequestComes(p, requests[i], Finish(START, path[..i]), Ok(path[i]))
  }

  /** A whole plan, or the failure of the first request that is not served after the choices before it. */
  ghost predicate GreedyPlans(p: Planner, requests: seq<Request>, r: Outcome<seq<Choice>>) {
    match r
    case Ok(path) => Follows(p, requests, path) && |path| == |requests|
    case Err(f) => exists path :: Follows(p, requests, path) && FailsAfter(p, requests, path, f)
  }

  ghost predicate FailsAfter(p: Planner, requests: seq<Request>, path: seq<Choice>, failure: Failure) {
    |path| < |requests| && RequestComes(p, requests[|path|], Finish(START, path), Err(failure))
  }

  lemma FollowsNext(p: Planner, requests: seq<Request>, path: seq<Choice>, c: Choice)
    requires Follows(p, requests, path) && |path| < |requests|
    requires RequestComes(p, requests[|path|], Finish(START, path), Ok(c))
    ensures Follows(p, requests, path + [c])
  {
    hide RequestComes;
    assert (path + [c])[..|path|] == path;
    assert forall j | 0 <= j < |path| :: (path + [c])[..j] == path[..j];
  }

  /** Serves the requests one after another; what it returns is a solution like the search's. */
  method PlanUnconstrained(p: Planner, requests: seq<Request>) returns (r: Outcome<seq<Choice>>)
    requires OnlyExclusive(p.committed)
    ensures GreedyPlans(p, requests, r)
    ensures r.Ok? ==> Solution(p, requests, [], START, r.value)
  {
    hide Admissible, Solution, RequestComes, Follows;
    var path: seq<Choice>, st, chosen := [], START, {};
    NothingFollows(p, requests);
    for i := 0 to |requests|
      invariant |path| == i && st == Finish(START, path) && st.usage == Holding(chosen)
      invariant Follows(p, requests, path)
      invariant forall j | 0 <= j < i :: Admissible(p, requests[j], Finish(START, path[..j]), path[j])
    {
      var selection := SelectRequest(p, requests[i], st, chosen);
      if selection.Err? {
        assert FailsAfter(p, requests, path, selection.failure);
        return Err(selection.failure);
      }
      var c := selection.value;
      RequestIsAdmissible(p, requests[i], st, c);
      ReserveExclusive(st.usage, c.picks);
      FinishSnoc(START, path, c);
      FollowsNext(p, requests, path, c);
      assert (path + [c])[..i] == path;
      assert forall j | 0 <= j < i :: (path + [c])[..j] == path[..j];
      st, path := After(st, c), path + [c];
      chosen := chosen + set x | x in c.picks :: x.grant.key;
    }
    StepsAreSolution(p, requests, START, path);
    return Ok(path);
  }

  lemma NothingFollows(p: Planner, requests: seq<Request>)
    ensures Follows(p, requests, [])
  {
  }
}
