/** When the search aborts: the causes there are, and a condition on the claim that excludes an overflow. */
module Aborts {
  import opened Types
  import opened Candidates
  import opened Choices
  import opened Constraints
  import opened Backtracking
  import CapacityPolicy
  import Ledger
  import Plans
  import Pools

  // ---------- causes ----------

  /** The path serves the first |path| requests one after another. */
  ghost predicate Reaches(p: Planner, requests: seq<Request>, st: State, path: seq<Choice>)
    decreases |path|
  {
    path == [] ||
    (requests != [] && Admissible(p, requests[0], st, path[0])
     && Reaches(p, requests[1..], After(st, path[0]), path[1..]))
  }

  /**
   * After the path, a constraint cannot be checked, or the selections for the next request end in the
   * failure.
   */
  ghost predicate Causes(
    p: Planner, requests: seq<Request>, cs: seq<Constraint>, st: State, path: seq<Choice>, f: Failure)
  {
    || (path != [] && CheckAll(cs, Finish(st, path).picks) == Broken && f == Unsupported)
    || (|path| < |requests| && RequestTrace(p, requests[|path|], Finish(st, path)).end == Some(f))
  }

  /** An abort has a cause in some state that the search reaches. */
  lemma {:induction false} AbortHasCause(p: Planner, requests: seq<Request>, cs: seq<Constraint>, st: State)
    returns (path: seq<Choice>)
    requires Explore(p, requests, cs, st).0.Aborted?
    ensures Reaches(p, requests, st, path) && Causes(p, requests, cs, st, path, Explore(p, requests, cs, st).0.failure)
    decreases |requests|, 1, 0
  {
    var t := RequestTrace(p, requests[0], st);
    path := AbortEachHasCause(p, requests, cs, st, t.choices, t.end);
  }

  lemma {:induction false} AbortEachHasCause(
    p: Planner, requests: seq<Request>, cs: seq<Constraint>, st: State, choices: seq<Choice>, end: Option<Failure>)
    returns (path: seq<Choice>)
    requires requests != [] && ExploreEach(p, requests, cs, st, choices, end).0.Aborted?
    requires end == RequestTrace(p, requests[0], st).end
    requires forall c | c in choices :: c in RequestTrace(p, requests[0], st).choices
    ensures Reaches(p, requests, st, path)
    ensures Causes(p, requests, cs, st, path, ExploreEach(p, requests, cs, st, choices, end).0.failure)
    decreases |requests|, 0, |choices|
  {
    hide Admissible, CheckAll, After, RequestTrace;
    if choices == [] {
      return [];
    }
    var c, next := choices[0], After(st, choices[0]);
    TraceSound(p, requests[0], st, c);
    if CheckAll(cs, next.picks) == Broken {
      path := [c];
      assert Finish(st, path) == next;
    } else if CheckAll(cs, next.picks) == Holds && Explore(p, requests[1..], cs, next).0.Aborted? {
      var rest := AbortHasCause(p, requests[1..], cs, next);
      path := [c] + rest;
      assert path[1..] == rest && Finish(st, path) == Finish(next, rest);
    } else {
      path := AbortEachHasCause(p, requests, cs, st, choices[1..], end);
    }
  }

  // ---------- a cause that is met is not passed over ----------

  /** The search may come to this path: what is tried for every request, all but the last of it accepted. */
  ghost predicate Tried(p: Planner, requests: seq<Request>, cs: seq<Constraint>, st: State, path: seq<Choice>)
    decreases |path|
  {
    path == [] ||
    (requests != [] && path[0] in RequestTrace(p, requests[0], st).choices
     && (|path| > 1 ==> CheckAll(cs, After(st, path[0]).picks) == Holds)
     && Tried(p, requests[1..], cs, After(st, path[0]), path[1..]))
  }

  /** After this path a constraint cannot be checked or, the path being accepted, its selections end in a failure. */
  ghost predicate Interrupts(
    p: Planner, requests: seq<Request>, cs: seq<Constraint>, st: State, path: seq<Choice>)
  {
    || (path != [] && CheckAll(cs, Finish(st, path).picks) == Broken)
    || (|path| < |requests| && (path == [] || CheckAll(cs, Finish(st, path).picks) == Holds)
        && RequestTrace(p, requests[|path|], Finish(st, path)).end.Some?)
  }

  /** At the first difference, the path has what is preferred. */
  ghost predicate BranchesBefore(path: seq<Choice>, other: seq<Choice>)
    decreases |path|
  {
    path != [] && other != []
    && (Before(path[0], other[0]) || (path[0] == other[0] && BranchesBefore(path[1..], other[1..])))
  }

  /** When the search finds nothing and does not fail, nothing it came to could have interrupted it. */
  lemma {:induction false} NothingInterrupted(
    p: Planner, requests: seq<Request>, cs: seq<Constraint>, st: State, path: seq<Choice>)
    requires Explore(p, requests, cs, st).0.Unsolvable? && Tried(p, requests, cs, st, path)
    ensures !Interrupts(p, requests, cs, st, path)
    decreases |path|
  {
    hide CheckAll, RequestTrace, Explore, ExploreEach;
    UnsolvableEach(p, requests, cs, st);
    var t := RequestTrace(p, requests[0], st);
    if path == [] {
      EachUnsolvableMeansNoFailure(p, requests, cs, st, t.choices, t.end);
    } else {
      ExploreEachPasses(p, requests, cs, st, t.choices, t.end, path[0]);
      PassedIsQuiet(p, requests, cs, st, path);
    }
  }

  lemma UnsolvableEach(p: Planner, requests: seq<Request>, cs: seq<Constraint>, st: State)
    requires Explore(p, requests, cs, st).0.Unsolvable?
    ensures requests != []
    ensures var t := RequestTrace(p, requests[0], st);
            ExploreEach(p, requests, cs, st, t.choices, t.end).0.Unsolvable?
  {
  }

  /** Nothing interrupts on or below a choice that was passed over. */
  lemma {:induction false} PassedIsQuiet(
    p: Planner, requests: seq<Request>, cs: seq<Constraint>, st: State, path: seq<Choice>)
    requires requests != [] && path != [] && Tried(p, requests, cs, st, path)
    requires CheckAll(cs, After(st, path[0]).picks) != Broken
    requires CheckAll(cs, After(st, path[0]).picks) == Holds ==>
               Explore(p, requests[1..], cs, After(st, path[0])).0.Unsolvable?
    ensures !Interrupts(p, requests, cs, st, path)
    decreases |path|, 0
  {
    hide CheckAll, RequestTrace, Explore, After;
    var next, rest := After(st, path[0]), path[1..];
    assert Finish(st, path) == Finish(next, rest);
    if CheckAll(cs, next.picks) == Holds {
      NothingInterrupted(p, requests[1..], cs, next, rest);
    }
  }

  /** A plan is found only when nothing preferred to it could have interrupted the search. */
  lemma {:induction false} NothingBeforeInterrupted(
    p: Planner, requests: seq<Request>, cs: seq<Constraint>, st: State, path: seq<Choice>)
    requires Explore(p, requests, cs, st).0.Solved? && Tried(p, requests, cs, st, path)
    requires BranchesBefore(path, Explore(p, requests, cs, st).0.path)
    ensures !Interrupts(p, requests, cs, st, path)
    decreases |path|
  {
    hide CheckAll, RequestTrace, ExploreEach;
    var t, found := RequestTrace(p, requests[0], st), Explore(p, requests, cs, st).0.path;
    TakenIsFound(p, requests, cs, st, t.choices, t.end);
    TraceAscends(p, requests[0], st);
    hide Explore;
    if Before(path[0], found[0]) {
      ExploreEachPasses(p, requests, cs, st, t.choices, t.end, path[0]);
      PassedIsQuiet(p, requests, cs, st, path);
    } else {
      assert path[1..] != [];
      NothingBeforeInterrupted(p, requests[1..], cs, After(st, path[0]), path[1..]);
    }
  }

  // ---------- claims whose counts fit ----------

  /** The healthy managed devices. */
  function DevicesOf(slices: seq<Slice>): set<Key> {
    set i, j | 0 <= i < |slices| && Eligible(slices[i]) && 0 <= j < |slices[i].devices| ::
      Key(slices[i].driver, slices[i].pool, slices[i].devices[j].name)
  }

  /** The most devices that the alternative can take: the number it asks for, or else all there are. */
  function Most(p: Planner, a: Alternative): nat {
    if a.mode == All then |DevicesOf(p.slices)| else a.count
  }

  /** The most devices that one of the alternatives can take. */
  function Largest(p: Planner, alternatives: seq<Alternative>): (n: nat)
    ensures forall a | a in alternatives :: Most(p, a) <= n
  {
    if alternatives == [] then 0
    else
      var last, before := Most(p, alternatives[|alternatives| - 1]), Largest(p, alternatives[..|alternatives| - 1]);
      assert alternatives == alternatives[..|alternatives| - 1] + [alternatives[|alternatives| - 1]];
      if last > before then last else before
  }

  /** The most devices the claim can take; a request that is not supported takes none. */
  function Demand(p: Planner, requests: seq<Request>): nat
  {
    if requests == [] then 0
    else
      var all := SupportedAlternatives(requests[0]);
      (if all.Ok? then Largest(p, all.value) else 0) + Demand(p, requests[1..])
  }

  /** The only alternative of the request would need more results than remain. */
  ghost predicate Overflows(p: Planner, r: Request, st: State) {
    SupportedAlternatives(r).Ok? && |SupportedAlternatives(r).value| == 1
    && var m := AlternativeMoves(p, SupportedAlternatives(r).value[0], st, 0); m.overLimit && m.failure.None?
  }

  lemma {:induction false} ReachedStatesFit(p: Planner, requests: seq<Request>, st: State, path: seq<Choice>)
    requires Reaches(p, requests, st, path)
    ensures |path| <= |requests|
    ensures |Finish(st, path).picks| + Demand(p, requests[|path|..]) <= |st.picks| + Demand(p, requests)
    decreases |path|
  {
    hide Admissible, Largest;
    if path == [] {
      assert requests[0..] == requests;
    } else {
      AdmissibleCount(p, requests[0], st, path[0]);
      ReachedStatesFit(p, requests[1..], After(st, path[0]), path[1..]);
      assert requests[1..][|path| - 1..] == requests[|path|..];
    }
  }

  lemma {:induction false} DistinctKeys(picks: seq<Pick>, keys: set<Key>)
    requires DistinctDevices(picks) && forall x | x in picks :: x.grant.key in keys
    ensures |picks| <= |keys|
  {
    if picks != [] {
      var init, x := picks[..|picks| - 1], picks[|picks| - 1];
      assert picks == init + [x];
      DistinctKeys(init, keys - {x.grant.key});
    }
  }

  lemma AdmissibleCount(p: Planner, r: Request, st: State, c: Choice)
    requires Admissible(p, r, st, c)
    ensures SupportedAlternatives(r).Ok? && |c.picks| <= Largest(p, SupportedAlternatives(r).value)
  {
    hide Largest, TakesOffered, TakesEverything, Grants;
    var a := SupportedAlternatives(r).value[c.alternative];
    assert a in SupportedAlternatives(r).value;
    if a.mode == All {
      forall x | x in c.picks ensures x.grant.key in DevicesOf(p.slices) {
        var q, s := Plans.AdmissibleOrigin(p, r, st, c, x);
        SiteIsDevice(p, s);
        assert Grants(p, q, st.usage, s).value.grant.key == KeyOf(s);
      }
      DistinctKeys(c.picks, DevicesOf(p.slices));
    }
  }

  /** The site is one of a healthy managed device of the inventory. */
  ghost predicate IsSite(p: Planner, s: Site) {
    s.slice in p.slices && Eligible(s.slice) && s.device in s.slice.devices
  }

  lemma SiteIsDevice(p: Planner, s: Site)
    requires IsSite(p, s)
    ensures KeyOf(s) in DevicesOf(p.slices)
  {
    var i :| 0 <= i < |p.slices| && p.slices[i] == s.slice;
    var j :| 0 <= j < |s.slice.devices| && s.slice.devices[j] == s.device;
  }

  /** When the most that all requests together can take fits, no state that the search reaches overflows. */
  lemma FittingCountsNeverOverflow(p: Planner, requests: seq<Request>, st: State, path: seq<Choice>)
    requires Demand(p, requests) <= Remaining(st) && Reaches(p, requests, st, path) && |path| < |requests|
    ensures !Overflows(p, requests[|path|], Finish(st, path))
  {
    hide Largest, Reaches, AlternativeMoves, Finish;
    ReachedStatesFit(p, requests, st, path);
    var r, rest, here := requests[|path|], requests[|path|..], Finish(st, path);
    assert rest[0] == r;
    var all := SupportedAlternatives(r);
    if all.Ok? && |all.value| == 1 {
      assert all.value[0] in all.value;
      NoOverflow(p, all.value[0], here);
    }
  }

  lemma NoOverflow(p: Planner, a: Alternative, st: State)
    requires Most(p, a) <= Remaining(st)
    ensures !AlternativeMoves(p, a, st, 0).overLimit
  {
    if a.mode == All && a.className in p.classes {
      AllNeverOverflows(p, QueryFor(p, a), st, ManagedNodes(p.slices, st.node), 0);
    }
  }

  lemma {:induction false} AllNeverOverflows(p: Planner, q: Query, st: State, nodes: seq<string>, alternative: nat)
    requires |DevicesOf(p.slices)| <= Remaining(st)
    ensures !AllFrom(p, q, st, nodes, alternative).overLimit
  {
    hide AllOn;
    if nodes != [] {
      AllNeverOverflows(p, q, st, nodes[..|nodes| - 1], alternative);
      AllOnCount(p, q, st, nodes[|nodes| - 1]);
    }
  }

  lemma AllOnCount(p: Planner, q: Query, st: State, node: string)
    ensures AllOn(p, q, st, node).Ok? ==> |AllOn(p, q, st, node).value| <= |DevicesOf(p.slices)|
  {
    hide Grants;
    if AllOn(p, q, st, node).Ok? {
      var picks, sites := AllOn(p, q, st, node).value, AllSites(p.slices, st.node, node).value;
      AllOnExact(p, q, st, node);
      forall x | x in picks ensures x.grant.key in DevicesOf(p.slices) {
        var s := Plans.OfferedHasSite(p, q, st.usage, sites, Candidate(node, x));
        CurrentSiteIsSite(p, st.node, node, s);
        SiteIsDevice(p, s);
        assert Grants(p, q, st.usage, s).value.grant.key == KeyOf(s);
      }
      DistinctKeys(picks, DevicesOf(p.slices));
    }
  }

  lemma CurrentSiteIsSite(p: Planner, pinned: string, node: string, s: Site)
    requires AllSites(p.slices, pinned, node).Some? && s in AllSites(p.slices, pinned, node).value
    ensures IsSite(p, s)
  {
    var here := ManagedOn(p.slices, pinned, node);
    var current := Pools.CurrentSlices(here).value;
    Plans.HealthySiteOrigin(node, current, s);
    Pools.CurrentSlicesExact(here, s.slice);
    Plans.ManagedOrigin(p.slices, pinned, node, s.slice);
  }

  // ---------- inventories that the search can always assess ----------

  /** Every healthy managed device can be assessed, whatever the request, and has one record. */
  ghost predicate Plain(p: Planner) {
    && (forall s, d | s in p.slices && Eligible(s) && d in s.devices :: Assessable(p, s, d))
    && (forall s, t, d, e |
          s in p.slices && Eligible(s) && d in s.devices && t in p.slices && Eligible(t) && e in t.devices
          && Key(s.driver, s.pool, d.name) == Key(t.driver, t.pool, e.name) :: d == e)
  }

  /**
   * The device is supported, readable and always selected or not; a device to be shared has valid
   * capacities and is held by matching shares at most, any other is held by none.
   */
  ghost predicate Assessable(p: Planner, s: Slice, d: Device) {
    var held := Ledger.UseOf(p.committed, Key(s.driver, s.pool, d.name));
    && s.nodeName.Some? && !s.multiNode && !d.partitioned && Readable(d)
    && (forall shared, own :: p.selects(s.driver, d, shared, own) != SelectorFailed)
    && if d.shareable then
         && d.capacity != map[] && !held.exclusive
         && (forall n | n in d.capacity :: CapacityPolicy.ValidCapacity(d.capacity[n]))
         && (forall n | n in held.consumed :: n in d.capacity && 0 <= held.consumed[n] <= d.capacity[n].total)
         && (held.shared ==> forall i | 0 <= i < |held.shares| :: held.shares[i].Keys == d.capacity.Keys)
       else
         !held.shared && forall n | n in d.capacity :: d.capacity[n].policy.None? && d.capacity[n].total >= 0
  }

  /** What an attempt holds of the devices to be shared are shares of their capacities. */
  ghost predicate Orderly(p: Planner, u: Attempt) {
    forall s, d | s in p.slices && Eligible(s) && d in s.devices && d.shareable ::
      SharesOnly(u, Key(s.driver, s.pool, d.name), d)
  }

  ghost predicate SharesOnly(u: Attempt, k: Key, d: Device) {
    k !in u.exclusive && forall n | n in PendingOn(u, k) :: PendingOn(u, k)[n] >= 0 && n in d.capacity
  }

  /** No attribute is a list or has two values. */
  ghost predicate Readable(d: Device) {
    forall n | n in d.attributes :: !ScalarOf(d.attributes[n]).Unusable?
  }

  /** The pools of every node are complete, whether or not the claim is bound to a node already. */
  ghost predicate PoolsComplete(p: Planner) {
    forall pinned, node :: AllSites(p.slices, pinned, node).Some?
  }

  /** The request is supported, names some known class, and asks for all devices only where pools are complete. */
  ghost predicate Answerable(p: Planner, r: Request) {
    && SupportedAlternatives(r).Ok?
    && (exists a | a in SupportedAlternatives(r).value :: a.className in p.classes)
    && forall a | a in SupportedAlternatives(r).value && a.mode == All :: PoolsComplete(p)
  }

  lemma PlainSiteAssessed(p: Planner, q: Query, u: Attempt, s: Site, seen: set<Key>)
    requires Plain(p) && Orderly(p, u) && WellFormed(q.alternative) && IsSite(p, s)
    ensures !Evaluate(p, q, u, s, seen).Fail?
  {
    hide Evaluate, Readable, CapacityPolicy.ValidCapacity, CapacityPolicy.SomeTight;
    FailsExactly(p, q, u, s, seen);
    assert Assessable(p, s.slice, s.device);
    assert s.device.shareable ==> SharesOnly(u, Key(s.slice.driver, s.slice.pool, s.device.name), s.device);
  }

  lemma {:induction false} PlainScanSucceeds(p: Planner, q: Query, u: Attempt, sites: seq<Site>)
    requires Plain(p) && Orderly(p, u) && WellFormed(q.alternative) && forall s | s in sites :: IsSite(p, s)
    ensures Scan(p, q, u, sites).Ok?
  {
    hide Evaluate, IsSite, Plain, Orderly;
    if sites != [] {
      var init, s := sites[..|sites| - 1], sites[|sites| - 1];
      PlainScanSucceeds(p, q, u, init);
      PlainSiteAssessed(p, q, u, s, KeysOf(Scan(p, q, u, init).value));
    }
  }

  lemma ExactSitesAreSites(p: Planner, pinned: string)
    ensures forall s | s in ExactSites(p.slices, pinned) :: IsSite(p, s)
  {
    forall s | s in ExactSites(p.slices, pinned) ensures IsSite(p, s) {
      Plans.ExactSiteOrigin(p.slices, pinned, s);
    }
  }

  lemma {:induction false} PlainAllSucceeds(p: Planner, q: Query, st: State, nodes: seq<string>, alternative: nat)
    requires Plain(p) && PoolsComplete(p) && Orderly(p, st.usage) && WellFormed(q.alternative)
    ensures AllFrom(p, q, st, nodes, alternative).failure.None?
  {
    hide Plain, Orderly, AllSites, Scan, IsSite;
    if nodes != [] {
      var node := nodes[|nodes| - 1];
      PlainAllSucceeds(p, q, st, nodes[..|nodes| - 1], alternative);
      forall s | s in AllSites(p.slices, st.node, node).value ensures IsSite(p, s) {
        CurrentSiteIsSite(p, st.node, node, s);
      }
      PlainScanSucceeds(p, q, st.usage, AllSites(p.slices, st.node, node).value);
    }
  }

  lemma PlainAlternativeSucceeds(p: Planner, a: Alternative, st: State, alternative: nat)
    requires Plain(p) && Orderly(p, st.usage) && WellFormed(a) && (a.mode == All ==> PoolsComplete(p))
    ensures var m := AlternativeMoves(p, a, st, alternative);
            m.failure.None? && m.missing == if a.className in p.classes then 0 else 1
  {
    hide Plain, Orderly, ExactSites, Scan, PoolsComplete;
    if a.className in p.classes {
      if a.mode == All {
        var nodes := ManagedNodes(p.slices, st.node);
        PlainAllSucceeds(p, QueryFor(p, a), st, nodes, alternative);
        AllCountsNoMissing(p, QueryFor(p, a), st, nodes, alternative);
      } else {
        ExactSitesAreSites(p, st.node);
        PlainScanSucceeds(p, QueryFor(p, a), st.usage, ExactSites(p.slices, st.node));
      }
    }
  }

  lemma {:induction false} AllCountsNoMissing(p: Planner, q: Query, st: State, nodes: seq<string>, alternative: nat)
    ensures AllFrom(p, q, st, nodes, alternative).missing == 0
  {
    hide AllOn;
    if nodes != [] { AllCountsNoMissing(p, q, st, nodes[..|nodes| - 1], alternative); }
  }

  /** Reserving another device, or a share of this one, leaves it with shares only. */
  lemma ReserveKeepsShares(u: Attempt, g: Grant, k: Key, d: Device)
    requires SharesOnly(u, k, d)
    requires g.key == k ==>
               g.consumed.Some? && Ledger.NonNegative(g.consumed.value) && g.consumed.value.Keys <= d.capacity.Keys
    ensures SharesOnly(Reserve(u, g), k, d)
  {
  }

  lemma OneRecord(p: Planner, s: Slice, d: Device, t: Slice, e: Device)
    requires Plain(p) && s in p.slices && Eligible(s) && d in s.devices
    requires t in p.slices && Eligible(t) && e in t.devices
    requires Key(s.driver, s.pool, d.name) == Key(t.driver, t.pool, e.name)
    ensures d == e
  {
  }

  /** A grant of a plain device keeps the attempt orderly. */
  lemma GrantKeepsOrder(p: Planner, q: Query, granted: Attempt, u: Attempt, pinned: string, s: Site)
    requires Plain(p) && Orderly(p, u) && Plans.Usable(p, pinned, s) && Grants(p, q, granted, s).Some?
    ensures Orderly(p, Reserve(u, Grants(p, q, granted, s).value.grant))
  {
    hide Grants, Plain, Reserve, SharesOnly, ShareAvailable, WholeAvailable, SharesValid;
    GrantsExactly(p, q, granted, s);
    Plans.GrantsAreSafe(p, q, granted, s);
    var x := Grants(p, q, granted, s).value;
    forall t, d | t in p.slices && Eligible(t) && d in t.devices && d.shareable
      ensures SharesOnly(Reserve(u, x.grant), Key(t.driver, t.pool, d.name), d)
    {
      if x.grant.key == Key(t.driver, t.pool, d.name) {
        OneRecord(p, t, d, s.slice, s.device);
      }
      ReserveKeepsShares(u, x.grant, Key(t.driver, t.pool, d.name), d);
    }
  }

  lemma {:induction false} ChoiceKeepsOrder(p: Planner, r: Request, st: State, c: Choice, n: nat)
    requires Plain(p) && Orderly(p, st.usage) && Admissible(p, r, st, c) && n <= |c.picks|
    ensures Orderly(p, ReserveAll(st.usage, c.picks[..n]))
  {
    hide Plain, Orderly, Admissible, Grants, Reserve, Plans.Usable;
    if n > 0 {
      ChoiceKeepsOrder(p, r, st, c, n - 1);
      assert c.picks[..n][..n - 1] == c.picks[..n - 1];
      var q, s := Plans.AdmissibleOrigin(p, r, st, c, c.picks[n - 1]);
      GrantKeepsOrder(p, q, st.usage, ReserveAll(st.usage, c.picks[..n - 1]), st.node, s);
    }
  }

  /** Every state that a search reaches is orderly. */
  lemma {:induction false} ReachedAreOrderly(p: Planner, requests: seq<Request>, st: State, path: seq<Choice>)
    requires Plain(p) && Reaches(p, requests, st, path) && Orderly(p, st.usage)
    ensures Orderly(p, Finish(st, path).usage)
    decreases |path|
  {
    hide Plain, Orderly, Admissible;
    if path != [] {
      ChoiceKeepsOrder(p, requests[0], st, path[0], |path[0].picks|);
      assert path[0].picks[..|path[0].picks|] == path[0].picks;
      ReachedAreOrderly(p, requests[1..], After(st, path[0]), path[1..]);
    }
  }

  /** An answerable request fails in no orderly state but one that overflows. */
  lemma PlainTraceEnds(p: Planner, r: Request, st: State)
    requires Plain(p) && Orderly(p, st.usage) && Answerable(p, r) && !Overflows(p, r, st)
    ensures RequestTrace(p, r, st).end.None?
  {
    hide Plain, Orderly, AlternativeMoves, PoolsComplete;
    var all := SupportedAlternatives(r).value;
    var per := PerAlternative(p, all, st);
    forall j: nat | j < |all|
      ensures per[j].failure.None? && per[j].missing == if all[j].className in p.classes then 0 else 1
    {
      assert all[j] in all;
      PlainAlternativeSucceeds(p, all[j], st, j);
    }
    var a :| a in all && a.className in p.classes;
    var i :| 0 <= i < |all| && all[i] == a;
    ChainCounts(per, i);
  }

  /** Unless an alternative fails, not every class is missing when some alternative finds its own. */
  lemma {:induction false} ChainCounts(per: seq<Moves>, i: int)
    requires forall j: nat | j < |per| :: per[j].failure.None? && per[j].missing <= 1
    requires 0 <= i < |per| ==> per[i].missing == 0
    ensures Chain(per).failure.None? && Chain(per).missing <= |per|
    ensures 0 <= i < |per| ==> Chain(per).missing < |per|
    ensures |per| == 1 ==> Chain(per).overLimit == per[0].overLimit
  {
    if per != [] {
      var before := per[..|per| - 1];
      ChainCounts(before, i);
      assert |per| == 1 ==> before == [];
    }
  }

  /** Everything that a search has chosen on the way can be read. */
  lemma {:induction false} ReachedAreReadable(p: Planner, requests: seq<Request>, st: State, path: seq<Choice>)
    requires Plain(p) && Reaches(p, requests, st, path) && forall x | x in st.picks :: Readable(x.device)
    ensures forall x | x in Finish(st, path).picks :: Readable(x.device)
    decreases |path|
  {
    hide Readable, Admissible, Grants;
    if path != [] {
      forall x | x in path[0].picks ensures Readable(x.device) {
        var q, s := Plans.AdmissibleOrigin(p, requests[0], st, path[0], x);
        assert Grants(p, q, st.usage, s).value.device == s.device && Assessable(p, s.slice, s.device);
      }
      ReachedAreReadable(p, requests[1..], After(st, path[0]), path[1..]);
    }
  }

  lemma {:induction false} ReadableIsChecked(cs: seq<Constraint>, picks: seq<Pick>)
    requires forall x | x in picks :: Readable(x.device)
    ensures CheckAll(cs, picks) != Broken
  {
    if cs != [] {
      OneIsChecked(cs[0], picks, None);
      ReadableIsChecked(cs[1..], picks);
    }
  }

  lemma {:induction false} OneIsChecked(c: Constraint, picks: seq<Pick>, expected: Option<Scalar>)
    requires forall x | x in picks :: Readable(x.device)
    ensures CheckFrom(c, picks, expected) != Broken
  {
    hide ScalarOf;
    if picks != [] {
      assert picks[0] in picks;
      OneIsChecked(c, picks[1..], expected);
      if Read(c, picks[0]).Value? {
        OneIsChecked(c, picks[1..], Some(Read(c, picks[0]).scalar));
      }
    }
  }

  lemma NothingIsOrderly(p: Planner)
    ensures Orderly(p, NOTHING)
  {
  }

  // ---------- what these conditions are for ----------

  /** Over a plain inventory, the search for answerable requests that fit together never aborts. */
  lemma FittingSearchNeverAborts(p: Planner, requests: seq<Request>, cs: seq<Constraint>)
    requires Plain(p) && forall r | r in requests :: Answerable(p, r)
    requires Demand(p, requests) <= MAX_RESULTS
    ensures !Explore(p, requests, cs, START).0.Aborted?
  {
    hide Plain, Orderly, Answerable, Readable, Overflows, Demand, Explore, RequestTrace, CheckAll;
    if Explore(p, requests, cs, START).0.Aborted? {
      var path := AbortHasCause(p, requests, cs, START);
      var here := Finish(START, path);
      NothingIsOrderly(p);
      ReachedAreOrderly(p, requests, START, path);
      ReachedAreReadable(p, requests, START, path);
      ReadableIsChecked(cs, here.picks);
      assert requests[|path|] in requests;
      FittingCountsNeverOverflow(p, requests, START, path);
      PlainTraceEnds(p, requests[|path|], here);
      assert false;
    }
  }

  /** There the search finds a plan exactly when the requests have a solution. */
  lemma FittingSearchDecides(p: Planner, requests: seq<Request>, cs: seq<Constraint>)
    requires Plain(p) && forall r | r in requests :: Answerable(p, r)
    requires Demand(p, requests) <= MAX_RESULTS
    ensures Explore(p, requests, cs, START).0.Solved? <==> Completable(p, requests, cs, START)
  {
    hide Plain, Answerable, Demand;
    FittingSearchNeverAborts(p, requests, cs);
    if requests != [] {
      var t := RequestTrace(p, requests[0], START);
      NeverOutOfBudget(p, requests, cs, START, t.choices, t.end);
    }
    if Explore(p, requests, cs, START).0.Solved? {
      ExploreSound(p, requests, cs, START);
    } else if path :| Solution(p, requests, cs, START, path) {
      ExploreComplete(p, requests, cs, START, path);
    }
  }
}
