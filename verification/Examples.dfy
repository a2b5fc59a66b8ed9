/**
 * Claims that could be allocated and are not: the search gives up on one, and the greedy planner misses another.
 * Both planners prefer to take all of a node's devices for the first request.
 */
module Examples {
  import opened Types
  import opened Candidates
  import opened Choices
  import opened Constraints
  import opened Backtracking
  import opened Greedy
  import Aborts
  import Plans

  const TYPE: map<string, Attribute> := map["example.com/type" := Attribute(Some("gpu"), None, None, None, false)]

  /** All devices must be of one type. */
  const SAME_TYPE: Constraint := Constraint("example.com/type", {})

  function PartAt(i: nat): Device
    requires i < MAX_RESULTS
  {
    Device(['A' + i as char], TYPE, map[], false, false)
  }

  /** One node with n devices of one type. */
  function OneNode(n: nat): Slice
    requires n <= MAX_RESULTS
  {
    Slice(true, false, "driver", "pool", 1, 1, Some("node"), false, seq(n, i requires 0 <= i < n => PartAt(i)))
  }

  /** Nothing is allocated yet, and every device is selected. */
  function Free(n: nat): (p: Planner)
    requires n <= MAX_RESULTS
    ensures OnlyExclusive(p.committed)
  {
    Planner([OneNode(n)], map["class" := []], map[], (_, _, _, _) => Selected, (_, _, _) => false)
  }

  function Count(n: nat): DeviceSpec {
    DeviceSpec("", "class", [], "ExactCount", n, false, false, map[])
  }

  /** All n devices, or else one; and then one more. */
  function AllThenOne(n: nat): seq<Request> {
    [Request("all", None, [Count(n), Count(1)]), Request("one", Some(Count(1)), [])]
  }

  function KeyAt(i: nat): Key
    requires i < MAX_RESULTS
  {
    Key("driver", "pool", PartAt(i).name)
  }

  function PickAt(request: string, i: nat): Pick
    requires i < MAX_RESULTS
  {
    Pick(Grant(request, KeyAt(i), None), PartAt(i))
  }

  /** The first n devices. */
  function Picks(request: string, n: nat): (r: seq<Pick>)
    requires n <= MAX_RESULTS
    ensures |r| == n && DistinctDevices(r)
  {
    seq(n, i requires 0 <= i < n => PickAt(request, i))
  }

  function AlternativeFor(request: string, n: nat): Alternative {
    Alternative(request, "class", [], ExactCount, n, map[])
  }

  lemma RequestsAreSupported(n: nat)
    requires 1 <= n <= MAX_RESULTS
    ensures SupportedAlternatives(AllThenOne(n)[0]) ==
            Ok([AlternativeFor("all/", n), AlternativeFor("all/", 1)])
    ensures SupportedAlternatives(AllThenOne(n)[1]) == Ok([AlternativeFor("one", 1)])
  {
    var r := AllThenOne(n)[0];
    RequestIffSupportable(r);
    assert r.name + "/" + "" == "all/";
    assert Supportable(r.firstAvailable[0].(adminAccess := false));
    assert Supportable(r.firstAvailable[1].(adminAccess := false));
    var all := SupportedAlternatives(r).value;
    assert all == [AlternativeFor("all/", n), AlternativeFor("all/", 1)];
  }

  lemma SitesOfNode(n: nat, pinned: string)
    requires n <= MAX_RESULTS && pinned in ["", "node"]
    ensures ExactSites(Free(n).slices, pinned) == DevicesAt("node", OneNode(n))
  {
    assert Free(n).slices[..0] == [];
  }

  /** A device that the attempt does not hold is on offer. */
  lemma FreeIsOffered(n: nat, request: string, count: nat, st: State, i: nat)
    requires i < n <= MAX_RESULTS && st.node in ["", "node"] && KeyAt(i) !in st.usage.exclusive + st.usage.shared
    ensures var p, a := Free(n), AlternativeFor(request, count);
            Offered(Answers(p, QueryFor(p, a), st.usage, ExactSites(p.slices, st.node)),
                    Candidate("node", PickAt(request, i)))
  {
    var p, a := Free(n), AlternativeFor(request, count);
    SitesOfNode(n, st.node);
    var answers := Answers(p, QueryFor(p, a), st.usage, ExactSites(p.slices, st.node));
    assert answers[i] == Answer("node", Some(PickAt(request, i)));
    forall j | 0 <= j < i ensures !SameDevice(answers[j], answers[i]) {
      assert answers[j].grant.Some? ==> answers[j].grant.value.grant.key == KeyAt(j);
    }
  }

  lemma {:induction false} PartsAgree(cs: seq<Constraint>, picks: seq<Pick>)
    requires (forall c | c in cs :: c == SAME_TYPE) && forall x | x in picks :: x.device.attributes == TYPE
    ensures CheckAll(cs, picks) == Holds && AllAgree(cs, picks)
  {
    assert forall c, x | c in cs && x in picks :: Read(c, x) == Value(Text("gpu"));
    CheckMeansAgreement(cs, picks);
  }

  /** Taking one device for each request serves both. */
  lemma OneEachIsSolution(n: nat, cs: seq<Constraint>)
    requires 2 <= n <= MAX_RESULTS && forall c | c in cs :: c == SAME_TYPE
    ensures Completable(Free(n), AllThenOne(n), cs, START)
  {
    hide Answers, ExactSites, SupportedAlternatives;
    var p, requests := Free(n), AllThenOne(n);
    RequestsAreSupported(n);
    var c, d := Choice(1, 0, [], "node", [PickAt("all/", 0)]), Choice(0, 0, [], "node", [PickAt("one", 1)]);
    var next := After(START, c);
    FreeIsOffered(n, "all/", 1, START, 0);
    assert Admissible(p, requests[0], START, c);
    assert c.picks[..0] == [];
    FreeIsOffered(n, "one", 1, next, 1);
    assert Admissible(p, requests[1], next, d);
    PartsAgree(cs, After(next, d).picks);
    hide Admissible, After, AllAgree;
    assert requests[1..] == [requests[1]] && requests[1..][1..] == [] && [c, d][1..] == [d] && [d][1..] == [];
    assert Solution(p, [requests[1]], cs, next, [d]);
    assert Solution(p, requests, cs, START, [c, d]);
  }

  // ---------- the search ----------

  lemma PlainInventory(n: nat)
    requires n <= MAX_RESULTS
    ensures Aborts.Plain(Free(n))
  {
    hide Aborts.Assessable;
    var p, here := Free(n), OneNode(n);
    forall d | d in here.devices
      ensures Aborts.Assessable(p, here, d) && exists i: nat :: i < n && d == PartAt(i)
    {
      var i :| 0 <= i < n && here.devices[i] == d;
      PartIsAssessable(n, i);
    }
  }

  lemma PartIsAssessable(n: nat, i: nat)
    requires i < n <= MAX_RESULTS
    ensures Aborts.Assessable(Free(n), OneNode(n), PartAt(i))
  {
  }

  /**
   * The first choice takes all devices. When that uses up the results an allocation may have, the next
   * request overflows, and the search aborts on its first choice instead of going back.
   */
  lemma SearchGivesUp()
    ensures Explore(Free(MAX_RESULTS), AllThenOne(MAX_RESULTS), [SAME_TYPE], START) == (Aborted(Unsupported), 1)
    ensures Completable(Free(MAX_RESULTS), AllThenOne(MAX_RESULTS), [SAME_TYPE], START)
  {
    hide Answers, ExactSites, AlternativeMoves, Admissible, Aborts.Plain, CheckAll, AllAgree;
    var n := MAX_RESULTS;
    var p, requests := Free(n), AllThenOne(n);
    OneEachIsSolution(n, [SAME_TYPE]);
    var first := FirstTakesAll(n);
    var next := After(START, first);
    PartsAgree([SAME_TYPE], next.picks);
    Overflow(n, next);
    assert requests[1..] == [requests[1]];
  }

  /** The first choice of the search takes all n devices. */
  lemma FirstTakesAll(n: nat) returns (first: Choice)
    requires 1 <= n <= MAX_RESULTS
    ensures RequestTrace(Free(n), AllThenOne(n)[0], START).choices != []
    ensures first == RequestTrace(Free(n), AllThenOne(n)[0], START).choices[0] && |first.picks| == n
    ensures forall x | x in first.picks :: x.device.attributes == TYPE
  {
    hide Answers, ExactSites, RequestTrace, Aborts.Plain, Ascending, Grants;
    var p, r := Free(n), AllThenOne(n)[0];
    RequestsAreSupported(n);
    var c := Choice(0, 0, [], "node", Picks("all/", n));
    forall x | x in c.picks
      ensures Offered(Answers(p, QueryFor(p, AlternativeFor("all/", n)), START.usage, ExactSites(p.slices, "")),
                      Candidate("node", x))
    {
      var i :| 0 <= i < n && c.picks[i] == x;
      FreeIsOffered(n, "all/", n, START, i);
    }
    assert Admissible(p, r, START, c);
    PlainInventory(n);
    Aborts.NothingIsOrderly(p);
    Aborts.ExactSitesAreSites(p, "");
    Aborts.PlainScanSucceeds(p, QueryFor(p, AlternativeFor("all/", n)), START.usage, ExactSites(p.slices, ""));
    var d := TraceComplete(p, r, START, c);
    TraceAscends(p, r, START);
    FirstIsBeforeRest(RequestTrace(p, r, START).choices, d);
    first := RequestTrace(p, r, START).choices[0];
    TraceSound(p, r, START, first);
    forall x | x in first.picks ensures x.device.attributes == TYPE {
      var q, s := Plans.AdmissibleOrigin(p, r, START, first, x);
    }
  }

  lemma Overflow(n: nat, st: State)
    requires 1 <= n <= MAX_RESULTS && |st.picks| == MAX_RESULTS
    ensures RequestTrace(Free(n), AllThenOne(n)[1], st) == Trace([], Some(Unsupported))
  {
    RequestsAreSupported(n);
    var per := PerAlternative(Free(n), [AlternativeFor("one", 1)], st);
    assert per[..|per| - 1] == [] && per[0] == Moves([], 0, true, None);
    assert Chain(per) == per[0];
  }

  /** With room for one more result, the search goes back and finds a plan. */
  lemma SearchGoesBack(n: nat)
    requires 2 <= n < MAX_RESULTS
    ensures Explore(Free(n), AllThenOne(n), [SAME_TYPE], START).0.Solved?
  {
    hide Completable, Explore, Aborts.Plain, SupportedAlternatives;
    var p, requests := Free(n), AllThenOne(n);
    RequestsAreSupported(n);
    OneEachIsSolution(n, [SAME_TYPE]);
    PlainInventory(n);
    var all, one := SupportedAlternatives(requests[0]).value, SupportedAlternatives(requests[1]).value;
    assert all[0] in all && one[0] in one;
    assert Aborts.Largest(p, all) <= n && Aborts.Largest(p, one) <= 1 by {
      assert all[..1] == [all[0]] && all[..1][..0] == [] && one[..0] == [];
    }
    DemandOfTwo(p, requests[0], requests[1]);
    Aborts.FittingSearchDecides(p, requests, [SAME_TYPE]);
  }

  lemma DemandOfTwo(p: Planner, one: Request, other: Request)
    requires SupportedAlternatives(one).Ok? && SupportedAlternatives(other).Ok?
    ensures Aborts.Demand(p, [one, other]) ==
            Aborts.Largest(p, SupportedAlternatives(one).value) + Aborts.Largest(p, SupportedAlternatives(other).value)
  {
    assert [one, other][1..] == [other] && [other][1..] == [];
    assert Aborts.Demand(p, [other]) == Aborts.Largest(p, SupportedAlternatives(other).value) + Aborts.Demand(p, []);
  }

  // ---------- the greedy planner ----------

  /** The greedy scan finds the devices in order as long as none of them has been chosen. */
  lemma {:induction false} GreedyFindsFree(n: nat, k: nat)
    requires k <= n <= MAX_RESULTS
    ensures var p := Free(n);
            var scan := ScanBy(GreedyEvaluating(p, QueryFor(p, AlternativeFor("all/", n)), {}),
                               DevicesAt("node", OneNode(n))[..k]);
            scan.Ok? && |scan.value| == k
            && forall i | 0 <= i < k :: scan.value[i] == Candidate("node", PickAt("all/", i))
  {
    if k > 0 {
      var sites := DevicesAt("node", OneNode(n));
      GreedyFindsFree(n, k - 1);
      assert sites[..k][..k - 1] == sites[..k - 1];
    }
  }

  /** It finds nothing when all of them have been. */
  lemma {:induction false} GreedyFindsNothing(n: nat, chosen: set<Key>, k: nat)
    requires k <= n <= MAX_RESULTS && forall i: nat | i < n :: KeyAt(i) in chosen
    ensures var p := Free(n);
            ScanBy(GreedyEvaluating(p, QueryFor(p, AlternativeFor("one", 1)), chosen),
                   DevicesAt("node", OneNode(n))[..k]) == Ok([])
  {
    if k > 0 {
      var sites := DevicesAt("node", OneNode(n));
      GreedyFindsNothing(n, chosen, k - 1);
      assert KeyOf(sites[k - 1]) == KeyAt(k - 1);
      assert sites[..k][..k - 1] == sites[..k - 1];
    }
  }

  lemma {:induction false} AllOnNode(cs: seq<Candidate>, picks: seq<Pick>)
    requires |cs| == |picks| && forall i | 0 <= i < |cs| :: cs[i] == Candidate("node", picks[i])
    ensures PicksOn(cs, "node") == picks
    ensures forall other | other != "node" :: PicksOn(cs, other) == []
  {
    if cs != [] {
      AllOnNode(cs[..|cs| - 1], picks[..|picks| - 1]);
    }
  }

  lemma GreedyTakesAll(n: nat) returns (c: Choice)
    requires 1 <= n <= MAX_RESULTS
    ensures c == Choice(0, 0, [], "node", Picks("all/", n))
    ensures RequestComes(Free(n), AllThenOne(n)[0], START, Ok(c))
  {
    hide GreedyEvaluate, PicksOn, ScanBy;
    var p, a, sites := Free(n), AlternativeFor("all/", n), DevicesAt("node", OneNode(n));
    var eval := GreedyEvaluating(p, QueryFor(p, a), {});
    c := Choice(0, 0, [], "node", Picks("all/", n));
    RequestsAreSupported(n);
    SitesOfNode(n, "");
    GreedyFindsFree(n, n);
    AllOnNode(ScanBy(eval, sites[..n]).value, c.picks);
    GreedyFindsFree(n, n - 1);
    AllOnNode(ScanBy(eval, sites[..n - 1]).value, c.picks[..n - 1]);
    assert FillsFirst(eval, sites, n, n, "node", c.picks);
    assert Comes(p, a, START, 0, Selects(c));
    var all := SupportedAlternatives(AllThenOne(n)[0]).value;
    assert DecidedBy(p, all, START, 0, Ok(c));
  }

  /** The greedy planner does not go back on what it has taken for an earlier request. */
  lemma GreedyMisses(n: nat)
    requires 2 <= n < MAX_RESULTS
    ensures GreedyPlans(Free(n), AllThenOne(n), Err(NoMatch))
    ensures Completable(Free(n), AllThenOne(n), [], START)
  {
    hide RequestComes, GreedyEvaluate, Completable;
    var p, requests := Free(n), AllThenOne(n);
    OneEachIsSolution(n, []);
    var c := GreedyTakesAll(n);
    assert [c][..0] == [] && Finish(START, [c]) == After(START, c);
    GreedyFindsNoMore(n, After(START, c));
    assert Follows(p, requests, [c]);
    assert FailsAfter(p, requests, [c], NoMatch);
  }

  lemma GreedyFindsNoMore(n: nat, st: State)
    requires 2 <= n < MAX_RESULTS && st == After(START, Choice(0, 0, [], "node", Picks("all/", n)))
    ensures RequestComes(Free(n), AllThenOne(n)[1], st, Err(NoMatch))
  {
    hide GreedyEvaluate, ScanBy, SupportedAlternatives, EndsAll;
    var p, a, sites := Free(n), AlternativeFor("one", 1), DevicesAt("node", OneNode(n));
    var picks := Picks("all/", n);
    RequestsAreSupported(n);
    SitesOfNode(n, "node");
    ReserveExclusive(NOTHING, picks);
    forall i: nat | i < n ensures KeyAt(i) in st.usage.exclusive {
      assert picks[i] in picks && picks[i].grant.key == KeyAt(i);
    }
    GreedyFindsNothing(n, st.usage.exclusive, n);
    assert sites[..n] == sites;
    assert Comes(p, a, st, 0, Skipped(false));
    ComesOnce(p, a, st, 0, false);
  }
}
