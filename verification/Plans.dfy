/** What every solution guarantees, whichever planner found it. */
module Plans {
  import opened Types
  import opened Candidates
  import opened Choices
  import opened Constraints
  import opened Backtracking
  import CapacityPolicy
  import Ledger
  import Pools

  // ---------- where a device comes from ----------

  lemma {:induction false} ExactSiteOrigin(slices: seq<Slice>, pinned: string, s: Site)
    requires s in ExactSites(slices, pinned)
    ensures s.slice in slices && s.device in s.slice.devices && Eligible(s.slice)
    ensures CompatibleNode(s.slice, pinned) == Some(s.node)
  {
    var last := |slices| - 1;
    if s in ExactSites(slices[..last], pinned) {
      ExactSiteOrigin(slices[..last], pinned, s);
      assert forall x | x in slices[..last] :: x in slices;
    }
  }

  lemma {:induction false} HealthySiteOrigin(node: string, slices: seq<Slice>, s: Site)
    requires s in HealthySites(node, slices)
    ensures s.slice in slices && s.device in s.slice.devices && !s.slice.unhealthy && s.node == node
  {
    var last := |slices| - 1;
    if s in HealthySites(node, slices[..last]) {
      HealthySiteOrigin(node, slices[..last], s);
      assert forall x | x in slices[..last] :: x in slices;
    }
  }

  lemma {:induction false} ManagedOrigin(slices: seq<Slice>, pinned: string, node: string, s: Slice)
    requires s in ManagedOn(slices, pinned, node)
    ensures s in slices && s.managed && CompatibleNode(s, pinned) == Some(node)
  {
    var last := |slices| - 1;
    if s in ManagedOn(slices[..last], pinned, node) {
      ManagedOrigin(slices[..last], pinned, node, s);
      assert forall x | x in slices[..last] :: x in slices;
    }
  }

  /** The site is a healthy, managed device of the inventory, compatible with node `pinned`. */
  ghost predicate Usable(p: Planner, pinned: string, s: Site) {
    && s.slice in p.slices && s.device in s.slice.devices && Eligible(s.slice)
    && CompatibleNode(s.slice, pinned) == Some(s.node)
  }

  lemma OfferedHasSite(p: Planner, q: Query, u: Attempt, sites: seq<Site>, c: Candidate) returns (s: Site)
    requires Offered(Answers(p, q, u, sites), c)
    ensures s in sites && s.node == c.node && Grants(p, q, u, s) == Some(c.pick)
  {
    hide Grants;
    var answers := Answers(p, q, u, sites);
    var i :| 0 <= i < |answers| && answers[i] == Answer(c.node, Some(c.pick))
          && forall j | 0 <= j < i :: !SameDevice(answers[j], answers[i]);
    s := sites[i];
  }

  /** Every device of an admissible choice is granted by a usable site on the choice's node. */
  lemma AdmissibleOrigin(p: Planner, r: Request, st: State, c: Choice, x: Pick) returns (q: Query, s: Site)
    requires Admissible(p, r, st, c) && x in c.picks
    ensures SupportedAlternatives(r).value[c.alternative].className in p.classes
    ensures Usable(p, st.node, s) && s.node == c.node
    ensures Grants(p, q, st.usage, s) == Some(x)
    ensures q == QueryFor(p, SupportedAlternatives(r).value[c.alternative])
  {
    hide Grants, Scan;
    var a := SupportedAlternatives(r).value[c.alternative];
    q := QueryFor(p, a);
    if a.mode == ExactCount {
      s := OfferedHasSite(p, q, st.usage, ExactSites(p.slices, st.node), Candidate(c.node, x));
      ExactSiteOrigin(p.slices, st.node, s);
    } else {
      var here := ManagedOn(p.slices, st.node, c.node);
      var current := Pools.CurrentSlices(here).value;
      s := OfferedHasSite(p, q, st.usage, HealthySites(c.node, current), Candidate(c.node, x));
      HealthySiteOrigin(c.node, current, s);
      Pools.CurrentSlicesExact(here, s.slice);
      ManagedOrigin(p.slices, st.node, c.node, s.slice);
    }
  }

  // ---------- one node ----------

  /** The device lies on a slice of node `node`, or on one whose node name is empty. */
  ghost predicate OnNode(p: Planner, x: Pick, node: string) {
    exists s | s in p.slices ::
      && s.managed && !s.unhealthy && x.device in s.devices
      && x.grant.key == Key(s.driver, s.pool, x.device.name)
      && s.nodeName.Some? && (s.nodeName.value == "" || s.nodeName.value == node)
  }

  lemma GrantedSiteHasNode(p: Planner, q: Query, u: Attempt, s: Site)
    requires Grants(p, q, u, s).Some?
    ensures s.slice.nodeName.Some?
  {
  }

  lemma {:induction false} NodeIsKept(st: State, path: seq<Choice>)
    requires st.node != ""
    ensures Finish(st, path).node == st.node
    decreases |path|
  {
    if path != [] { NodeIsKept(After(st, path[0]), path[1..]); }
  }

  lemma {:induction false} PicksAreKept(st: State, path: seq<Choice>)
    ensures st.picks <= Finish(st, path).picks
    decreases |path|
  {
    if path != [] { PicksAreKept(After(st, path[0]), path[1..]); }
  }

  /**
   * A solution stays within the result limit, and every device it adds is a healthy device of a
   * managed slice on the plan's node.
   */
  lemma {:induction false} SolutionOnOneNode(
    p: Planner, requests: seq<Request>, cs: seq<Constraint>, st: State, path: seq<Choice>)
    requires Solution(p, requests, cs, st, path) && |st.picks| <= MAX_RESULTS
    ensures |Finish(st, path).picks| <= MAX_RESULTS
    ensures forall x | x in Finish(st, path).picks :: x in st.picks || OnNode(p, x, Finish(st, path).node)
    decreases |requests|
  {
    hide Scan, Grants;
    if requests != [] {
      var c, next := path[0], After(st, path[0]);
      SolutionOnOneNode(p, requests[1..], cs, next, path[1..]);
      if next.node != "" { NodeIsKept(next, path[1..]); }
      forall x | x in c.picks
        ensures OnNode(p, x, Finish(st, path).node)
      {
        var q, s := AdmissibleOrigin(p, requests[0], st, c, x);
        GrantedSiteHasNode(p, q, st.usage, s);
        assert s.slice.nodeName.value == "" || s.slice.nodeName.value == next.node;
      }
    }
  }

  // ---------- requests are served in order ----------

  /**
   * The device has what is asked for: a whole device is large enough, and a share consumes of every
   * capacity of its device the amount due.
   */
  ghost predicate Meets(requests: map<string, Quantity>, d: Device, consumed: Option<Amounts>) {
    match consumed
    case None => !d.shareable && forall n | n in requests :: n in d.capacity && requests[n] <= d.capacity[n].total
    case Some(m) =>
      && d.shareable && m.Keys == d.capacity.Keys && requests.Keys <= m.Keys
      && forall n | n in m ::
           CapacityPolicy.ValidCapacity(d.capacity[n]) && CapacityPolicy.Due(requests, n, d.capacity[n], m[n])
  }

  /**
   * The picks serve request r: by one of its alternatives, with the right number of devices, each of
   * them selected and with what is asked for.
   */
  ghost predicate Serves(p: Planner, r: Request, picks: seq<Pick>) {
    && SupportedAlternatives(r).Ok?
    && exists a | a in SupportedAlternatives(r).value :: ServesBy(p, a, picks)
  }

  ghost predicate ServesBy(p: Planner, a: Alternative, picks: seq<Pick>) {
    && a.className in p.classes && DistinctDevices(picks) && picks != []
    && (a.mode == ExactCount ==> |picks| == a.count)
    && forall x | x in picks :: FitsAlternative(p, a, x)
  }

  ghost predicate FitsAlternative(p: Planner, a: Alternative, x: Pick)
    requires a.className in p.classes
  {
    && x.grant.request == a.requestName
    && p.selects(x.grant.key.driver, x.device, p.classes[a.className], a.selectors) == Selected
    && Meets(a.requests, x.device, x.grant.consumed)
  }

  /** The picks are one stretch per request, in request order. */
  ghost predicate ServedInOrder(p: Planner, requests: seq<Request>, picks: seq<Pick>)
  {
    if requests == [] then picks == []
    else exists n | 0 <= n <= |picks| ::
      Serves(p, requests[0], picks[..n]) && ServedInOrder(p, requests[1..], picks[n..])
  }

  /** What is granted is what was asked for. */
  lemma GrantFitsAlternative(p: Planner, a: Alternative, u: Attempt, s: Site)
    requires a.className in p.classes && Grants(p, Query(a, p.classes[a.className]), u, s).Some?
    ensures FitsAlternative(p, a, Grants(p, Query(a, p.classes[a.className]), u, s).value)
  {
    hide CapacityPolicy.Evaluate, CapacityPolicy.Due, CapacityPolicy.ValidCapacity;
    if s.device.shareable {
      var q, k := Query(a, p.classes[a.className]), KeyOf(s);
      var held := Ledger.UseOf(p.committed, k).consumed;
      CapacityPolicy.FitIsSafe(a.requests, s.device.capacity, held, PendingOn(u, k), p.errorFirst(q, k, u));
      CapacityPolicy.FitConsumesDue(a.requests, s.device.capacity, held, PendingOn(u, k), p.errorFirst(q, k, u));
    }
  }

  lemma {:induction false} SolutionServesInOrder(
    p: Planner, requests: seq<Request>, cs: seq<Constraint>, st: State, path: seq<Choice>)
    requires Solution(p, requests, cs, st, path)
    ensures |st.picks| <= |Finish(st, path).picks|
    ensures ServedInOrder(p, requests, Finish(st, path).picks[|st.picks|..])
    decreases |requests|
  {
    hide Admissible, Serves;
    PicksAreKept(st, path);
    var all := Finish(st, path).picks;
    if requests != [] {
      var c, next := path[0], After(st, path[0]);
      SolutionServesInOrder(p, requests[1..], cs, next, path[1..]);
      PicksAreKept(next, path[1..]);
      var here := all[|st.picks|..];
      assert here[..|c.picks|] == c.picks;
      assert here[|c.picks|..] == all[|next.picks|..];
      ChoiceServes(p, requests[0], st, c);
    }
  }

  lemma ChoiceServes(p: Planner, r: Request, st: State, c: Choice)
    requires Admissible(p, r, st, c)
    ensures Serves(p, r, c.picks)
  {
    hide Scan, Grants, TakesOffered, TakesEverything, FitsAlternative;
    var a := SupportedAlternatives(r).value[c.alternative];
    forall x | x in c.picks
      ensures FitsAlternative(p, a, x)
    {
      var q, s := AdmissibleOrigin(p, r, st, c, x);
      GrantFitsAlternative(p, a, st.usage, s);
    }
    assert ServesBy(p, a, c.picks);
  }

  // ---------- ownership and consumption ----------

  /** The pick may stand beside what is committed, and a share reports exactly its device's capacities. */
  ghost predicate Sound(p: Planner, x: Pick) {
    var held := Ledger.UseOf(p.committed, x.grant.key);
    && !held.exclusive
    && match x.grant.consumed
       case None => !held.shared
       case Some(m) =>
         && (held.shared ==> SharesValid(x.device, held))
         && m.Keys == x.device.capacity.Keys
         && Ledger.NonNegative(m)
  }

  function Pending(picks: seq<Pick>, k: Key, n: string): int {
    CapacityPolicy.At(PendingOn(ReserveAll(NOTHING, picks), k), n)
  }

  /** What is committed on the pick's device, and what the plan adds, stays within its capacities. */
  ghost predicate WithinCapacity(p: Planner, picks: seq<Pick>, x: Pick) {
    forall n | n in x.device.capacity ::
      CapacityPolicy.At(Ledger.UseOf(p.committed, x.grant.key).consumed, n) + Pending(picks, x.grant.key, n)
        <= x.device.capacity[n].total
  }

  /** Picks naming the same device carry the same record of it. */
  ghost predicate OneRecord(picks: seq<Pick>) {
    forall x, y | x in picks && y in picks && x.grant.key == y.grant.key :: x.device == y.device
  }

  /** The picks can be committed together. */
  ghost predicate Safe(p: Planner, picks: seq<Pick>) {
    && (forall x | x in picks :: Sound(p, x))
    && (forall i, j | 0 <= i < j < |picks| && picks[i].grant.key == picks[j].grant.key ::
          picks[i].grant.consumed.Some? && picks[j].grant.consumed.Some?)
  }

  ghost predicate AllWithinCapacity(p: Planner, picks: seq<Pick>) {
    forall x | x in picks && x.grant.consumed.Some? :: WithinCapacity(p, picks, x)
  }

  /** What a grant says about the device it is for. */
  ghost predicate GrantIsSafe(p: Planner, u: Attempt, x: Pick) {
    var k := x.grant.key;
    && Sound(p, x)
    && k !in u.exclusive
    && match x.grant.consumed
       case None => k !in u.shared
       case Some(m) => forall n | n in x.device.capacity ::
         CapacityPolicy.At(Ledger.UseOf(p.committed, k).consumed, n) + CapacityPolicy.At(PendingOn(u, k), n) + m[n]
           <= x.device.capacity[n].total
  }

  lemma GrantsAreSafe(p: Planner, q: Query, u: Attempt, s: Site)
    requires Grants(p, q, u, s).Some?
    ensures GrantIsSafe(p, u, Grants(p, q, u, s).value)
  {
    hide CapacityPolicy.Evaluate;
    if s.device.shareable {
      CapacityPolicy.FitIsSafe(q.alternative.requests, s.device.capacity,
        Ledger.UseOf(p.committed, KeyOf(s)).consumed, PendingOn(u, KeyOf(s)), p.errorFirst(q, KeyOf(s), u));
    }
  }

  /** The two usages say the same about device k. */
  ghost predicate AgreeOn(u: Attempt, v: Attempt, k: Key) {
    (k in u.exclusive <==> k in v.exclusive) && (k in u.shared <==> k in v.shared) && PendingOn(u, k) == PendingOn(v, k)
  }

  lemma {:induction false} OthersDoNotMatter(u: Attempt, picks: seq<Pick>, k: Key)
    requires forall x | x in picks :: x.grant.key != k
    ensures AgreeOn(u, ReserveAll(u, picks), k)
  {
    if picks != [] {
      OthersDoNotMatter(u, picks[..|picks| - 1], k);
      assert picks[|picks| - 1] in picks;
    }
  }

  lemma {:induction false} UsageNames(picks: seq<Pick>, k: Key)
    ensures k in ReserveAll(NOTHING, picks).exclusive <==>
        exists x | x in picks :: x.grant.key == k && x.grant.consumed.None?
    ensures k in ReserveAll(NOTHING, picks).shared <==>
        exists x | x in picks :: x.grant.key == k && x.grant.consumed.Some?
  {
    if picks != [] {
      UsageNames(picks[..|picks| - 1], k);
      assert picks == picks[..|picks| - 1] + [picks[|picks| - 1]];
    }
  }

  lemma PendingNext(picks: seq<Pick>, x: Pick, k: Key, n: string)
    ensures Pending(picks + [x], k, n) == Pending(picks, k, n) +
            if x.grant.key == k && x.grant.consumed.Some? then CapacityPolicy.At(x.grant.consumed.value, n) else 0
  {
  }

  /** Adding a grant that was given with the device's present usage keeps the picks safe. */
  lemma AddGrant(p: Planner, picks: seq<Pick>, u: Attempt, x: Pick)
    requires Safe(p, picks) && GrantIsSafe(p, u, x) && AgreeOn(u, ReserveAll(NOTHING, picks), x.grant.key)
    ensures Safe(p, picks + [x])
    ensures AllWithinCapacity(p, picks) && OneRecord(picks + [x]) ==> AllWithinCapacity(p, picks + [x])
  {
    hide SharesValid, Sound;
    UsageNames(picks, x.grant.key);
    var all := picks + [x];
    assert forall y :: y in all <==> y in picks || y == x;
    assert forall i | 0 <= i < |picks| :: picks[i] in picks;
    if AllWithinCapacity(p, picks) && OneRecord(all) {
      forall y | y in all && y.grant.consumed.Some?
        ensures WithinCapacity(p, all, y)
      {
        forall n { PendingNext(picks, x, y.grant.key, n); }
        assert y.grant.key == x.grant.key ==> y.device == x.device;
        if x.grant.consumed.Some? { SoundKeys(p, x); }
      }
    }
  }

  lemma SoundKeys(p: Planner, x: Pick)
    requires Sound(p, x) && x.grant.consumed.Some?
    ensures x.grant.consumed.value.Keys == x.device.capacity.Keys
  {
  }

  lemma {:induction false} AddChoice(p: Planner, r: Request, st: State, c: Choice, n: nat)
    requires Admissible(p, r, st, c) && st.usage == ReserveAll(NOTHING, st.picks) && n <= |c.picks|
    requires Safe(p, st.picks)
    ensures Safe(p, st.picks + c.picks[..n])
    ensures AllWithinCapacity(p, st.picks) && OneRecord(st.picks + c.picks[..n]) ==>
              AllWithinCapacity(p, st.picks + c.picks[..n])
  {
    hide Admissible, Safe, AllWithinCapacity, Grants, GrantIsSafe, Reserve, AgreeOn, DistinctDevices, Usable, OneRecord;
    if n == 0 {
      assert st.picks + c.picks[..0] == st.picks;
    } else {
      AddChoice(p, r, st, c, n - 1);
      var x, before := c.picks[n - 1], st.picks + c.picks[..n - 1];
      var q, s := AdmissibleOrigin(p, r, st, c, x);
      GrantsAreSafe(p, q, st.usage, s);
      AdmissibleDistinct(p, r, st, c, n - 1);
      OthersDoNotMatter(st.usage, c.picks[..n - 1], x.grant.key);
      ReserveConcat(NOTHING, st.picks, c.picks[..n - 1]);
      assert st.picks + c.picks[..n] == before + [x];
      AddGrant(p, before, st.usage, x);
      FewerHaveOneRecord(before, x);
    }
  }

  lemma AdmissibleDistinct(p: Planner, r: Request, st: State, c: Choice, n: nat)
    requires Admissible(p, r, st, c) && n < |c.picks|
    ensures forall y | y in c.picks[..n] :: y.grant.key != c.picks[n].grant.key
  {
  }

  lemma FewerHaveOneRecord(picks: seq<Pick>, x: Pick)
    ensures OneRecord(picks + [x]) ==> OneRecord(picks)
  {
    assert forall y | y in picks :: y in picks + [x];
  }

  /** Whatever solves the requests can be committed beside the ledger it was planned against. */
  lemma {:induction false} SolutionIsSafe(
    p: Planner, requests: seq<Request>, cs: seq<Constraint>, st: State, path: seq<Choice>)
    requires Solution(p, requests, cs, st, path)
    requires st.usage == ReserveAll(NOTHING, st.picks) && Safe(p, st.picks)
    ensures Safe(p, Finish(st, path).picks)
    ensures AllWithinCapacity(p, st.picks) && OneRecord(Finish(st, path).picks) ==>
              AllWithinCapacity(p, Finish(st, path).picks)
    decreases |requests|
  {
    hide Admissible, Safe, AllWithinCapacity;
    if requests != [] {
      var c, next := path[0], After(st, path[0]);
      AddChoice(p, requests[0], st, c, |c.picks|);
      assert c.picks[..|c.picks|] == c.picks;
      ReserveConcat(NOTHING, st.picks, c.picks);
      SolutionIsSafe(p, requests[1..], cs, next, path[1..]);
      PicksAreKept(next, path[1..]);
      if OneRecord(Finish(st, path).picks) {
        var all := Finish(st, path).picks;
        assert forall x | x in next.picks :: x in all by {
          assert all == next.picks + all[|next.picks|..];
        }
        assert OneRecord(next.picks);
      }
    }
  }
}
