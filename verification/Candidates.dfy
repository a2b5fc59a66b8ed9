/** Requests, the devices on offer, and what a device would grant to a request. */
module Candidates {
  import opened Types
  import CapacityPolicy
  import Ledger
  import Pools

  // ---------- request alternatives ----------

  function SupportedMode(spec: DeviceSpec): Outcome<Mode> {
    if spec.mode == "" || spec.mode == "ExactCount" then
      if 0 <= spec.count <= MAX_RESULTS then Ok(ExactCount) else Err(Unsupported)
    else if spec.mode == "All" then
      if spec.count == 0 then Ok(All) else Err(Unsupported)
    else Err(Unsupported)
  }

  function SupportedAlternative(requestName: string, spec: DeviceSpec): (r: Outcome<Alternative>)
    ensures r.Ok? && r.value.mode == ExactCount ==> 1 <= r.value.count <= MAX_RESULTS
    ensures r.Ok? ==> forall n | n in r.value.requests :: r.value.requests[n] >= 0
  {
    if spec.className == "" then Err(Unsupported)
    else
      match SupportedMode(spec)
      case Err(f) => Err(f)
      case Ok(mode) =>
        if spec.adminAccess || spec.tolerates || exists n | n in spec.requests :: spec.requests[n] < 0 then
          Err(Unsupported)
        else
          var count := if mode == All then 0 else if spec.count == 0 then 1 else spec.count;
          Ok(Alternative(requestName, spec.className, spec.selectors, mode, count, spec.requests))
  }

  function SupportedSubrequests(parent: string, specs: seq<DeviceSpec>): (r: Outcome<seq<Alternative>>)
    ensures r.Ok? ==> |r.value| == |specs| && forall a | a in r.value :: WellFormed(a)
  {
    if specs == [] then Ok([])
    else
      match SupportedAlternative(parent + "/" + specs[0].name, specs[0].(adminAccess := false))
      case Err(f) => Err(f)
      case Ok(a) =>
        match SupportedSubrequests(parent, specs[1..])
        case Err(f) => Err(f)
        case Ok(rest) => Ok([a] + rest)
  }

  predicate WellFormed(a: Alternative) {
    && (a.mode == ExactCount ==> 1 <= a.count <= MAX_RESULTS)
    && (forall n | n in a.requests :: a.requests[n] >= 0)
  }

  function SupportedAlternatives(r: Request): (out: Outcome<seq<Alternative>>)
    ensures out.Ok? ==> out.value != [] && forall a | a in out.value :: WellFormed(a)
  {
    if r.exactly.Some? && r.firstAvailable == [] then
      match SupportedAlternative(r.name, r.exactly.value)
      case Err(f) => Err(f)
      case Ok(a) => Ok([a])
    else if r.exactly.None? && r.firstAvailable != [] then SupportedSubrequests(r.name, r.firstAvailable)
    else Err(Unsupported)
  }

  /** What the simulator supports of a request alternative. */
  ghost predicate Supportable(spec: DeviceSpec) {
    && spec.className != "" && !spec.adminAccess && !spec.tolerates
    && (forall n | n in spec.requests :: spec.requests[n] >= 0)
    && if spec.mode == "All" then spec.count == 0
       else spec.mode in ["", "ExactCount"] && 0 <= spec.count <= 32
  }

  /** The alternative asks for what the specification says; a count of 0 stands for 1. */
  ghost predicate AsksFor(a: Alternative, name: string, spec: DeviceSpec) {
    && a.requestName == name && a.className == spec.className && a.selectors == spec.selectors
    && a.requests == spec.requests
    && if spec.mode == "All" then a.mode == All
       else a.mode == ExactCount && a.count == if spec.count == 0 then 1 else spec.count
  }

  lemma AlternativeIffSupportable(name: string, spec: DeviceSpec)
    ensures SupportedAlternative(name, spec).Ok? <==> Supportable(spec)
    ensures Supportable(spec) ==> AsksFor(SupportedAlternative(name, spec).value, name, spec)
  {
  }

  lemma {:induction false} SubrequestsIffSupportable(parent: string, specs: seq<DeviceSpec>)
    ensures var out := SupportedSubrequests(parent, specs);
            && (out.Ok? <==> forall i | 0 <= i < |specs| :: Supportable(specs[i].(adminAccess := false)))
            && (out.Ok? ==> forall i | 0 <= i < |specs| ::
                  AsksFor(out.value[i], parent + "/" + specs[i].name, specs[i]))
  {
    hide Supportable;
    if specs != [] {
      AlternativeIffSupportable(parent + "/" + specs[0].name, specs[0].(adminAccess := false));
      SubrequestsIffSupportable(parent, specs[1..]);
    }
  }

  /** A request is accepted exactly when it has one form and every alternative in it is supportable. */
  lemma RequestIffSupportable(r: Request)
    ensures SupportedAlternatives(r).Ok? <==>
            || (r.exactly.Some? && r.firstAvailable == [] && Supportable(r.exactly.value))
            || (r.exactly.None? && r.firstAvailable != []
                && forall i | 0 <= i < |r.firstAvailable| :: Supportable(r.firstAvailable[i].(adminAccess := false)))
    ensures SupportedAlternatives(r).Ok? ==>
              var all := SupportedAlternatives(r).value;
              if r.exactly.Some? then |all| == 1 && AsksFor(all[0], r.name, r.exactly.value)
              else |all| == |r.firstAvailable| && forall i | 0 <= i < |all| ::
                     AsksFor(all[i], r.name + "/" + r.firstAvailable[i].name, r.firstAvailable[i])
  {
    hide Supportable, AsksFor;
    if r.exactly.Some? { AlternativeIffSupportable(r.name, r.exactly.value); }
    SubrequestsIffSupportable(r.name, r.firstAvailable);
  }

  // ---------- usage of the attempt in progress ----------

  datatype Attempt = Attempt(exclusive: set<Key>, shared: set<Key>, consumed: map<Key, Amounts>)

  const NOTHING := Attempt({}, {}, map[])

  function PendingOn(u: Attempt, k: Key): Amounts {
    if k in u.consumed then u.consumed[k] else map[]
  }

  function AddAt(consumed: map<Key, Amounts>, k: Key, amounts: Amounts): map<Key, Amounts> {
    consumed[k := Ledger.Plus(if k in consumed then consumed[k] else map[], amounts)]
  }

  function Reserve(u: Attempt, g: Grant): Attempt {
    if g.consumed.None? then u.(exclusive := u.exclusive + {g.key})
    else u.(shared := u.shared + {g.key}, consumed := AddAt(u.consumed, g.key, g.consumed.value))
  }

  function ReserveAll(u: Attempt, picks: seq<Pick>): Attempt
  {
    if picks == [] then u else Reserve(ReserveAll(u, picks[..|picks| - 1]), picks[|picks| - 1].grant)
  }

  lemma {:induction false} ReserveConcat(u: Attempt, a: seq<Pick>, b: seq<Pick>)
    ensures ReserveAll(ReserveAll(u, a), b) == ReserveAll(u, a + b)
  {
    if b == [] {
      assert a + b == a;
    } else {
      ReserveConcat(u, a, b[..|b| - 1]);
      assert (a + b)[..|a + b| - 1] == a + b[..|b| - 1];
    }
  }

  // ---------- what one device grants ----------

  datatype Selection = Selected | NotSelected | SelectorFailed

  /**
   * What planning one claim reads. `selects` stands for CEL evaluation; `errorFirst` settles the
   * capacity verdicts that depend on map iteration order (CapacityPolicy.OrderMatters).
   */
  datatype Planner = Planner(
    slices: seq<Slice>, classes: map<string, seq<string>>, committed: Ledger.Usage,
    selects: (string, Device, seq<string>, seq<string>) -> Selection,
    errorFirst: (Query, Key, Attempt) -> bool)

  datatype Query = Query(alternative: Alternative, classSelectors: seq<string>)

  /** A device as seen from a node. */
  datatype Site = Site(node: string, slice: Slice, device: Device)

  function KeyOf(s: Site): Key {
    Key(s.slice.driver, s.slice.pool, s.device.name)
  }

  datatype Offer = Refuse | Fail(failure: Failure) | Give(pick: Pick)

  predicate UnsupportedSlice(s: Slice) {
    s.nodeName.None? || s.multiNode
  }

  /** Selection and the unsupported features, checked before availability. */
  function Screen(p: Planner, q: Query, s: Site): Outcome<bool> {
    match p.selects(s.slice.driver, s.device, q.classSelectors, q.alternative.selectors)
    case SelectorFailed => Err(SelectorError)
    case NotSelected => Ok(false)
    case Selected => if UnsupportedSlice(s.slice) || s.device.partitioned then Err(Unsupported) else Ok(true)
  }

  function ExclusiveFit(d: Device, requests: map<string, Quantity>): CapacityPolicy.Check {
    if d.shareable || exists n | n in d.capacity :: d.capacity[n].policy.Some? || d.capacity[n].total < 0
    then CapacityPolicy.Fails
    else if exists n | n in requests :: n !in d.capacity || requests[n] > d.capacity[n].total
    then CapacityPolicy.Rejects
    else CapacityPolicy.Passes
  }

  /** The committed shares of a device report exactly its capacities and stay within them. */
  predicate SharesValid(d: Device, u: Ledger.DeviceUse) {
    && (forall i | 0 <= i < |u.shares| :: u.shares[i].Keys == d.capacity.Keys)
    && (forall n | n in u.consumed :: u.consumed[n] <= if n in d.capacity then d.capacity[n].total else 0)
  }

  function BuildShareable(p: Planner, q: Query, u: Attempt, s: Site): Offer {
    var k := KeyOf(s);
    var held := Ledger.UseOf(p.committed, k);
    if s.device.capacity == map[] || held.exclusive || (held.shared && !SharesValid(s.device, held))
       || k in u.exclusive then Fail(Unsupported)
    else
      match CapacityPolicy.Evaluate(q.alternative.requests, s.device.capacity, held.consumed, PendingOn(u, k),
                                    p.errorFirst(q, k, u))
      case Invalid => Fail(Unsupported)
      case Unfit => Refuse
      case Fit(m) => Give(Pick(Grant(q.alternative.requestName, k, Some(m)), s.device))
  }

  function BuildExclusive(p: Planner, q: Query, u: Attempt, s: Site): Offer {
    var k := KeyOf(s);
    var held := Ledger.UseOf(p.committed, k);
    if held.shared then Fail(Unsupported)
    else if held.exclusive || k in u.exclusive || k in u.shared then Refuse
    else
      match ExclusiveFit(s.device, q.alternative.requests)
      case Fails => Fail(Unsupported)
      case Rejects => Refuse
      case Passes => Give(Pick(Grant(q.alternative.requestName, k, None), s.device))
  }

  function Build(p: Planner, q: Query, u: Attempt, s: Site): (o: Offer)
    ensures o.Give? ==> o.pick.grant.key == KeyOf(s) && o.pick.device == s.device
    ensures o.Give? ==> o.pick.grant.request == q.alternative.requestName
  {
    if s.device.shareable then BuildShareable(p, q, u, s) else BuildExclusive(p, q, u, s)
  }

  /** The candidate a site yields, given the devices already collected for this request. */
  function Evaluate(p: Planner, q: Query, u: Attempt, s: Site, seen: set<Key>): (o: Offer)
    ensures o.Give? ==> o.pick.grant.key == KeyOf(s) && KeyOf(s) !in seen
  {
    match Screen(p, q, s)
    case Err(f) => Fail(f)
    case Ok(selected) => if !selected || KeyOf(s) in seen then Refuse else Build(p, q, u, s)
  }

  /** What a site would grant if asked alone. */
  function Grants(p: Planner, q: Query, u: Attempt, s: Site): (r: Option<Pick>)
    ensures r.Some? ==> r.value.grant.key == KeyOf(s) && r.value.device == s.device
  {
    if Screen(p, q, s) == Ok(true) && Build(p, q, u, s).Give? then Some(Build(p, q, u, s).pick) else None
  }

  /** The device may be shared once more: held by shares only, and each of its capacities fits on its own. */
  ghost predicate ShareAvailable(q: Query, u: Attempt, s: Site, held: Ledger.DeviceUse) {
    var caps, requests, pending := s.device.capacity, q.alternative.requests, PendingOn(u, KeyOf(s));
    && caps != map[] && !held.exclusive && KeyOf(s) !in u.exclusive && (held.shared ==> SharesValid(s.device, held))
    && CapacityPolicy.UsageValid(held.consumed, caps) && CapacityPolicy.UsageValid(pending, caps)
    && (forall n | n in requests :: requests[n] >= 0 && n in caps)
    && (forall n | n in caps :: CapacityPolicy.ValidCapacity(caps[n]) &&
          CapacityPolicy.HasRoom(requests, n, caps[n],
                                 CapacityPolicy.At(held.consumed, n) + CapacityPolicy.At(pending, n)))
  }

  /** The device is free and large enough to be taken as a whole. */
  ghost predicate WholeAvailable(q: Query, u: Attempt, s: Site, held: Ledger.DeviceUse) {
    var caps, requests := s.device.capacity, q.alternative.requests;
    && !held.shared && !held.exclusive && KeyOf(s) !in u.exclusive && KeyOf(s) !in u.shared
    && (forall n | n in caps :: caps[n].policy.None? && caps[n].total >= 0)
    && (forall n | n in requests :: n in caps && requests[n] <= caps[n].total)
  }

  /** A site grants its device exactly when it is selected, supported and available. */
  lemma GrantsExactly(p: Planner, q: Query, u: Attempt, s: Site)
    ensures Grants(p, q, u, s).Some? <==>
            && p.selects(s.slice.driver, s.device, q.classSelectors, q.alternative.selectors) == Selected
            && !UnsupportedSlice(s.slice) && !s.device.partitioned
            && var held := Ledger.UseOf(p.committed, KeyOf(s));
               if s.device.shareable then ShareAvailable(q, u, s, held) else WholeAvailable(q, u, s, held)
    ensures Grants(p, q, u, s).Some? ==>
              && Grants(p, q, u, s).value.grant.request == q.alternative.requestName
              && (Grants(p, q, u, s).value.grant.consumed.Some? <==> s.device.shareable)
  {
    hide CapacityPolicy.Evaluate, CapacityPolicy.ValidCapacity, CapacityPolicy.HasRoom, CapacityPolicy.UsageValid,
      SharesValid;
    var held := Ledger.UseOf(p.committed, KeyOf(s));
    CapacityPolicy.FitIffRoomForEach(q.alternative.requests, s.device.capacity, held.consumed, PendingOn(u, KeyOf(s)),
                                  p.errorFirst(q, KeyOf(s), u));
  }

  // ---------- when a device cannot be assessed ----------

  /** What is committed or reserved on a shareable device, or its record, contradicts sharing it once more. */
  ghost predicate ShareUnclear(q: Query, u: Attempt, k: Key, d: Device, held: Ledger.DeviceUse, errorFirst: bool) {
    var requests, pending := q.alternative.requests, PendingOn(u, k);
    || d.capacity == map[] || held.exclusive || k in u.exclusive
    || (held.shared &&
        ((exists i | 0 <= i < |held.shares| :: held.shares[i].Keys != d.capacity.Keys)
         || exists n | n in held.consumed :: held.consumed[n] > if n in d.capacity then d.capacity[n].total else 0))
    || (exists n | n in held.consumed :: held.consumed[n] < 0 || n !in d.capacity)
    || (exists n | n in pending :: pending[n] < 0 || n !in d.capacity)
    || if CapacityPolicy.SomeNegative(requests) || CapacityPolicy.SomeUnknown(requests, d.capacity)
       then CapacityPolicy.SomeNegative(requests) && (errorFirst || !CapacityPolicy.SomeUnknown(requests, d.capacity))
       else CapacityPolicy.SomeUnsound(d.capacity)
            && (errorFirst || !CapacityPolicy.SomeTight(requests, d.capacity, held.consumed, pending))
  }

  /** A device that only one claim may use is held by shares or, if it is free, has capacities meant for sharing. */
  ghost predicate WholeUnclear(u: Attempt, k: Key, d: Device, held: Ledger.DeviceUse) {
    || held.shared
    || (!held.exclusive && k !in u.exclusive + u.shared
        && exists n | n in d.capacity :: d.capacity[n].policy.Some? || d.capacity[n].total < 0)
  }

  /**
   * Assessing a device fails exactly when its selectors fail, when it is selected and not supported,
   * or when it is selected, supported, not yet seen and in a contradictory state. A device that merely
   * has no room is never a failure.
   */
  lemma FailsExactly(p: Planner, q: Query, u: Attempt, s: Site, seen: set<Key>)
    ensures var d, k := s.device, Key(s.slice.driver, s.slice.pool, s.device.name);
            var held, sel := Ledger.UseOf(p.committed, k),
                p.selects(s.slice.driver, d, q.classSelectors, q.alternative.selectors);
            && (Evaluate(p, q, u, s, seen).Fail? <==>
                  || sel == SelectorFailed
                  || (sel == Selected && (s.slice.nodeName.None? || s.slice.multiNode || d.partitioned))
                  || (sel == Selected && k !in seen
                      && if d.shareable then ShareUnclear(q, u, k, d, held, p.errorFirst(q, k, u))
                         else WholeUnclear(u, k, d, held)))
            && (Evaluate(p, q, u, s, seen).Fail? ==>
                  Evaluate(p, q, u, s, seen).failure == if sel == SelectorFailed then SelectorError else Unsupported)
  {
    hide CapacityPolicy.Evaluate, CapacityPolicy.SomeNegative, CapacityPolicy.SomeUnknown, CapacityPolicy.SomeUnsound,
      CapacityPolicy.SomeTight;
    var k := KeyOf(s);
    CapacityPolicy.InvalidExactly(q.alternative.requests, s.device.capacity, Ledger.UseOf(p.committed, k).consumed,
                                  PendingOn(u, k), p.errorFirst(q, k, u));
  }

  // ---------- collecting candidates ----------

  datatype Candidate = Candidate(node: string, pick: Pick)

  function KeysOf(cs: seq<Candidate>): set<Key> {
    set c | c in cs :: c.pick.grant.key
  }

  /** How a planner assesses a site, given the devices already collected. */
  type Evaluator = (Site, set<Key>) -> Offer

  function Evaluating(p: Planner, q: Query, u: Attempt): Evaluator {
    (s: Site, seen: set<Key>) => Evaluate(p, q, u, s, seen)
  }

  /** Extends the collected candidates with those of more sites, up to the first failure. */
  function ScanFrom(eval: Evaluator, collected: seq<Candidate>, sites: seq<Site>): Outcome<seq<Candidate>>
  {
    if sites == [] then Ok(collected)
    else
      match ScanFrom(eval, collected, sites[..|sites| - 1])
      case Err(f) => Err(f)
      case Ok(cs) =>
        var s := sites[|sites| - 1];
        match eval(s, KeysOf(cs))
        case Fail(f) => Err(f)
        case Refuse => Ok(cs)
        case Give(pick) => Ok(cs + [Candidate(s.node, pick)])
  }

  function ScanBy(eval: Evaluator, sites: seq<Site>): Outcome<seq<Candidate>> {
    ScanFrom(eval, [], sites)
  }

  lemma {:induction false} ScanConcat(eval: Evaluator, collected: seq<Candidate>, a: seq<Site>, b: seq<Site>)
    ensures var first := ScanFrom(eval, collected, a);
            ScanFrom(eval, collected, a + b) == if first.Err? then first else ScanFrom(eval, first.value, b)
  {
    if b == [] {
      assert a + b == a;
    } else {
      ScanConcat(eval, collected, a, b[..|b| - 1]);
      assert (a + b)[..|a + b| - 1] == a + b[..|b| - 1];
    }
  }

  function Scan(p: Planner, q: Query, u: Attempt, sites: seq<Site>): Outcome<seq<Candidate>> {
    ScanBy(Evaluating(p, q, u), sites)
  }

  /** What each site would grant, asked alone. */
  datatype Answer = Answer(node: string, grant: Option<Pick>)

  function AnswersBy(grant: Site -> Option<Pick>, sites: seq<Site>): (r: seq<Answer>)
    ensures |r| == |sites|
    ensures forall i | 0 <= i < |sites| :: r[i] == Answer(sites[i].node, grant(sites[i]))
  {
    seq(|sites|, i requires 0 <= i < |sites| => Answer(sites[i].node, grant(sites[i])))
  }

  function Granting(p: Planner, q: Query, u: Attempt): Site -> Option<Pick> {
    (s: Site) => Grants(p, q, u, s)
  }

  function Answers(p: Planner, q: Query, u: Attempt, sites: seq<Site>): seq<Answer> {
    AnswersBy(Granting(p, q, u), sites)
  }

  predicate SameDevice(a: Answer, b: Answer) {
    a.grant.Some? && b.grant.Some? && a.grant.value.grant.key == b.grant.value.grant.key
  }

  /** Candidate c is on offer: some site grants it, and no earlier site grants the same device. */
  ghost predicate Offered(answers: seq<Answer>, c: Candidate) {
    exists i | 0 <= i < |answers| ::
      && answers[i] == Answer(c.node, Some(c.pick))
      && forall j | 0 <= j < i :: !SameDevice(answers[j], answers[i])
  }

  predicate DistinctDevices(picks: seq<Pick>) {
    forall i, j | 0 <= i < j < |picks| :: picks[i].grant.key != picks[j].grant.key
  }

  predicate DistinctCandidates(cs: seq<Candidate>) {
    forall i, j | 0 <= i < j < |cs| :: cs[i].pick.grant.key != cs[j].pick.grant.key
  }

  /** The candidates are exactly those on offer, and no device appears twice. */
  ghost predicate ExactlyOffered(answers: seq<Answer>, cs: seq<Candidate>) {
    && DistinctCandidates(cs)
    && (forall c :: c in cs <==> Offered(answers, c))
    && (forall k :: k in KeysOf(cs) <==>
          exists a | a in answers :: a.grant.Some? && a.grant.value.grant.key == k)
  }

  lemma OfferedGrows(answers: seq<Answer>, a: Answer, c: Candidate)
    ensures Offered(answers + [a], c) <==>
            || Offered(answers, c)
            || (a == Answer(c.node, Some(c.pick)) && forall x | x in answers :: !SameDevice(x, a))
  {
    var all := answers + [a];
    if Offered(answers, c) {
      var i :| 0 <= i < |answers| && answers[i] == Answer(c.node, Some(c.pick))
            && forall j | 0 <= j < i :: !SameDevice(answers[j], answers[i]);
      assert all[i] == answers[i];
    }
    if a == Answer(c.node, Some(c.pick)) && forall x | x in answers :: !SameDevice(x, a) {
      assert all[|answers|] == a;
      assert forall j | 0 <= j < |answers| :: answers[j] in answers;
    }
    if Offered(all, c) {
      var i :| 0 <= i < |all| && all[i] == Answer(c.node, Some(c.pick))
            && forall j | 0 <= j < i :: !SameDevice(all[j], all[i]);
      if i < |answers| {
        assert answers[i] == all[i] && forall j | 0 <= j < i :: answers[j] == all[j];
      } else {
        forall x | x in answers ensures !SameDevice(x, a) {
          var j :| 0 <= j < |answers| && answers[j] == x;
          assert all[j] == x;
        }
      }
    }
  }

  lemma KeysOfSnoc(cs: seq<Candidate>, c: Candidate)
    ensures KeysOf(cs + [c]) == KeysOf(cs) + {c.pick.grant.key}
    ensures DistinctCandidates(cs) && c.pick.grant.key !in KeysOf(cs) ==> DistinctCandidates(cs + [c])
  {
  }

  lemma OfferedSnoc(answers: seq<Answer>, cs: seq<Candidate>, a: Answer)
    requires ExactlyOffered(answers, cs)
    ensures ExactlyOffered(answers + [a],
              cs + if a.grant.Some? && a.grant.value.grant.key !in KeysOf(cs)
                   then [Candidate(a.node, a.grant.value)] else [])
  {
    var after := cs + if a.grant.Some? && a.grant.value.grant.key !in KeysOf(cs)
                      then [Candidate(a.node, a.grant.value)] else [];
    if a.grant.Some? && a.grant.value.grant.key !in KeysOf(cs) {
      KeysOfSnoc(cs, Candidate(a.node, a.grant.value));
    } else {
      assert after == cs;
    }
    assert forall x :: x in answers + [a] <==> x in answers || x == a;
    forall c
      ensures c in after <==> Offered(answers + [a], c)
    {
      OfferedGrows(answers, a, c);
    }
  }

  /** Unless it fails, the evaluator gives what the site grants, to devices not yet collected. */
  ghost predicate Decides(eval: Evaluator, grant: Site -> Option<Pick>) {
    forall s: Site, seen: set<Key> ::
      !eval(s, seen).Fail? ==>
        eval(s, seen) ==
          if grant(s).Some? && grant(s).value.grant.key !in seen then Give(grant(s).value) else Refuse
  }

  lemma EvaluatingDecides(p: Planner, q: Query, u: Attempt)
    ensures Decides(Evaluating(p, q, u), Granting(p, q, u))
  {
  }

  /** A scan that does not fail collects exactly what is on offer, each device once. */
  lemma {:induction false} ScanByExact(eval: Evaluator, grant: Site -> Option<Pick>, sites: seq<Site>)
    requires Decides(eval, grant) && ScanBy(eval, sites).Ok?
    ensures ExactlyOffered(AnswersBy(grant, sites), ScanBy(eval, sites).value)
  {
    if sites == [] {
      assert AnswersBy(grant, sites) == [];
    } else {
      var init, s := sites[..|sites| - 1], sites[|sites| - 1];
      ScanByExact(eval, grant, init);
      OfferedSnoc(AnswersBy(grant, init), ScanBy(eval, init).value, Answer(s.node, grant(s)));
      assert AnswersBy(grant, sites) == AnswersBy(grant, init) + [Answer(s.node, grant(s))];
      assert eval(s, KeysOf(ScanBy(eval, init).value)).Refuse? ==>
          ScanBy(eval, sites).value == ScanBy(eval, init).value + [];
    }
  }

  lemma ScanExact(p: Planner, q: Query, u: Attempt, sites: seq<Site>)
    requires Scan(p, q, u, sites).Ok?
    ensures ExactlyOffered(Answers(p, q, u, sites), Scan(p, q, u, sites).value)
  {
    EvaluatingDecides(p, q, u);
    ScanByExact(Evaluating(p, q, u), Granting(p, q, u), sites);
  }

  // ---------- sites of a request ----------

  predicate Eligible(s: Slice) {
    s.managed && !s.unhealthy
  }

  /** The node a slice stands for once node `pinned` has been chosen ("" when none has). */
  function CompatibleNode(s: Slice, pinned: string): Option<string> {
    var node := if s.nodeName.Some? then s.nodeName.value else "";
    if pinned != "" && node != "" && node != pinned then None
    else if node == "" && pinned != "" then Some(pinned)
    else Some(node)
  }

  function DevicesAt(node: string, s: Slice): (sites: seq<Site>)
    ensures |sites| == |s.devices|
    ensures forall i | 0 <= i < |sites| :: sites[i] == Site(node, s, s.devices[i])
  {
    seq(|s.devices|, i requires 0 <= i < |s.devices| => Site(node, s, s.devices[i]))
  }

  /** The devices an ExactCount alternative may use, in slice order. */
  function ExactSites(slices: seq<Slice>, pinned: string): seq<Site>
  {
    if slices == [] then []
    else
      var s := slices[|slices| - 1];
      ExactSites(slices[..|slices| - 1], pinned) +
      if Eligible(s) && CompatibleNode(s, pinned).Some?
      then DevicesAt(CompatibleNode(s, pinned).value, s) else []
  }

  /** The managed slices standing for a node, in slice order. */
  function ManagedOn(slices: seq<Slice>, pinned: string, node: string): seq<Slice>
  {
    if slices == [] then []
    else
      var s := slices[|slices| - 1];
      ManagedOn(slices[..|slices| - 1], pinned, node) +
      if s.managed && CompatibleNode(s, pinned) == Some(node) then [s] else []
  }

  /** Nodes in the order of their first managed slice. */
  function ManagedNodes(slices: seq<Slice>, pinned: string): seq<string>
  {
    if slices == [] then []
    else
      var before, s := ManagedNodes(slices[..|slices| - 1], pinned), slices[|slices| - 1];
      if s.managed && CompatibleNode(s, pinned).Some? && CompatibleNode(s, pinned).value !in before
      then before + [CompatibleNode(s, pinned).value] else before
  }

  function HealthySites(node: string, slices: seq<Slice>): seq<Site>
  {
    if slices == [] then []
    else
      var s := slices[|slices| - 1];
      HealthySites(node, slices[..|slices| - 1]) + if s.unhealthy then [] else DevicesAt(node, s)
  }

  /** The devices an All alternative takes on a node: healthy, of current slices; None if some pool is not complete. */
  function AllSites(slices: seq<Slice>, pinned: string, node: string): Option<seq<Site>> {
    match Pools.CurrentSlices(ManagedOn(slices, pinned, node))
    case None => None
    case Some(current) => Some(HealthySites(node, current))
  }

  /** The nodes of the candidates, by first appearance. */
  function NodeOrder(cs: seq<Candidate>): seq<string>
  {
    if cs == [] then []
    else
      var before, node := NodeOrder(cs[..|cs| - 1]), cs[|cs| - 1].node;
      if node in before then before else before + [node]
  }

  function PicksOn(cs: seq<Candidate>, node: string): seq<Pick>
  {
    if cs == [] then []
    else
      PicksOn(cs[..|cs| - 1], node) + if cs[|cs| - 1].node == node then [cs[|cs| - 1].pick] else []
  }

  lemma {:induction false} NodeOrderCovers(cs: seq<Candidate>, node: string)
    ensures node in NodeOrder(cs) <==> exists c | c in cs :: c.node == node
    ensures forall i, j | 0 <= i < j < |NodeOrder(cs)| :: NodeOrder(cs)[i] != NodeOrder(cs)[j]
  {
    if cs != [] {
      NodeOrderCovers(cs[..|cs| - 1], node);
      assert cs == cs[..|cs| - 1] + [cs[|cs| - 1]];
    }
  }

  lemma {:induction false} PicksOnExact(cs: seq<Candidate>, node: string)
    requires DistinctCandidates(cs)
    ensures DistinctDevices(PicksOn(cs, node))
    ensures forall p :: p in PicksOn(cs, node) <==> Candidate(node, p) in cs
  {
    if cs != [] {
      var init, c := cs[..|cs| - 1], cs[|cs| - 1];
      PicksOnExact(init, node);
      assert cs == init + [c];
      forall p | p in PicksOn(init, node)
        ensures p.grant.key != c.pick.grant.key
      {
        var i :| 0 <= i < |init| && init[i] == Candidate(node, p);
        assert cs[i] == init[i] && cs[|init|] == c;
      }
    }
  }
}
