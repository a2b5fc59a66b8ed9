/** The loops that collect candidates, node by node. */
module Collector {
  import opened Types
  import opened Candidates
  import Pools

  /** Evaluates the devices of one slice; `seen` holds the devices already collected. */
  method CollectSlice(eval: Evaluator, node: string, s: Slice, seen: set<Key>, ghost collected: seq<Candidate>)
    returns (picks: Outcome<seq<Pick>>, nowSeen: set<Key>)
    requires seen == KeysOf(collected)
    ensures ScanFrom(eval, collected, DevicesAt(node, s)) ==
            if picks.Err? then Err(picks.failure) else Ok(collected + CandidatesAt(node, picks.value))
    ensures picks.Ok? ==> nowSeen == KeysOf(collected + CandidatesAt(node, picks.value))
  {
    var found: seq<Pick> := [];
    nowSeen := seen;
    ghost var sites, cs := DevicesAt(node, s), collected;
    assert collected + CandidatesAt(node, []) == collected;
    for i := 0 to |s.devices|
      invariant ScanFrom(eval, collected, sites[..i]) == Ok(cs)
      invariant cs == collected + CandidatesAt(node, found)
      invariant nowSeen == KeysOf(cs)
    {
      assert sites[..i + 1][..i] == sites[..i];
      match eval(Site(node, s, s.devices[i]), nowSeen) {
        case Fail(f) =>
          ScanConcat(eval, collected, sites[..i + 1], sites[i + 1..]);
          assert sites[..i + 1] + sites[i + 1..] == sites;
          return Err(f), nowSeen;
        case Refuse =>
        case Give(pick) =>
          KeysOfSnoc(cs, Candidate(node, pick));
          assert CandidatesAt(node, found + [pick]) == CandidatesAt(node, found) + [Candidate(node, pick)];
          found := found + [pick];
          nowSeen := nowSeen + {pick.grant.key};
          cs := cs + [Candidate(node, pick)];
      }
    }
    assert sites[..|sites|] == sites;
    return Ok(found), nowSeen;
  }

  function CandidatesAt(node: string, picks: seq<Pick>): (r: seq<Candidate>)
    ensures |r| == |picks| && forall i | 0 <= i < |picks| :: r[i] == Candidate(node, picks[i])
  {
    seq(|picks|, i requires 0 <= i < |picks| => Candidate(node, picks[i]))
  }

  /** Devices found on a node, as candidates of that node. */
  function Placed(node: string, found: Outcome<seq<Pick>>): Outcome<seq<Candidate>> {
    if found.Err? then Err(found.failure) else Ok(CandidatesAt(node, found.value))
  }

  /** Candidates grouped by node, as the program keeps them. */
  datatype CandidateSet = CandidateSet(nodeOrder: seq<string>, byNode: map<string, seq<Pick>>)

  function Group(s: CandidateSet, node: string): seq<Pick> {
    if node in s.byNode then s.byNode[node] else []
  }

  ghost predicate Groups(s: CandidateSet, cs: seq<Candidate>) {
    s.nodeOrder == NodeOrder(cs) && forall node :: Group(s, node) == PicksOn(cs, node)
  }

  lemma {:induction false} NodeOrderAppend(cs: seq<Candidate>, node: string, picks: seq<Pick>)
    ensures NodeOrder(cs + CandidatesAt(node, picks)) ==
            if picks == [] || node in NodeOrder(cs) then NodeOrder(cs) else NodeOrder(cs) + [node]
  {
    if picks == [] {
      assert cs + CandidatesAt(node, picks) == cs;
    } else {
      var init := picks[..|picks| - 1];
      NodeOrderAppend(cs, node, init);
      var all := cs + CandidatesAt(node, picks);
      assert all[..|all| - 1] == cs + CandidatesAt(node, init);
    }
  }

  lemma {:induction false} PicksOnConcat(cs: seq<Candidate>, ds: seq<Candidate>, n: string)
    ensures PicksOn(cs + ds, n) == PicksOn(cs, n) + PicksOn(ds, n)
  {
    if ds == [] {
      assert cs + ds == cs;
    } else {
      PicksOnConcat(cs, ds[..|ds| - 1], n);
      assert (cs + ds)[..|cs + ds| - 1] == cs + ds[..|ds| - 1];
    }
  }

  lemma {:induction false} PicksOnOneNode(node: string, picks: seq<Pick>, n: string)
    ensures PicksOn(CandidatesAt(node, picks), n) == if n == node then picks else []
  {
    if picks != [] {
      var init := picks[..|picks| - 1];
      PicksOnOneNode(node, init, n);
      assert CandidatesAt(node, picks)[..|init|] == CandidatesAt(node, init);
    }
  }

  /** Adds the candidates of one slice, as the program does. */
  function Extend(s: CandidateSet, node: string, picks: seq<Pick>): CandidateSet {
    if picks == [] then s
    else CandidateSet(if node in s.nodeOrder then s.nodeOrder else s.nodeOrder + [node],
                      s.byNode[node := Group(s, node) + picks])
  }

  lemma ExtendGroups(s: CandidateSet, cs: seq<Candidate>, node: string, picks: seq<Pick>)
    requires Groups(s, cs)
    ensures Groups(Extend(s, node, picks), cs + CandidatesAt(node, picks))
  {
    NodeOrderAppend(cs, node, picks);
    forall n ensures Group(Extend(s, node, picks), n) == PicksOn(cs + CandidatesAt(node, picks), n) {
      PicksOnConcat(cs, CandidatesAt(node, picks), n);
      PicksOnOneNode(node, picks, n);
    }
  }

  method CollectExact(eval: Evaluator, slices: seq<Slice>, pinned: string) returns (r: Outcome<CandidateSet>)
    ensures var scan := ScanBy(eval, ExactSites(slices, pinned));
            if r.Err? then scan == Err(r.failure) else scan.Ok? && Groups(r.value, scan.value)
  {
    var candidates, seen := CandidateSet([], map[]), {};
    ghost var collected: seq<Candidate> := [];
    for i := 0 to |slices|
      invariant ScanBy(eval, ExactSites(slices[..i], pinned)) == Ok(collected)
      invariant Groups(candidates, collected) && seen == KeysOf(collected)
    {
      assert slices[..i + 1][..i] == slices[..i];
      var node := CompatibleNode(slices[i], pinned);
      if Eligible(slices[i]) && node.Some? {
        ScanConcat(eval, [], ExactSites(slices[..i], pinned), DevicesAt(node.value, slices[i]));
        var picks, nowSeen := CollectSlice(eval, node.value, slices[i], seen, collected);
        if picks.Err? {
          ExactSitesGrow(slices, pinned, i + 1);
          EarlyFailure(eval, ExactSites(slices[..i + 1], pinned), ExactSites(slices, pinned));
          return Err(picks.failure);
        }
        ExtendGroups(candidates, collected, node.value, picks.value);
        candidates := Extend(candidates, node.value, picks.value);
        seen := nowSeen;
        collected := collected + CandidatesAt(node.value, picks.value);
      } else {
        assert ExactSites(slices[..i + 1], pinned) == ExactSites(slices[..i], pinned);
      }
    }
    assert slices[..|slices|] == slices;
    return Ok(candidates);
  }

  lemma EarlyFailure(eval: Evaluator, some: seq<Site>, all: seq<Site>)
    requires some <= all && ScanBy(eval, some).Err?
    ensures ScanBy(eval, all) == ScanBy(eval, some)
  {
    ScanConcat(eval, [], some, all[|some|..]);
    assert some + all[|some|..] == all;
  }

  lemma {:induction false} ExactSitesGrow(slices: seq<Slice>, pinned: string, i: nat)
    requires i <= |slices|
    ensures ExactSites(slices[..i], pinned) <= ExactSites(slices, pinned)
  {
    if i < |slices| {
      ExactSitesGrow(slices[..|slices| - 1], pinned, i);
      assert slices[..|slices| - 1][..i] == slices[..i];
    } else {
      assert slices[..i] == slices;
    }
  }

  /** All devices on offer on one node, from the current slices of its complete pools. */
  method CollectAllOn(eval: Evaluator, node: string, slices: seq<Slice>) returns (r: Outcome<seq<Pick>>)
    ensures var current := Pools.CurrentSlices(slices);
            if current.None? then r == Err(Unsupported)
            else ScanBy(eval, HealthySites(node, current.value)) == Placed(node, r)
  {
    var current := Pools.CompleteCurrentPoolSlices(slices);
    if current.None? {
      return Err(Unsupported);
    }
    r := CollectHealthy(eval, node, current.value);
  }

  method CollectHealthy(eval: Evaluator, node: string, slices: seq<Slice>) returns (r: Outcome<seq<Pick>>)
    ensures ScanBy(eval, HealthySites(node, slices)) == Placed(node, r)
  {
    var devices: seq<Pick>, seen := [], {};
    ghost var cs: seq<Candidate> := [];
    for i := 0 to |slices|
      invariant ScanBy(eval, HealthySites(node, slices[..i])) == Ok(cs)
      invariant cs == CandidatesAt(node, devices) && seen == KeysOf(cs)
    {
      HealthySitesNext(node, slices, i);
      if !slices[i].unhealthy {
        ScanConcat(eval, [], HealthySites(node, slices[..i]), DevicesAt(node, slices[i]));
        var picks, nowSeen := CollectSlice(eval, node, slices[i], seen, cs);
        if picks.Err? {
          HealthySitesGrow(node, slices, i + 1);
          EarlyFailure(eval, HealthySites(node, slices[..i + 1]), HealthySites(node, slices));
          return Err(picks.failure);
        }
        CandidatesConcat(node, devices, picks.value);
        devices, seen, cs := devices + picks.value, nowSeen, cs + CandidatesAt(node, picks.value);
      }
    }
    assert slices[..|slices|] == slices;
    return Ok(devices);
  }

  lemma CandidatesConcat(node: string, a: seq<Pick>, b: seq<Pick>)
    ensures CandidatesAt(node, a + b) == CandidatesAt(node, a) + CandidatesAt(node, b)
  {
  }

  lemma HealthySitesNext(node: string, slices: seq<Slice>, i: nat)
    requires i < |slices|
    ensures HealthySites(node, slices[..i + 1]) ==
            HealthySites(node, slices[..i]) + if slices[i].unhealthy then [] else DevicesAt(node, slices[i])
    ensures slices[i].unhealthy ==> HealthySites(node, slices[..i + 1]) == HealthySites(node, slices[..i])
  {
    assert slices[..i + 1][..i] == slices[..i];
  }

  lemma {:induction false} HealthySitesGrow(node: string, slices: seq<Slice>, i: nat)
    requires i <= |slices|
    ensures HealthySites(node, slices[..i]) <= HealthySites(node, slices)
  {
    if i < |slices| {
      HealthySitesGrow(node, slices[..|slices| - 1], i);
      assert slices[..|slices| - 1][..i] == slices[..i];
    } else {
      assert slices[..i] == slices;
    }
  }

  /** Managed slices by node, with the nodes in the order of their first slice. */
  method ManagedByNode(slices: seq<Slice>, pinned: string)
    returns (order: seq<string>, byNode: map<string, seq<Slice>>)
    ensures order == ManagedNodes(slices, pinned)
    ensures forall node | node in order :: node in byNode && byNode[node] == ManagedOn(slices, pinned, node)
  {
    hide ManagedOn, ManagedNodes;
    order, byNode := [], map[];
    NothingManaged(pinned);
    for i := 0 to |slices|
      invariant order == ManagedNodes(slices[..i], pinned)
      invariant forall node :: node in order <==> node in byNode
      invariant forall node :: SlicesOf(byNode, node) == ManagedOn(slices[..i], pinned, node)
    {
      var node := CompatibleNode(slices[i], pinned);
      ghost var before := byNode;
      ManagedNext(slices, pinned, i, "");
      assert node.Some? ==> (node.value in order <==> node.value in byNode);
      if slices[i].managed && node.Some? {
        if node.value !in byNode {
          order := order + [node.value];
        }
        byNode := byNode[node.value := SlicesOf(byNode, node.value) + [slices[i]]];
      }
      forall n
        ensures SlicesOf(byNode, n) == ManagedOn(slices[..i + 1], pinned, n)
      {
        ManagedNext(slices, pinned, i, n);
        assert SlicesOf(before, n) + [] == SlicesOf(before, n);
      }
    }
    assert slices[..|slices|] == slices;
    assert forall node | node in order :: byNode[node] == SlicesOf(byNode, node);
  }

  function SlicesOf(byNode: map<string, seq<Slice>>, node: string): seq<Slice> {
    if node in byNode then byNode[node] else []
  }

  lemma NothingManaged(pinned: string)
    ensures ManagedNodes([], pinned) == [] && forall node :: ManagedOn([], pinned, node) == []
  {
  }

  lemma ManagedNext(slices: seq<Slice>, pinned: string, i: nat, n: string)
    requires i < |slices|
    ensures var node, before := CompatibleNode(slices[i], pinned), ManagedNodes(slices[..i], pinned);
            ManagedNodes(slices[..i + 1], pinned) ==
              if slices[i].managed && node.Some? && node.value !in before then before + [node.value] else before
    ensures ManagedOn(slices[..i + 1], pinned, n) ==
            ManagedOn(slices[..i], pinned, n) +
            if slices[i].managed && CompatibleNode(slices[i], pinned) == Some(n) then [slices[i]] else []
  {
    assert slices[..i + 1][..i] == slices[..i];
  }
}
