/** Which devices are looked at, and in which order, told by the slices. */
module Sites {
  import opened Types
  import opened Candidates
  import Plans
  import Pools

  /** Once a node is pinned, slices of other nodes are out, and those that name no node stand for it. */
  ghost predicate StandsFor(s: Slice, pinned: string, node: string) {
    var own := if s.nodeName.Some? then s.nodeName.value else "";
    if pinned == "" then node == own else node == pinned && (own == "" || own == pinned)
  }

  lemma StandsExactly(s: Slice, pinned: string, node: string)
    ensures CompatibleNode(s, pinned) == Some(node) <==> StandsFor(s, pinned, node)
  {
  }

  lemma {:induction false} ExactSitesHave(slices: seq<Slice>, pinned: string, s: Site)
    requires s.slice in slices && Eligible(s.slice) && s.device in s.slice.devices
    requires CompatibleNode(s.slice, pinned) == Some(s.node)
    ensures s in ExactSites(slices, pinned)
  {
    var last := |slices| - 1;
    if s.slice == slices[last] {
      var i :| 0 <= i < |s.slice.devices| && s.slice.devices[i] == s.device;
      assert DevicesAt(s.node, s.slice)[i] == s;
    } else {
      assert slices == slices[..last] + [slices[last]];
      ExactSitesHave(slices[..last], pinned, s);
    }
  }

  /** An ExactCount alternative looks at the devices of all healthy managed slices that are not of other nodes. */
  lemma ExactSitesExactly(slices: seq<Slice>, pinned: string, s: Site)
    ensures s in ExactSites(slices, pinned) <==>
            && s.slice in slices && s.slice.managed && !s.slice.unhealthy && s.device in s.slice.devices
            && StandsFor(s.slice, pinned, s.node)
  {
    hide ExactSites;
    StandsExactly(s.slice, pinned, s.node);
    if s in ExactSites(slices, pinned) { Plans.ExactSiteOrigin(slices, pinned, s); }
    if s.slice in slices && Eligible(s.slice) && s.device in s.slice.devices && StandsFor(s.slice, pinned, s.node) {
      ExactSitesHave(slices, pinned, s);
    }
  }

  lemma {:induction false} ManagedHas(slices: seq<Slice>, pinned: string, node: string, s: Slice)
    ensures s in ManagedOn(slices, pinned, node) <==> s in slices && s.managed && StandsFor(s, pinned, node)
  {
    if slices != [] {
      var last := |slices| - 1;
      assert slices == slices[..last] + [slices[last]];
      ManagedHas(slices[..last], pinned, node, s);
      StandsExactly(slices[last], pinned, node);
    }
  }

  lemma {:induction false} HealthyHas(node: string, slices: seq<Slice>, s: Site)
    ensures s in HealthySites(node, slices) <==>
            s.node == node && s.slice in slices && !s.slice.unhealthy && s.device in s.slice.devices
  {
    if slices != [] {
      var last := |slices| - 1;
      assert slices == slices[..last] + [slices[last]];
      HealthyHas(node, slices[..last], s);
      if s.slice == slices[last] && s.device in s.slice.devices && s.node == node {
        var i :| 0 <= i < |s.slice.devices| && s.slice.devices[i] == s.device;
        assert DevicesAt(node, s.slice)[i] == s;
      }
    }
  }

  /** No managed slice of the same pool that stands for the node has a newer generation. */
  ghost predicate NewestThere(slices: seq<Slice>, pinned: string, node: string, s: Slice) {
    forall t | t in slices && t.managed && StandsFor(t, pinned, node) && t.driver == s.driver && t.pool == s.pool ::
      t.generation <= s.generation
  }

  /** An All alternative looks at the healthy devices in the newest generation of every pool of the node. */
  lemma AllSitesExactly(slices: seq<Slice>, pinned: string, node: string, s: Site)
    requires AllSites(slices, pinned, node).Some?
    ensures s in AllSites(slices, pinned, node).value <==>
            && s.node == node && s.slice in slices && s.slice.managed && !s.slice.unhealthy
            && s.device in s.slice.devices && StandsFor(s.slice, pinned, node)
            && NewestThere(slices, pinned, node, s.slice)
  {
    hide StandsFor;
    var here := ManagedOn(slices, pinned, node);
    HealthyHas(node, Pools.CurrentSlices(here).value, s);
    Pools.CurrentSlicesExact(here, s.slice);
    forall t ensures t in here <==> t in slices && t.managed && StandsFor(t, pinned, node) {
      ManagedHas(slices, pinned, node, t);
    }
  }

  // ---------- the order of nodes ----------

  ghost predicate FirstWithNode(cs: seq<Candidate>, node: string, i: nat) {
    i < |cs| && cs[i].node == node && forall j | 0 <= j < i :: cs[j].node != node
  }

  /** Nodes are preferred in the order of their first candidates. */
  lemma {:induction false} NodeOrderAppears(cs: seq<Candidate>, a: nat, b: nat) returns (i: nat, j: nat)
    requires a <= b < |NodeOrder(cs)|
    ensures FirstWithNode(cs, NodeOrder(cs)[a], i) && FirstWithNode(cs, NodeOrder(cs)[b], j)
    ensures i <= j && (a < b ==> i < j)
  {
    var n := |cs| - 1;
    var before := NodeOrder(cs[..n]);
    if b < |before| {
      i, j := NodeOrderAppears(cs[..n], a, b);
    } else {
      NodeOrderCovers(cs[..n], cs[n].node);
      j := n;
      if a < b {
        var last;
        i, last := NodeOrderAppears(cs[..n], a, a);
      } else {
        i := n;
      }
    }
  }

  ghost predicate FirstFor(slices: seq<Slice>, pinned: string, node: string, i: nat) {
    && i < |slices| && slices[i].managed && StandsFor(slices[i], pinned, node)
    && forall j | 0 <= j < i :: !(slices[j].managed && StandsFor(slices[j], pinned, node))
  }

  /** For All, nodes are visited in the order of their first managed slices. */
  lemma {:induction false} ManagedNodesAppear(slices: seq<Slice>, pinned: string, a: nat, b: nat)
    returns (i: nat, j: nat)
    requires a <= b < |ManagedNodes(slices, pinned)|
    ensures FirstFor(slices, pinned, ManagedNodes(slices, pinned)[a], i)
    ensures FirstFor(slices, pinned, ManagedNodes(slices, pinned)[b], j)
    ensures i <= j && (a < b ==> i < j)
  {
    hide StandsFor;
    var n := |slices| - 1;
    var before := ManagedNodes(slices[..n], pinned);
    if b < |before| {
      i, j := ManagedNodesAppear(slices[..n], pinned, a, b);
    } else {
      var node := CompatibleNode(slices[n], pinned).value;
      NotManagedBefore(slices[..n], pinned, node);
      StandsExactly(slices[n], pinned, node);
      j := n;
      if a < b {
        var last;
        i, last := ManagedNodesAppear(slices[..n], pinned, a, a);
      } else {
        i := n;
      }
    }
  }

  lemma {:induction false} NotManagedBefore(slices: seq<Slice>, pinned: string, node: string)
    ensures node in ManagedNodes(slices, pinned) <==>
            exists s | s in slices :: s.managed && StandsFor(s, pinned, node)
  {
    if slices != [] {
      var last := |slices| - 1;
      assert slices == slices[..last] + [slices[last]];
      NotManagedBefore(slices[..last], pinned, node);
      StandsExactly(slices[last], pinned, node);
    }
  }
}
