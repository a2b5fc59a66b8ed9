/** What pools and slices hold after a reconcile pass, told by the specs that users have stored. */
module Contents {
  import opened Types
  import opened Decimals
  import opened PoolStore
  import opened Reconciler
  import FP = FinalizerProtocol

  // ---------- slices ----------

  /** Device number i carries every attribute of the spec, its driver and type, and every capacity. */
  ghost predicate DeviceTold(d: Device, i: nat, spec: PoolSpec) {
    && d.name == "dev-" + Digits(i) && !d.shareable && !d.partitioned
    && d.attributes.Keys == spec.attributes.Keys + {"driver", "type"}
    && (forall k | k in d.attributes ::
          d.attributes[k] == Attribute(Some(if k == "driver" then spec.driver else if k == "type" then spec.deviceType
                                            else spec.attributes[k]), None, None, None, false))
    && d.capacity.Keys == spec.capacities.Keys
    && (forall k | k in d.capacity :: d.capacity[k].total == spec.capacities[k] && d.capacity[k].policy.None?)
  }

  /** The slice of pool p on a node, one of so many. */
  ghost predicate SliceTold(o: SliceObject, p: Pool, spec: PoolSpec, node: string, sliceCount: nat) {
    && o.labels == FP.Labels(true, p.ref, Some(p.uid))
    && o.health == (if spec.health == "" then "healthy" else spec.health)
    && o.others == map["project" := "draforge"]
    && o.spec.driver == spec.driver && o.spec.nodeName == node
    && o.spec.pool == (if spec.pool == "" then p.ref.name else spec.pool)
    && o.spec.generation == 1 && o.spec.sliceCount == sliceCount
    && |o.spec.devices| == (if spec.health == "capacity-exhausted" || spec.deviceCount < 0 then 0 else spec.deviceCount)
    && forall i | 0 <= i < |o.spec.devices| :: DeviceTold(o.spec.devices[i], i, spec)
  }

  /** The nodes the pool is for: those listed in its spec, or else all. */
  ghost predicate For(p: Pool, nodes: seq<string>, targets: seq<string>) {
    p.spec.Some? && targets == if |p.spec.value.targetNodes| > 0 then p.spec.value.targetNodes else nodes
  }

  /** A live pool with a spec has a slice on every one of its nodes, or none at all when it is to disappear. */
  ghost predicate PoolsSlicesTold(s: Store, p: Pool) {
    forall targets, node | !p.deleting && For(p, s.nodes, targets) && node in targets ::
      var name := SliceName(p.ref, node);
      if p.spec.value.health == "disappear" then name !in s.slices
      else name in s.slices && SliceTold(s.slices[name], p, p.spec.value, node, |targets|)
  }

  lemma DeviceIsTold(p: Pool, i: nat)
    requires Decode(p).Some?
    ensures DeviceTold(DeviceNumber(Decode(p).value, i), i, p.spec.value)
  {
  }

  lemma DesiredIsTold(p: Pool, node: string, nodes: seq<string>)
    requires Decode(p).Some?
    ensures SliceTold(Desired(p, node, nodes), p, p.spec.value, node, |Targets(p, nodes)|)
  {
    hide DeviceTold, DeviceNumber;
    var spec := Decode(p).value;
    var count := if spec.health == "capacity-exhausted" then 0 else spec.deviceCount;
    DevicesNumbered(spec, count);
    forall i: nat { DeviceIsTold(p, i); }
  }

  /** Slices that are as the pool wants them hold what its spec says. */
  lemma WantedIsTold(s: Store, p: Pool)
    requires SlicesAsWanted(s, p)
    ensures PoolsSlicesTold(s, p)
  {
    hide SliceTold, SliceName, Desired;
    forall targets, node | !p.deleting && For(p, s.nodes, targets) && node in targets
      ensures var name := SliceName(p.ref, node);
              if p.spec.value.health == "disappear" then name !in s.slices
              else name in s.slices && SliceTold(s.slices[name], p, p.spec.value, node, |targets|)
    {
      assert targets == Targets(p, s.nodes);
      if p.spec.value.health == "disappear" {
        assert Disappears(p) && SliceName(p.ref, node) in NamesOf(p, s.nodes);
      } else {
        assert Publishes(p);
        DesiredIsTold(p, node, s.nodes);
      }
    }
  }

  // ---------- wishes ----------

  /** The pool has a slice name for every one of its nodes, and its health says whether slices are published there. */
  lemma WishesTold(p: Pool, nodes: seq<string>, targets: seq<string>)
    requires For(p, nodes, targets)
    ensures forall name :: name in NamesOf(p, nodes) <==> exists n | n in targets :: name == SliceName(p.ref, n)
    ensures Publishes(p) <==> !p.deleting && p.spec.value.health != "disappear"
    ensures Disappears(p) <==> !p.deleting && p.spec.value.health == "disappear"
    ensures Finalizes(p) <==> p.deleting && "draforge.oaslananka/resourceslice-cleanup" in p.finalizers
  {
  }

  /** What a pool being finalized owns: managed slices with its uid and reference, or of old under its names. */
  lemma OwnedTold(name: string, o: SliceObject, p: Pool, nodes: seq<string>, targets: seq<string>)
    requires For(p, nodes, targets)
    ensures Owned(name, o, p, nodes) <==>
            && o.labels.managed
            && ((o.labels.uid == Some(p.uid) && o.labels.ref == p.ref)
                || (o.labels.uid == None && o.labels.ref.name == p.ref.name
                    && exists n | n in targets :: name == SliceName(p.ref, n)))
  {
    WishesTold(p, nodes, targets);
  }

  // ---------- names ----------

  /** Without dots and dashes in names, a slice name identifies the pool and the node. */
  lemma SliceNamesIdentify(a: FP.Ref, m: string, b: FP.Ref, n: string)
    requires forall s | s in [a.name, a.namespace, b.name, b.namespace, m, n] :: '.' !in s && '-' !in s
    requires SliceName(a, m) == SliceName(b, n)
    ensures a == b && m == n
  {
    NameOfPlain(a, m);
    NameOfPlain(b, n);
    var x, y := SliceName(a, m), SliceName(b, n);
    assert x[10..] == a.name + "-" + (m + "-" + a.namespace) && y[10..] == b.name + "-" + (n + "-" + b.namespace);
    CutsAtDash(a.name, m + "-" + a.namespace, b.name, n + "-" + b.namespace);
    CutsAtDash(m, a.namespace, n, b.namespace);
  }

  lemma NameOfPlain(a: FP.Ref, m: string)
    requires forall s | s in [a.name, a.namespace, m] :: '.' !in s
    ensures SliceName(a, m) == "sim-slice-" + (a.name + "-" + (m + "-" + a.namespace))
  {
    var parts := [a.name, a.namespace, m];
    assert a.name in parts && a.namespace in parts && m in parts;
  }

  lemma {:induction false} CutsAtDash(a: string, s: string, b: string, t: string)
    requires '-' !in a && '-' !in b && a + "-" + s == b + "-" + t
    ensures a == b && s == t
  {
    var x, y := a + "-" + s, b + "-" + t;
    if a == "" || b == "" {
      assert x[0] == y[0];
      assert x[1..] == y[1..];
    } else {
      assert x[0] == y[0] && x[1..] == a[1..] + "-" + s && y[1..] == b[1..] + "-" + t;
      CutsAtDash(a[1..], s, b[1..], t);
      assert a == [a[0]] + a[1..] && b == [b[0]] + b[1..];
    }
  }

  // ---------- pools ----------

  /** `now` is `was` without the string f, in the same order. */
  ghost predicate OthersInOrder(was: seq<string>, now: seq<string>, f: string)
  {
    if was == [] then now == []
    else if was[0] == f then OthersInOrder(was[1..], now, f)
    else now != [] && now[0] == was[0] && OthersInOrder(was[1..], now[1..], f)
  }

  lemma {:induction false} WithoutConcat(a: seq<string>, b: seq<string>, f: string)
    ensures Without(a + b, f) == Without(a, f) + Without(b, f)
  {
    if b == [] {
      assert a + b == a;
    } else {
      var init, last := b[..|b| - 1], b[|b| - 1];
      assert (a + b)[..|a + b| - 1] == a + init && (a + b)[|a + b| - 1] == last;
      WithoutConcat(a, init, f);
    }
  }

  lemma {:induction false} WithoutKeepsOrder(was: seq<string>, f: string)
    ensures OthersInOrder(was, Without(was, f), f)
  {
    if was != [] {
      WithoutConcat([was[0]], was[1..], f);
      assert [was[0]] + was[1..] == was;
      WithoutKeepsOrder(was[1..], f);
      assert [was[0]][..0] == [] && Without([], f) == [];
      var now, rest := Without(was, f), Without(was[1..], f);
      assert now == if was[0] == f then rest else [was[0]] + rest;
      assert was[0] != f ==> now[1..] == rest;
    }
  }

  /** The names published, in the order of the nodes, and the health unless it is good. */
  ghost predicate StatusTold(status: Status, p: Pool, spec: PoolSpec, targets: seq<string>) {
    && |status.publishedSlices| == (if spec.health == "disappear" then 0 else |targets|)
    && (forall i | 0 <= i < |status.publishedSlices| :: status.publishedSlices[i] == SliceName(p.ref, targets[i]))
    && status.activeFaults == if spec.health == "" || spec.health == "healthy" then [] else [spec.health]
  }

  /** A live pool keeps its identity and spec, gets the finalizer behind the others, and its status. */
  ghost predicate LiveTold(q: Pool, p: Pool, nodes: seq<string>) {
    && q.ref == p.ref && q.uid == p.uid && !q.deleting && q.spec == p.spec
    && q.finalizers == (if FP.CLEANUP in p.finalizers then p.finalizers else p.finalizers + [FP.CLEANUP])
    && (p.spec.None? ==> q.status == p.status)
    && forall targets | For(p, nodes, targets) ::
         q.status.Some? && StatusTold(q.status.value, p, p.spec.value, targets)
  }

  /** A deleting pool loses the finalizer and nothing else, and goes when it has no other. */
  ghost predicate DeletingTold(q: Option<Pool>, p: Pool) {
    if FP.CLEANUP !in p.finalizers then q == Some(p)
    else if forall f | f in p.finalizers :: f == FP.CLEANUP then q == None
    else q.Some? && q.value == p.(finalizers := q.value.finalizers)
         && OthersInOrder(p.finalizers, q.value.finalizers, FP.CLEANUP)
  }

  /** What is stored under the pool's reference after the pass. */
  ghost predicate PoolTold(q: Option<Pool>, p: Pool, nodes: seq<string>) {
    if p.deleting then DeletingTold(q, p) else q.Some? && LiveTold(q.value, p, nodes)
  }

  lemma PoolAfterIsTold(p: Pool, nodes: seq<string>)
    ensures PoolTold(PoolAfter(p, nodes), p, nodes)
  {
    hide SliceName;
    if p.deleting {
      WithoutKeepsOrder(p.finalizers, FP.CLEANUP);
      WithoutIsWithout(p.finalizers, FP.CLEANUP);
      var rest := Without(p.finalizers, FP.CLEANUP);
      if rest != [] {
        assert rest[0] in rest;
      }
      if f :| f in p.finalizers && f != FP.CLEANUP {
        assert f in rest;
      }
    }
  }

  // ---------- a whole store ----------

  function StoredPool(s: Store, ref: FP.Ref): Option<Pool> {
    if ref in s.pools then Some(s.pools[ref]) else None
  }

  /** Some live pool is to have a slice of this name. */
  ghost predicate SomeoneHas(listing: seq<Pool>, nodes: seq<string>, name: string) {
    exists i, targets, node | 0 <= i < |listing| && !listing[i].deleting && For(listing[i], nodes, targets) ::
      listing[i].spec.value.health != "disappear" && node in targets && name == SliceName(listing[i].ref, node)
  }

  /** Every pool listed has come to what it should, no pool is new, and every managed slice is some live pool's. */
  ghost predicate PoolsTold(before: Store, after: Store, listing: seq<Pool>) {
    && (forall p | p in listing :: PoolTold(StoredPool(after, p.ref), p, after.nodes))
    && (forall ref | ref in after.pools :: ref in before.pools)
    && (forall name | name in after.slices && after.slices[name].labels.managed ::
          SomeoneHas(listing, after.nodes, name))
  }

  // ---------- faults ----------

  /** The numbers of the live pools listed whose spec says that they are not healthy. */
  ghost function Unhealthy(listing: seq<Pool>): set<nat> {
    set i: nat | i < |listing| && !listing[i].deleting && listing[i].spec.Some?
                 && listing[i].spec.value.health != "" && listing[i].spec.value.health != "healthy"
  }
}
