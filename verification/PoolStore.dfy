/** The stored pools and slices, and what a pool asks of the slices. */
module PoolStore {
  import opened Types
  import opened Decimals
  import FP = FinalizerProtocol

  type Ref = FP.Ref

  datatype PoolSpec = PoolSpec(
    driver: string, pool: string, deviceType: string, deviceCount: int, targetNodes: seq<string>, health: string,
    attributes: map<string, string>, capacities: map<string, Quantity>)

  datatype Status = Status(publishedSlices: seq<string>, activeFaults: seq<string>)

  /** A stored pool; `spec` is None when the object has none. */
  datatype Pool = Pool(
    ref: Ref, uid: nat, finalizers: seq<string>, deleting: bool, spec: Option<PoolSpec>, status: Option<Status>)

  datatype SliceSpec = SliceSpec(
    driver: string, nodeName: string, pool: string, generation: int, sliceCount: int, devices: seq<Device>)

  /** A stored slice: its ownership labels, its health label, the labels besides, and its spec. */
  datatype SliceObject = SliceObject(
    labels: FP.Labels, health: string, others: map<string, string>, spec: SliceSpec)

  const PROJECT: map<string, string> := map["project" := "draforge"]

  /** What the API server keeps: pools, slices and nodes, the versions of pools, and what it draws next. */
  datatype Store = Store(
    pools: map<Ref, Pool>, slices: map<string, SliceObject>, nodes: seq<string>,
    versions: map<Ref, nat>, nextVersion: nat, nextUid: nat)

  function VersionOf(s: Store, ref: Ref): nat {
    if ref in s.versions then s.versions[ref] else 0
  }

  /** An update is accepted only for the version it was derived from. */
  predicate Accepts(s: Store, ref: Ref, version: nat) {
    ref in s.pools && VersionOf(s, ref) == version
  }

  function StoredSlice(s: Store, name: string): Option<SliceObject> {
    if name in s.slices then Some(s.slices[name]) else None
  }

  /** Stores a new version of a pool, or removes it when it is deleting and has no finalizer left. */
  function PutPool(s: Store, p: Pool): Store {
    s.(pools := Replace(s.pools, p.ref, if p.deleting && p.finalizers == [] then None else Some(p)),
       versions := s.versions[p.ref := s.nextVersion], nextVersion := s.nextVersion + 1)
  }

  // ---------- what a pool asks for ----------

  /** The spec with its defaults filled in. */
  function Decode(p: Pool): Option<PoolSpec> {
    if p.spec.None? then None
    else
      var s := p.spec.value;
      Some(s.(pool := if s.pool == "" then p.ref.name else s.pool,
              health := if s.health == "" then "healthy" else s.health,
              attributes := s.attributes["driver" := s.driver]["type" := s.deviceType]))
  }

  function Targets(p: Pool, nodes: seq<string>): seq<string> {
    if p.spec.None? then [] else if p.spec.value.targetNodes != [] then p.spec.value.targetNodes else nodes
  }

  function Dashed(s: string): (r: string)
    ensures |r| == |s| && forall i | 0 <= i < |s| :: r[i] == if s[i] == '.' then '-' else s[i]
  {
    seq(|s|, i requires 0 <= i < |s| => if s[i] == '.' then '-' else s[i])
  }

  function SliceName(ref: Ref, node: string): string {
    Dashed("sim-slice-" + ref.name + "-" + node + "-" + ref.namespace)
  }

  function NamesOf(p: Pool, nodes: seq<string>): set<string> {
    set n | n in Targets(p, nodes) :: SliceName(p.ref, n)
  }

  predicate Disappears(p: Pool) {
    !p.deleting && Decode(p).Some? && Decode(p).value.health == "disappear"
  }

  predicate Publishes(p: Pool) {
    !p.deleting && Decode(p).Some? && Decode(p).value.health != "disappear"
  }

  predicate Finalizes(p: Pool) {
    p.deleting && FP.CLEANUP in p.finalizers
  }

  function DeviceNumber(spec: PoolSpec, i: nat): Device {
    Device("dev-" + Digits(i),
           map k | k in spec.attributes :: Attribute(Some(spec.attributes[k]), None, None, None, false),
           map k | k in spec.capacities :: Capacity(spec.capacities[k], None),
           false, false)
  }

  function DeviceList(spec: PoolSpec, count: int): seq<Device>
    decreases count
  {
    if count <= 0 then [] else DeviceList(spec, count - 1) + [DeviceNumber(spec, count - 1)]
  }

  /** As many devices as asked for, numbered from 0, no two of one name. */
  lemma {:induction false} DevicesNumbered(spec: PoolSpec, count: int)
    ensures var devices := DeviceList(spec, count);
            && |devices| == (if count < 0 then 0 else count)
            && (forall i | 0 <= i < |devices| :: devices[i] == DeviceNumber(spec, i))
            && (forall i, j | 0 <= i < j < |devices| :: devices[i].name != devices[j].name)
  {
    hide DeviceNumber;
    if count > 0 {
      DevicesNumbered(spec, count - 1);
    }
    forall i: nat, j: nat | i < j ensures DeviceNumber(spec, i).name != DeviceNumber(spec, j).name {
      NamesDiffer(spec, i, j);
    }
  }

  lemma NamesDiffer(spec: PoolSpec, i: nat, j: nat)
    requires i != j
    ensures DeviceNumber(spec, i).name != DeviceNumber(spec, j).name
  {
    DigitsInjective(i, j);
    assert ("dev-" + Digits(i))[4..] == Digits(i);
    assert ("dev-" + Digits(j))[4..] == Digits(j);
  }

  function LabelsFor(p: Pool): FP.Labels {
    FP.Labels(true, p.ref, Some(p.uid))
  }

  /** The slice of a publishing pool with so many slices on a node. */
  function SliceOn(p: Pool, node: string, sliceCount: nat): SliceObject
    requires Decode(p).Some?
  {
    var spec := Decode(p).value;
    var count := if spec.health == "capacity-exhausted" then 0 else spec.deviceCount;
    SliceObject(LabelsFor(p), spec.health, PROJECT,
                SliceSpec(spec.driver, node, spec.pool, 1, sliceCount, DeviceList(spec, count)))
  }

  /** The slice a publishing pool wants on a node. */
  function Desired(p: Pool, node: string, nodes: seq<string>): SliceObject
    requires Decode(p).Some?
  {
    SliceOn(p, node, |Targets(p, nodes)|)
  }

  function Published(p: Pool, nodes: seq<string>): seq<string> {
    if Disappears(p) then []
    else seq(|Targets(p, nodes)|, i requires 0 <= i < |Targets(p, nodes)| => SliceName(p.ref, Targets(p, nodes)[i]))
  }

  function StatusOf(p: Pool, nodes: seq<string>): Status
    requires Decode(p).Some?
  {
    Status(Published(p, nodes), if Decode(p).value.health != "healthy" then [Decode(p).value.health] else [])
  }

  function Without(s: seq<string>, x: string): seq<string> {
    if s == [] then [] else Without(s[..|s| - 1], x) + if s[|s| - 1] == x then [] else [s[|s| - 1]]
  }

  lemma {:induction false} WithoutIsWithout(s: seq<string>, x: string)
    ensures forall y :: y in Without(s, x) <==> y in s && y != x
  {
    if s != [] {
      var init, last := s[..|s| - 1], s[|s| - 1];
      assert s == init + [last];
      WithoutIsWithout(init, x);
    }
  }

  /** What a pass makes of a stored pool; None when it goes. */
  function PoolAfter(p: Pool, nodes: seq<string>): Option<Pool> {
    if p.deleting then
      if FP.CLEANUP !in p.finalizers then Some(p)
      else if Without(p.finalizers, FP.CLEANUP) == [] then None
      else Some(p.(finalizers := Without(p.finalizers, FP.CLEANUP)))
    else
      var q := if FP.CLEANUP in p.finalizers then p else p.(finalizers := p.finalizers + [FP.CLEANUP]);
      Some(if Decode(p).Some? then q.(status := Some(StatusOf(p, nodes))) else q)
  }

  function Replace(pools: map<Ref, Pool>, ref: Ref, p: Option<Pool>): map<Ref, Pool> {
    match p
    case None => pools - {ref}
    case Some(q) => pools[ref := q]
  }

  /** A slice belongs to a pool being finalized; `expected` are the names of the pool's slices. */
  predicate Belongs(name: string, o: SliceObject, p: Pool, expected: set<string>) {
    && o.labels.managed
    && if o.labels.uid.Some? then o.labels.uid.value == p.uid && o.labels.ref == p.ref
       else name in expected && o.labels.ref.name == p.ref.name
  }

  predicate Owned(name: string, o: SliceObject, p: Pool, nodes: seq<string>) {
    Belongs(name, o, p, NamesOf(p, nodes))
  }

  // ---------- what the API lists ----------

  /** Every stored pool is listed once, as stored, in any order. */
  ghost predicate Lists(listing: seq<Pool>, pools: map<Ref, Pool>) {
    && (forall i | 0 <= i < |listing| :: listing[i].ref in pools && pools[listing[i].ref] == listing[i])
    && (forall i, j | 0 <= i < j < |listing| :: listing[i].ref != listing[j].ref)
    && (forall ref | ref in pools :: exists i :: 0 <= i < |listing| && listing[i].ref == ref)
  }

  /** Every slice is listed once, as stored. */
  ghost predicate ListsSlices(items: seq<(string, SliceObject)>, slices: map<string, SliceObject>) {
    && (forall i | 0 <= i < |items| :: items[i].0 in slices && items[i].1 == slices[items[i].0])
    && (forall name | name in slices :: (name, slices[name]) in items)
    && (forall i, j | 0 <= i < j < |items| :: items[i].0 != items[j].0)
  }
}
