/** Values shared by the allocator's modules: the resource.k8s.io/v1 records it reads. */
module Types {

  datatype Option<+T> = None | Some(value: T)

  datatype Outcome<+T> = Ok(value: T) | Err(failure: Failure)

  /** Why planning stopped: the event reasons. */
  datatype Failure = ClassNotFound | NoMatch | SelectorError | Unsupported

  const INT64_MIN: int := -0x8000_0000_0000_0000
  const INT64_MAX: int := 0x7FFF_FFFF_FFFF_FFFF

  /** A whole resource quantity. Sums of quantities are kept as unbounded integers. */
  type Quantity = q: int | INT64_MIN <= q <= INT64_MAX

  type Amounts = map<string, int>

  datatype ValidRange = ValidRange(min: Option<Quantity>, max: Option<Quantity>, step: Option<Quantity>)

  datatype RequestPolicy = RequestPolicy(
    defaultAmount: Option<Quantity>, validValues: seq<Quantity>, validRange: Option<ValidRange>)

  datatype Capacity = Capacity(total: Quantity, policy: Option<RequestPolicy>)

  /** A device attribute; `listed` says that some list-valued field is non-empty. */
  datatype Attribute = Attribute(
    text: Option<string>, number: Option<int>, flag: Option<bool>, version: Option<string>, listed: bool)

  /** `partitioned` says that some field rejected by unsupportedDeviceFailure is set. */
  datatype Device = Device(
    name: string, attributes: map<string, Attribute>, capacity: map<string, Capacity>,
    shareable: bool, partitioned: bool)

  /** `multiNode` says that a node selection other than NodeName, or a shared counter, is set. */
  datatype Slice = Slice(
    managed: bool, unhealthy: bool, driver: string, pool: string, generation: int, sliceCount: int,
    nodeName: Option<string>, multiNode: bool, devices: seq<Device>)

  /** The identity of a device: driver, pool and device name. */
  datatype Key = Key(driver: string, pool: string, device: string)

  /** One entry of a claim's allocation status, as stored. */
  datatype Result = Result(request: string, key: Key, shareID: Option<string>, consumed: Option<Amounts>)

  /** A planned result. A share carries its consumption; its identifier is drawn on commit. */
  datatype Grant = Grant(request: string, key: Key, consumed: Option<Amounts>)

  datatype Pick = Pick(grant: Grant, device: Device)

  datatype Mode = ExactCount | All

  /** A request alternative after validation by SupportedAlternative. */
  datatype Alternative = Alternative(
    requestName: string, className: string, selectors: seq<string>, mode: Mode, count: nat,
    requests: map<string, Quantity>)

  /** What Exactly, or one entry of FirstAvailable, asks for. */
  datatype DeviceSpec = DeviceSpec(
    name: string, className: string, selectors: seq<string>, mode: string, count: int,
    adminAccess: bool, tolerates: bool, requests: map<string, Quantity>)

  datatype Request = Request(name: string, exactly: Option<DeviceSpec>, firstAvailable: seq<DeviceSpec>)

  datatype RawConstraint = RawConstraint(distinctSet: bool, matchAttribute: Option<string>, requests: seq<string>)

  datatype Allocation = Allocation(results: seq<Result>, nodeName: string)

  datatype Claim = Claim(
    name: string, requests: seq<Request>, constraints: seq<RawConstraint>, allocation: Option<Allocation>)

  /** The Kubernetes limit on the number of results of one allocation. */
  const MAX_RESULTS: nat := 32
}
