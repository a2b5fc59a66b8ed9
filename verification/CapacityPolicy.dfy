/** Consumable capacity: policy validation, rounding in int64 arithmetic, and the fit decision. */
module CapacityPolicy {
  import opened Types

  // ---------- int64 arithmetic ----------

  const TWO_64: int := 0x1_0000_0000_0000_0000

  /** Two's-complement wrap-around. */
  function Wrap(x: int): (r: Quantity)
    ensures INT64_MIN <= x <= INT64_MAX ==> r == x
    ensures INT64_MAX < x <= INT64_MAX + TWO_64 ==> r == x - TWO_64
  {
    (x - INT64_MIN) % TWO_64 + INT64_MIN
  }

  /** Division as the source language does it: truncated toward zero. */
  function TruncDiv(a: int, b: int): int
    requires b != 0
  {
    if a >= 0 then a / b else -((-a) / b)
  }

  function TruncMod(a: int, b: int): int
    requires b != 0
  {
    a - b * TruncDiv(a, b)
  }

  // ---------- validation ----------

  const MAX_VALID_VALUES := 10

  predicate WithinRange(v: int, r: ValidRange)
    requires r.min.Some?
  {
    r.min.value <= v && (r.max.Some? ==> v <= r.max.value)
  }

  predicate AlignedToRange(v: Quantity, r: ValidRange)
    requires r.min.Some? && (r.step.Some? ==> r.step.value != 0)
  {
    r.step.Some? ==> TruncMod(Wrap(v - r.min.value), r.step.value) == 0
  }

  predicate ValidValues(values: seq<Quantity>, total: Quantity, defaultAmount: Option<Quantity>)
  {
    && |values| <= MAX_VALID_VALUES
    && defaultAmount.Some? && defaultAmount.value in values
    && (forall i | 0 <= i < |values| :: 0 <= values[i] <= total)
    && (forall i, j | 0 <= i < j < |values| :: values[i] < values[j])
  }

  predicate ValidBounds(r: ValidRange, total: Quantity, defaultAmount: Quantity)
    requires r.min.Some?
  {
    && 0 <= r.min.value <= total
    && (r.max.Some? ==> r.min.value <= r.max.value <= total)
    && WithinRange(defaultAmount, r)
  }

  predicate ValidStep(r: ValidRange, total: Quantity, defaultAmount: Quantity)
    requires r.min.Some?
  {
    r.step.Some? ==>
      && r.step.value > 0
      && r.min.value + r.step.value <= total
      && AlignedToRange(defaultAmount, r)
      && (r.max.Some? ==> AlignedToRange(r.max.value, r))
  }

  /** The capacities that pass validation. */
  predicate ValidCapacity(c: Capacity)
  {
    && c.total >= 0
    && (c.policy.Some? ==>
          var p := c.policy.value;
          && !(p.validValues != [] && p.validRange.Some?)
          && (p.validValues != [] ==> ValidValues(p.validValues, c.total, p.defaultAmount))
          && (p.validRange.Some? ==>
                && p.validRange.value.min.Some? && p.defaultAmount.Some?
                && ValidBounds(p.validRange.value, c.total, p.defaultAmount.value)
                && ValidStep(p.validRange.value, c.total, p.defaultAmount.value))
          && (p.validValues == [] && p.validRange.None? && p.defaultAmount.Some? ==>
                0 <= p.defaultAmount.value <= c.total))
  }

  /** The scan that compares only neighbours decides strict sortedness of the whole list. */
  method ValidateValidValues(values: seq<Quantity>, total: Quantity, defaultAmount: Option<Quantity>)
    returns (ok: bool)
    ensures ok <==> ValidValues(values, total, defaultAmount)
  {
    if |values| > MAX_VALID_VALUES || defaultAmount.None? {
      return false;
    }
    var defaultFound := false;
    for i := 0 to |values|
      invariant forall k | 0 <= k < i :: 0 <= values[k] <= total
      invariant forall j, k | 0 <= j < k < i :: values[j] < values[k]
      invariant defaultFound <==> defaultAmount.value in values[..i]
    {
      if values[i] < 0 || values[i] > total {
        return false;
      }
      if i > 0 && values[i - 1] >= values[i] {
        return false;
      }
      if values[i] == defaultAmount.value {
        defaultFound := true;
      }
    }
    assert values[..|values|] == values;
    return defaultFound;
  }

  /** v lies a whole number of steps above the minimum. */
  ghost predicate OnStep(v: int, min: int, step: int) {
    exists k: nat :: v == min + k * step
  }

  /** What a policy has to say about a capacity of this total, in plain arithmetic. */
  ghost predicate SoundPolicy(p: RequestPolicy, total: int) {
    if p.validValues != [] then
      && p.validRange.None? && |p.validValues| <= 10
      && p.defaultAmount.Some? && p.defaultAmount.value in p.validValues
      && (forall i | 0 <= i < |p.validValues| :: 0 <= p.validValues[i] <= total)
      && (forall i, j | 0 <= i < j < |p.validValues| :: p.validValues[i] < p.validValues[j])
    else if p.validRange.Some? then
      var r := p.validRange.value;
      && r.min.Some? && p.defaultAmount.Some?
      && 0 <= r.min.value <= p.defaultAmount.value && r.min.value <= total
      && (r.max.Some? ==> p.defaultAmount.value <= r.max.value <= total)
      && (r.step.Some? ==>
            && r.step.value > 0 && r.min.value + r.step.value <= total
            && OnStep(p.defaultAmount.value, r.min.value, r.step.value)
            && (r.max.Some? ==> OnStep(r.max.value, r.min.value, r.step.value)))
    else p.defaultAmount.Some? ==> 0 <= p.defaultAmount.value <= total
  }

  /** Exactly the sound policies of non-negative capacities pass validation. */
  lemma ValidIffSound(c: Capacity)
    ensures ValidCapacity(c) <==> c.total >= 0 && (c.policy.Some? ==> SoundPolicy(c.policy.value, c.total))
  {
    hide OnStep, AlignedToRange;
    if c.policy.Some? && c.policy.value.validRange.Some? {
      SteppedIffOnStep(c.policy.value, c.policy.value.validRange.value);
    }
  }

  lemma SteppedIffOnStep(p: RequestPolicy, r: ValidRange)
    requires p.validRange == Some(r)
    ensures r.min.Some? && r.min.value >= 0 && r.step.Some? && r.step.value > 0 ==>
              && (p.defaultAmount.Some? && r.min.value <= p.defaultAmount.value ==>
                    (AlignedToRange(p.defaultAmount.value, r) <==>
                       OnStep(p.defaultAmount.value, r.min.value, r.step.value)))
              && (r.max.Some? && r.min.value <= r.max.value ==>
                    (AlignedToRange(r.max.value, r) <==> OnStep(r.max.value, r.min.value, r.step.value)))
  {
    if r.min.Some? && r.min.value >= 0 && r.step.Some? && r.step.value > 0 {
      if p.defaultAmount.Some? && r.min.value <= p.defaultAmount.value { AlignedIffOnStep(p.defaultAmount.value, r); }
      if r.max.Some? && r.min.value <= r.max.value { AlignedIffOnStep(r.max.value, r); }
    }
  }

  lemma AlignedIffOnStep(v: Quantity, r: ValidRange)
    requires r.min.Some? && r.step.Some? && r.step.value > 0 && 0 <= r.min.value <= v
    ensures AlignedToRange(v, r) <==> OnStep(v, r.min.value, r.step.value)
  {
    var m, s := r.min.value, r.step.value;
    TruncIsFloor(v - m, s);
    if AlignedToRange(v, r) {
      assert v == m + ((v - m) / s) * s;
    }
    if k: nat :| v == m + k * s {
      MultipleIsAligned(k, s);
    }
  }

  // ---------- rounding ----------

  /** The first of the ascending values that covers the request. */
  function FirstCovering(values: seq<Quantity>, requested: Quantity): Option<Quantity>
  {
    if values == [] then None
    else if requested <= values[0] then Some(values[0])
    else FirstCovering(values[1..], requested)
  }

  /** Rounds up to the range, in int64 arithmetic, as the program computes it. */
  function RoundToRange(requested: Quantity, r: ValidRange): Option<Quantity>
    requires r.min.Some? && (r.step.Some? ==> r.step.value != 0)
  {
    if requested < r.min.value then Some(r.min.value)
    else if r.step.None? then
      if WithinRange(requested, r) then Some(requested) else None
    else
      var span, step := Wrap(requested - r.min.value), r.step.value;
      var whole := Wrap(TruncDiv(span, step));
      var steps := if TruncMod(span, step) != 0 then Wrap(whole + 1) else whole;
      var rounded := Wrap(r.min.value + Wrap(steps * step));
      if WithinRange(rounded, r) then Some(rounded) else None
  }

  /** The amount a share consumes, or None when the request is not eligible. */
  function Consumed(c: Capacity, requested: Option<Quantity>): Option<Quantity>
    requires ValidCapacity(c)
  {
    if requested.None? then
      if c.policy.Some? && c.policy.value.defaultAmount.Some? then c.policy.value.defaultAmount
      else Some(c.total)
    else if c.policy.None? then requested
    else if c.policy.value.validValues != [] then FirstCovering(c.policy.value.validValues, requested.value)
    else if c.policy.value.validRange.Some? then RoundToRange(requested.value, c.policy.value.validRange.value)
    else requested
  }

  // ---------- rounding is the closure operator of the allowed values ----------

  /** The amounts a policy lets a share consume, without reference to any rounding. */
  predicate Allowed(c: Capacity, v: int)
    requires ValidCapacity(c)
  {
    if c.policy.None? then true
    else if c.policy.value.validValues != [] then v in c.policy.value.validValues
    else if c.policy.value.validRange.Some? then
      var r := c.policy.value.validRange.value;
      WithinRange(v, r) && (r.step.Some? ==> (v - r.min.value) % r.step.value == 0)
    else true
  }

  /** v is the least allowed amount that covers the request. */
  ghost predicate LeastAllowed(c: Capacity, requested: int, v: int)
    requires ValidCapacity(c)
  {
    requested <= v && Allowed(c, v) && forall w: int | Allowed(c, w) && requested <= w :: v <= w
  }

  function CeilSteps(d: nat, s: int): nat
    requires s > 0
  {
    if d % s != 0 then d / s + 1 else d / s
  }

  lemma CeilStepsBounds(d: nat, s: int)
    requires s > 0
    ensures d <= CeilSteps(d, s) * s < d + s
    ensures CeilSteps(d, s) <= d
  {
    var q := d / s;
    assert d == q * s + d % s;
    assert (q + 1) * s == q * s + s;
    if CeilSteps(d, s) > d { MulMonotone(1, s, d); }
  }

  lemma CeilStepsLeast(d: nat, s: int, e: nat)
    requires s > 0 && e % s == 0 && d <= e
    ensures CeilSteps(d, s) * s <= e
  {
    var k, q := CeilSteps(d, s), e / s;
    CeilStepsBounds(d, s);
    assert e == q * s;
    assert (k - 1) * s == k * s - s;
    if q < k {
      MulMonotone(q, k - 1, s);
    } else {
      MulMonotone(k, q, s);
    }
  }

  lemma MulMonotone(a: int, b: int, s: int)
    requires a <= b && s >= 0
    ensures a * s <= b * s
  {
  }

  lemma MultipleIsAligned(k: int, s: int)
    requires s > 0
    ensures (k * s) % s == 0
  {
    var q, r := (k * s) / s, (k * s) % s;
    assert (k - q) * s == r;
    if k > q { MulMonotone(1, k - q, s); } else if k < q { MulMonotone(k - q, -1, s); }
  }

  lemma TruncIsFloor(a: nat, s: int)
    requires s > 0
    ensures TruncDiv(a, s) == a / s && TruncMod(a, s) == a % s
  {
  }

  /** The rounded value without any bound on integers. */
  function IdealRound(requested: int, r: ValidRange): int
    requires r.min.Some? && r.step.Some? && r.step.value > 0 && r.min.value <= requested
  {
    r.min.value + CeilSteps(requested - r.min.value, r.step.value) * r.step.value
  }

  /** When the true rounded value leaves int64 the machine's value is negative, hence rejected. */
  lemma RoundToRangeWraps(requested: Quantity, r: ValidRange)
    requires r.min.Some? && r.step.Some? && r.step.value > 0
    requires 0 <= r.min.value <= requested
    ensures var t := IdealRound(requested, r);
            RoundToRange(requested, r) ==
              if t <= INT64_MAX && (r.max.Some? ==> t <= r.max.value) then Some(t) else None
  {
    var d, s := requested - r.min.value, r.step.value;
    TruncIsFloor(d, s);
    CeilStepsBounds(d, s);
    var k := CeilSteps(d, s);
    StepsFit(d, s);
    WrapAbsorbs(r.min.value, k * s);
    hide Wrap, CeilSteps, TruncDiv, TruncMod;
    WrapDetects(r.min.value + k * s, r.min.value, s);
  }

  /** A sum short of twice the range of int64 wraps to itself or to a negative value. */
  lemma WrapDetects(t: int, m: Quantity, s: Quantity)
    requires 0 <= m && 0 < s && 0 <= t < INT64_MAX + s
    ensures if t <= INT64_MAX then Wrap(t) == t else Wrap(t) < 0
  {
  }

  lemma StepsFit(d: nat, s: int)
    requires s > 0 && d <= INT64_MAX
    ensures Wrap(d) == d && Wrap(d / s) == d / s
    ensures (if d % s != 0 then Wrap(d / s + 1) else d / s) == CeilSteps(d, s)
  {
  }

  lemma WrapAbsorbs(m: int, x: int)
    ensures Wrap(m + Wrap(x)) == Wrap(m + x)
  {
  }

  lemma {:induction false} FirstCoveringIsLeast(values: seq<Quantity>, requested: Quantity)
    requires forall i, j | 0 <= i < j < |values| :: values[i] < values[j]
    ensures var v := FirstCovering(values, requested);
            if v.None? then forall w | w in values :: w < requested
            else requested <= v.value && v.value in values && forall w | w in values && requested <= w :: v.value <= w
  {
    if values != [] && values[0] < requested {
      FirstCoveringIsLeast(values[1..], requested);
      assert values == [values[0]] + values[1..];
    }
  }

  /**
   * Rounding yields the least allowed amount covering the request; a request is refused exactly
   * when no representable allowed amount covers it.
   */
  lemma RoundingIsLeastAllowed(c: Capacity, requested: Quantity)
    requires ValidCapacity(c)
    ensures var v := Consumed(c, Some(requested));
            if v.Some? then LeastAllowed(c, requested, v.value)
            else forall w: Quantity | Allowed(c, w) :: w < requested
  {
    if c.policy.Some? {
      var p := c.policy.value;
      if p.validValues != [] {
        FirstCoveringIsLeast(p.validValues, requested);
      } else if p.validRange.Some? {
        var r := p.validRange.value;
        if r.step.Some? {
          RangeStepIsLeast(c, requested);
        }
      }
    }
  }

  lemma RangeStepIsLeast(c: Capacity, requested: Quantity)
    requires ValidCapacity(c) && c.policy.Some? && c.policy.value.validRange.Some?
    requires c.policy.value.validRange.value.step.Some?
    ensures var v := Consumed(c, Some(requested));
            if v.Some? then LeastAllowed(c, requested, v.value)
            else forall w: Quantity | Allowed(c, w) :: w < requested
  {
    var r := c.policy.value.validRange.value;
    var m, s := r.min.value, r.step.value;
    if m <= requested {
      RoundToRangeWraps(requested, r);
      forall w: int | Allowed(c, w) && requested <= w
        ensures IdealRound(requested, r) <= w
      {
        CeilStepsLeast(requested - m, s, w - m);
      }
      CeilStepsBounds(requested - m, s);
      MultipleIsAligned(CeilSteps(requested - m, s), s);
    } else {
      assert 0 % s == 0;
    }
  }

  /** The default is allowed, so a request for it is granted as it stands. */
  lemma DefaultIsFixedPoint(c: Capacity)
    requires ValidCapacity(c) && c.policy.Some? && c.policy.value.defaultAmount.Some?
    ensures Allowed(c, c.policy.value.defaultAmount.value)
    ensures Consumed(c, c.policy.value.defaultAmount) == c.policy.value.defaultAmount
    ensures Consumed(c, None) == c.policy.value.defaultAmount
  {
    var d := c.policy.value.defaultAmount.value;
    if c.policy.value.validRange.Some? && c.policy.value.validRange.value.step.Some? {
      var r := c.policy.value.validRange.value;
      TruncIsFloor(d - r.min.value, r.step.value);
    }
    assert Allowed(c, d);
    RoundingIsLeastAllowed(c, d);
    assert Consumed(c, Some(d)).Some?;
  }

  lemma RoundingIdempotent(c: Capacity, requested: Quantity)
    requires ValidCapacity(c) && Consumed(c, Some(requested)).Some?
    ensures Consumed(c, Consumed(c, Some(requested))) == Consumed(c, Some(requested))
  {
    RoundingIsLeastAllowed(c, requested);
    RoundingIsLeastAllowed(c, Consumed(c, Some(requested)).value);
  }

  lemma RoundingMonotone(c: Capacity, a: Quantity, b: Quantity)
    requires ValidCapacity(c) && a <= b && Consumed(c, Some(b)).Some?
    ensures Consumed(c, Some(a)).Some? && Consumed(c, Some(a)).value <= Consumed(c, Some(b)).value
  {
    RoundingIsLeastAllowed(c, a);
    RoundingIsLeastAllowed(c, b);
  }

  // ---------- the fit of one capacity ----------

  predicate Exceeded(total: int, committed: int, pending: int, additional: int)
  {
    committed + pending + additional > total
  }

  predicate Fits(c: Capacity, requested: Option<Quantity>, committed: int, pending: int)
    requires ValidCapacity(c)
  {
    Consumed(c, requested).Some? && !Exceeded(c.total, committed, pending, Consumed(c, requested).value)
  }

  /**
   * The decision made in wrapping arithmetic is the mathematical one: a request fits exactly when
   * the least allowed integer covering it, of whatever size, fits beside what is already used.
   */
  lemma MachineFitIsMathematicalFit(c: Capacity, requested: Quantity, committed: nat, pending: nat)
    requires ValidCapacity(c)
    ensures Fits(c, Some(requested), committed, pending) <==>
            exists v: int :: LeastAllowed(c, requested, v) && committed + pending + v <= c.total
  {
    RoundingIsLeastAllowed(c, requested);
    if Consumed(c, Some(requested)).Some? {
      assert LeastAllowed(c, requested, Consumed(c, Some(requested)).value);
    }
  }

  /** What a share takes of a capacity that the request does not mention: the default, or else all of it. */
  function Standard(c: Capacity): Quantity {
    if c.policy.Some? && c.policy.value.defaultAmount.Some? then c.policy.value.defaultAmount.value else c.total
  }

  /** The amount due: the least allowed one that covers what is asked for, or else the standard amount. */
  ghost predicate Due(requests: map<string, Quantity>, n: string, c: Capacity, v: int)
    requires ValidCapacity(c)
  {
    if n in requests then LeastAllowed(c, requests[n], v) else v == Standard(c)
  }

  /** Some amount due fits beside what is used already. */
  ghost predicate HasRoom(requests: map<string, Quantity>, n: string, c: Capacity, used: int)
    requires ValidCapacity(c)
  {
    exists v: int :: Due(requests, n, c, v) && used + v <= c.total
  }

  lemma FitsIffRoom(requests: map<string, Quantity>, n: string, c: Capacity, committed: nat, pending: nat)
    requires ValidCapacity(c)
    ensures Fits(c, RequestFor(requests, n), committed, pending) <==> HasRoom(requests, n, c, committed + pending)
    ensures Consumed(c, RequestFor(requests, n)).Some? ==>
              Due(requests, n, c, Consumed(c, RequestFor(requests, n)).value)
  {
    hide Allowed, ValidCapacity, LeastAllowed;
    if n in requests {
      MachineFitIsMathematicalFit(c, requests[n], committed, pending);
      RoundingIsLeastAllowed(c, requests[n]);
      assert forall v: int :: Due(requests, n, c, v) <==> LeastAllowed(c, requests[n], v);
    } else {
      assert Due(requests, n, c, Standard(c));
    }
  }

  lemma ConsumedCovers(c: Capacity, requested: Option<Quantity>)
    requires ValidCapacity(c) && Consumed(c, requested).Some?
    requires requested.Some? ==> requested.value >= 0
    ensures Consumed(c, requested).value >= 0
    ensures requested.Some? ==> Consumed(c, requested).value >= requested.value
  {
    if requested.Some? { RoundingIsLeastAllowed(c, requested.value); }
  }

  // ---------- a whole device ----------

  datatype Verdict = Invalid | Unfit | Fit(consumed: map<string, Quantity>)

  function At(m: Amounts, n: string): int
  {
    if n in m then m[n] else 0
  }

  function RequestFor(requests: map<string, Quantity>, n: string): Option<Quantity>
  {
    if n in requests then Some(requests[n]) else None
  }

  predicate UsageValid(usage: Amounts, caps: map<string, Capacity>)
  {
    forall n | n in usage :: usage[n] >= 0 && n in caps
  }

  /** What a loop over a map does at one entry: abort with an error, reject the device, or go on. */
  datatype Check = Fails | Rejects | Passes

  function RequestChecks(requests: map<string, Quantity>, caps: map<string, Capacity>): (m: map<string, Check>)
  {
    map n | n in requests :: if requests[n] < 0 then Fails else if n !in caps then Rejects else Passes
  }

  function CapacityChecks(
    requests: map<string, Quantity>, caps: map<string, Capacity>, committed: Amounts, pending: Amounts)
    : (m: map<string, Check>)
    ensures m.Keys == caps.Keys
  {
    map n | n in caps ::
      if !ValidCapacity(caps[n]) then Fails
      else if Fits(caps[n], RequestFor(requests, n), At(committed, n), At(pending, n)) then Passes
      else Rejects
  }

  /** The first entry, in iteration order, that does not pass. */
  function FirstStop(checks: map<string, Check>, order: seq<string>): Check
    requires forall n | n in order :: n in checks
  {
    if order == [] then Passes
    else if checks[order[0]] != Passes then checks[order[0]]
    else FirstStop(checks, order[1..])
  }

  /** The same without an order; `errorFirst` settles maps holding both kinds of bad entry. */
  function Decide(checks: map<string, Check>, errorFirst: bool): Check
  {
    if Fails in checks.Values && (errorFirst || Rejects !in checks.Values) then Fails
    else if Rejects in checks.Values then Rejects
    else Passes
  }

  function AllConsumed(requests: map<string, Quantity>, caps: map<string, Capacity>): (m: map<string, Quantity>)
    ensures m.Keys <= caps.Keys
  {
    map n | n in caps && ValidCapacity(caps[n]) && Consumed(caps[n], RequestFor(requests, n)).Some?
      :: Consumed(caps[n], RequestFor(requests, n)).value
  }

  function Conclude(requestCheck: Check, capacityCheck: Check, consumed: map<string, Quantity>): Verdict
  {
    match requestCheck
    case Fails => Invalid
    case Rejects => Unfit
    case Passes =>
      match capacityCheck
      case Fails => Invalid
      case Rejects => Unfit
      case Passes => Fit(consumed)
  }

  /** The verdict on a device, for either way of settling order-dependent inputs. */
  function Evaluate(
    requests: map<string, Quantity>, caps: map<string, Capacity>, committed: Amounts, pending: Amounts,
    errorFirst: bool): Verdict
  {
    if !UsageValid(committed, caps) || !UsageValid(pending, caps) then Invalid
    else Conclude(Decide(RequestChecks(requests, caps), errorFirst),
                  Decide(CapacityChecks(requests, caps, committed, pending), errorFirst),
                  AllConsumed(requests, caps))
  }

  lemma DecidePasses(checks: map<string, Check>, errorFirst: bool)
    ensures Decide(checks, errorFirst) == Passes <==> forall n | n in checks :: checks[n] == Passes
  {
  }

  /** A device fits exactly when every capacity fits on its own. */
  lemma FitIffEachFits(
    requests: map<string, Quantity>, caps: map<string, Capacity>, committed: Amounts, pending: Amounts,
    errorFirst: bool)
    ensures Evaluate(requests, caps, committed, pending, errorFirst).Fit? <==>
            && UsageValid(committed, caps) && UsageValid(pending, caps)
            && (forall n | n in requests :: requests[n] >= 0 && n in caps)
            && (forall n | n in caps :: ValidCapacity(caps[n]) &&
                  Fits(caps[n], RequestFor(requests, n), At(committed, n), At(pending, n)))
  {
    hide Decide, ValidCapacity, Fits, UsageValid, AllConsumed;
    DecidePasses(RequestChecks(requests, caps), errorFirst);
    DecidePasses(CapacityChecks(requests, caps, committed, pending), errorFirst);
    var checks := CapacityChecks(requests, caps, committed, pending);
    assert forall n | n in caps :: checks[n] == Passes <==>
             (ValidCapacity(caps[n]) && Fits(caps[n], RequestFor(requests, n), At(committed, n), At(pending, n)));
    assert forall n | n in requests :: RequestChecks(requests, caps)[n] == Passes <==> requests[n] >= 0 && n in caps;
  }

  /** A device fits exactly when every capacity has room for what is due. */
  lemma FitIffRoomForEach(
    requests: map<string, Quantity>, caps: map<string, Capacity>, committed: Amounts, pending: Amounts,
    errorFirst: bool)
    ensures Evaluate(requests, caps, committed, pending, errorFirst).Fit? <==>
            && UsageValid(committed, caps) && UsageValid(pending, caps)
            && (forall n | n in requests :: requests[n] >= 0 && n in caps)
            && (forall n | n in caps ::
                  ValidCapacity(caps[n]) && HasRoom(requests, n, caps[n], At(committed, n) + At(pending, n)))
  {
    hide Evaluate, ValidCapacity, Fits, HasRoom, RequestFor;
    FitIffEachFits(requests, caps, committed, pending, errorFirst);
    if UsageValid(committed, caps) && UsageValid(pending, caps) {
      forall n | n in caps && ValidCapacity(caps[n])
        ensures Fits(caps[n], RequestFor(requests, n), At(committed, n), At(pending, n)) <==>
                HasRoom(requests, n, caps[n], At(committed, n) + At(pending, n))
      {
        FitsIffRoom(requests, n, caps[n], At(committed, n), At(pending, n));
      }
    }
  }

  /** A granted amount covers its request, is not negative and leaves the device within capacity. */
  lemma FitIsSafe(
    requests: map<string, Quantity>, caps: map<string, Capacity>, committed: Amounts, pending: Amounts,
    errorFirst: bool)
    requires Evaluate(requests, caps, committed, pending, errorFirst).Fit?
    ensures var m := Evaluate(requests, caps, committed, pending, errorFirst).consumed;
            && m.Keys == caps.Keys
            && requests.Keys <= caps.Keys
            && (forall n | n in m :: m[n] >= 0 && At(committed, n) + At(pending, n) + m[n] <= caps[n].total)
            && (forall n | n in requests :: requests[n] <= m[n])
  {
    FitIffEachFits(requests, caps, committed, pending, errorFirst);
    var m := AllConsumed(requests, caps);
    forall n | n in caps
      ensures n in m && m[n] >= 0 && At(committed, n) + At(pending, n) + m[n] <= caps[n].total
      ensures n in requests ==> requests[n] <= m[n]
    {
      assert Fits(caps[n], RequestFor(requests, n), At(committed, n), At(pending, n));
      ConsumedCovers(caps[n], RequestFor(requests, n));
    }
  }

  /** Every share consumes of every capacity exactly the amount due. */
  lemma FitConsumesDue(
    requests: map<string, Quantity>, caps: map<string, Capacity>, committed: Amounts, pending: Amounts,
    errorFirst: bool)
    requires Evaluate(requests, caps, committed, pending, errorFirst).Fit?
    ensures var m := Evaluate(requests, caps, committed, pending, errorFirst).consumed;
            forall n | n in caps :: ValidCapacity(caps[n]) && n in m && Due(requests, n, caps[n], m[n])
  {
    hide ValidCapacity, Consumed, Due;
    FitIffEachFits(requests, caps, committed, pending, errorFirst);
    var m := AllConsumed(requests, caps);
    forall n | n in caps ensures ValidCapacity(caps[n]) && n in m && Due(requests, n, caps[n], m[n]) {
      FitsIffRoom(requests, n, caps[n], 0, 0);
    }
  }

  /** Some request is for less than nothing. */
  ghost predicate SomeNegative(requests: map<string, Quantity>) {
    exists n | n in requests :: requests[n] < 0
  }

  /** Some request is for a capacity that the device does not have. */
  ghost predicate SomeUnknown(requests: map<string, Quantity>, caps: map<string, Capacity>) {
    exists n | n in requests :: requests[n] >= 0 && n !in caps
  }

  ghost predicate SomeUnsound(caps: map<string, Capacity>) {
    exists n | n in caps :: !ValidCapacity(caps[n])
  }

  /** Some sound capacity has no room for its request. */
  ghost predicate SomeTight(
    requests: map<string, Quantity>, caps: map<string, Capacity>, committed: Amounts, pending: Amounts)
  {
    exists n | n in caps && ValidCapacity(caps[n]) ::
      !HasRoom(requests, n, caps[n],
               (if n in committed then committed[n] else 0) + (if n in pending then pending[n] else 0))
  }

  /**
   * A device is found invalid exactly when its usage is, when a request is negative or, requests being
   * in order, when a capacity is unsound. Where something else of the same kind would refuse the
   * device, it depends on which is met first.
   */
  lemma InvalidExactly(
    requests: map<string, Quantity>, caps: map<string, Capacity>, committed: Amounts, pending: Amounts,
    errorFirst: bool)
    ensures Evaluate(requests, caps, committed, pending, errorFirst).Invalid? <==>
            || (exists n | n in committed :: committed[n] < 0 || n !in caps)
            || (exists n | n in pending :: pending[n] < 0 || n !in caps)
            || if SomeNegative(requests) || SomeUnknown(requests, caps)
               then SomeNegative(requests) && (errorFirst || !SomeUnknown(requests, caps))
               else SomeUnsound(caps) && (errorFirst || !SomeTight(requests, caps, committed, pending))
  {
    hide HasRoom, ValidCapacity, Fits;
    RequestVerdicts(requests, caps);
    if UsageValid(committed, caps) && UsageValid(pending, caps) {
      CapacityVerdicts(requests, caps, committed, pending);
    }
  }

  lemma RequestVerdicts(requests: map<string, Quantity>, caps: map<string, Capacity>)
    ensures var checks := RequestChecks(requests, caps).Values;
            (Fails in checks <==> SomeNegative(requests)) && (Rejects in checks <==> SomeUnknown(requests, caps))
  {
    var checks := RequestChecks(requests, caps);
    assert forall n | n in requests :: checks[n] in checks.Values;
  }

  lemma CapacityVerdicts(
    requests: map<string, Quantity>, caps: map<string, Capacity>, committed: Amounts, pending: Amounts)
    requires UsageValid(committed, caps) && UsageValid(pending, caps)
    ensures var checks := CapacityChecks(requests, caps, committed, pending).Values;
            && (Fails in checks <==> SomeUnsound(caps))
            && (Rejects in checks <==> SomeTight(requests, caps, committed, pending))
  {
    hide HasRoom, ValidCapacity, CapacityChecks;
    var checks := CapacityChecks(requests, caps, committed, pending);
    forall n | n in caps
      ensures checks[n] == Fails <==> !ValidCapacity(caps[n])
      ensures checks[n] == Rejects <==>
              ValidCapacity(caps[n]) && !HasRoom(requests, n, caps[n], At(committed, n) + At(pending, n))
    {
      OneVerdict(requests, caps, committed, pending, n);
    }
  }

  lemma OneVerdict(
    requests: map<string, Quantity>, caps: map<string, Capacity>, committed: Amounts, pending: Amounts, n: string)
    requires UsageValid(committed, caps) && UsageValid(pending, caps) && n in caps
    ensures var check := CapacityChecks(requests, caps, committed, pending)[n];
            && (check == Fails <==> !ValidCapacity(caps[n]))
            && (check == Rejects <==>
                  ValidCapacity(caps[n]) && !HasRoom(requests, n, caps[n], At(committed, n) + At(pending, n)))
  {
    hide HasRoom, ValidCapacity, Fits, RequestFor;
    if ValidCapacity(caps[n]) { FitsIffRoom(requests, n, caps[n], At(committed, n), At(pending, n)); }
  }

  // ---------- iteration order ----------

  /** `order` visits every name once. */
  ghost predicate Enumerates(order: seq<string>, names: set<string>)
  {
    (forall n :: n in names <==> n in order) && forall i, j | 0 <= i < j < |order| :: order[i] != order[j]
  }

  /** The verdict reached when the two maps are iterated in the given orders. */
  ghost function VerdictInOrder(
    requests: map<string, Quantity>, caps: map<string, Capacity>, committed: Amounts, pending: Amounts,
    requestOrder: seq<string>, capacityOrder: seq<string>): Verdict
    requires Enumerates(requestOrder, requests.Keys) && Enumerates(capacityOrder, caps.Keys)
  {
    if !UsageValid(committed, caps) || !UsageValid(pending, caps) then Invalid
    else Conclude(FirstStop(RequestChecks(requests, caps), requestOrder),
                  FirstStop(CapacityChecks(requests, caps, committed, pending), capacityOrder),
                  AllConsumed(requests, caps))
  }

  lemma {:induction false} FirstStopCauses(checks: map<string, Check>, order: seq<string>)
    requires forall n | n in order :: n in checks
    ensures var c := FirstStop(checks, order);
            if c == Passes then forall n | n in order :: checks[n] == Passes
            else exists n | n in order :: checks[n] == c
  {
    if order != [] && checks[order[0]] == Passes {
      FirstStopCauses(checks, order[1..]);
      assert order == [order[0]] + order[1..];
    } else if order != [] {
      assert order[0] in order;
    }
  }

  lemma FirstStopIsDecided(checks: map<string, Check>, order: seq<string>)
    requires Enumerates(order, checks.Keys)
    ensures FirstStop(checks, order) == Decide(checks, FirstStop(checks, order) == Fails)
  {
    FirstStopCauses(checks, order);
  }

  lemma EnumerationFrom(first: string, names: set<string>) returns (order: seq<string>)
    requires first in names
    ensures Enumerates(order, names) && order != [] && order[0] == first
    decreases |names|
  {
    var rest := names - {first};
    if rest == {} {
      order := [first];
    } else {
      var second :| second in rest;
      var tail := EnumerationFrom(second, rest);
      order := [first] + tail;
    }
  }

  /** Some iteration order leads to the verdict of either way of settling. */
  lemma DecisionIsReached(checks: map<string, Check>, errorFirst: bool) returns (order: seq<string>)
    ensures Enumerates(order, checks.Keys)
    ensures FirstStop(checks, order) == Decide(checks, errorFirst)
  {
    var c := Decide(checks, errorFirst);
    if checks.Keys == {} {
      order := [];
    } else if c == Passes {
      var n :| n in checks;
      order := EnumerationFrom(n, checks.Keys);
      FirstStopCauses(checks, order);
      DecidePasses(checks, errorFirst);
    } else {
      var n :| n in checks && checks[n] == c;
      order := EnumerationFrom(n, checks.Keys);
    }
  }

  /** The verdicts reachable under some iteration orders include both answers of Evaluate. */
  lemma BothVerdictsReached(
    requests: map<string, Quantity>, caps: map<string, Capacity>, committed: Amounts, pending: Amounts,
    errorFirst: bool) returns (requestOrder: seq<string>, capacityOrder: seq<string>)
    ensures Enumerates(requestOrder, requests.Keys) && Enumerates(capacityOrder, caps.Keys)
    ensures VerdictInOrder(requests, caps, committed, pending, requestOrder, capacityOrder)
         == Evaluate(requests, caps, committed, pending, errorFirst)
  {
    requestOrder := DecisionIsReached(RequestChecks(requests, caps), errorFirst);
    capacityOrder := DecisionIsReached(CapacityChecks(requests, caps, committed, pending), errorFirst);
  }

  /** Under every iteration order the verdict is one of Evaluate's two. */
  lemma NoOtherVerdict(
    requests: map<string, Quantity>, caps: map<string, Capacity>, committed: Amounts, pending: Amounts,
    requestOrder: seq<string>, capacityOrder: seq<string>)
    requires Enumerates(requestOrder, requests.Keys) && Enumerates(capacityOrder, caps.Keys)
    ensures var v := VerdictInOrder(requests, caps, committed, pending, requestOrder, capacityOrder);
            v == Evaluate(requests, caps, committed, pending, v == Invalid)
  {
    FirstStopIsDecided(RequestChecks(requests, caps), requestOrder);
    FirstStopIsDecided(CapacityChecks(requests, caps, committed, pending), capacityOrder);
  }

  /** Iteration order matters exactly when the deciding loop meets both an error and a rejection. */
  lemma OrderMatters(
    requests: map<string, Quantity>, caps: map<string, Capacity>, committed: Amounts, pending: Amounts)
    ensures Evaluate(requests, caps, committed, pending, true) != Evaluate(requests, caps, committed, pending, false)
       <==> && UsageValid(committed, caps) && UsageValid(pending, caps)
            && var r := RequestChecks(requests, caps).Values;
               var c := CapacityChecks(requests, caps, committed, pending).Values;
               if Fails in r || Rejects in r then Fails in r && Rejects in r else Fails in c && Rejects in c
  {
  }

  /** An input whose verdict depends on the order: one capacity is invalid, and the other does not fit. */
  lemma OrderCanMatter()
    ensures var requests: map<string, Quantity> := map["b" := 1];
            var caps := map["a" := Capacity(-1, None), "b" := Capacity(0, None)];
            && Evaluate(requests, caps, map[], map[], true) == Invalid
            && Evaluate(requests, caps, map[], map[], false) == Unfit
  {
    var requests: map<string, Quantity> := map["b" := 1];
    var caps := map["a" := Capacity(-1, None), "b" := Capacity(0, None)];
    var first, second := RequestChecks(requests, caps), CapacityChecks(requests, caps, map[], map[]);
    assert first["b"] == Passes && forall n | n in first :: first[n] == Passes;
    DecidePasses(first, true);
    DecidePasses(first, false);
    assert second["a"] == Fails && second["b"] == Rejects;
    assert Fails in second.Values && Rejects in second.Values;
  }

  /** The program's loops, over maps iterated in the given orders. */
  method EvaluateShareable(
    requests: map<string, Quantity>, caps: map<string, Capacity>, committed: Amounts, pending: Amounts,
    requestOrder: seq<string>, capacityOrder: seq<string>) returns (v: Verdict)
    requires Enumerates(requestOrder, requests.Keys) && Enumerates(capacityOrder, caps.Keys)
    ensures v == VerdictInOrder(requests, caps, committed, pending, requestOrder, capacityOrder)
  {
    if !UsageValid(committed, caps) || !UsageValid(pending, caps) {
      return Invalid;
    }
    ghost var requestChecks := RequestChecks(requests, caps);
    for i := 0 to |requestOrder|
      invariant FirstStop(requestChecks, requestOrder) == FirstStop(requestChecks, requestOrder[i..])
    {
      assert requestOrder[i] in requestOrder;
      if requests[requestOrder[i]] < 0 {
        return Invalid;
      }
      if requestOrder[i] !in caps {
        return Unfit;
      }
      assert requestOrder[i..][1..] == requestOrder[i + 1..];
    }
    v := ConsumeEach(requests, caps, committed, pending, capacityOrder);
  }

  method ConsumeEach(
    requests: map<string, Quantity>, caps: map<string, Capacity>, committed: Amounts, pending: Amounts,
    order: seq<string>) returns (v: Verdict)
    requires Enumerates(order, caps.Keys)
    ensures v == Conclude(Passes, FirstStop(CapacityChecks(requests, caps, committed, pending), order),
                          AllConsumed(requests, caps))
  {
    hide CapacityChecks, AllConsumed, ValidCapacity, Consumed;
    ghost var checks := CapacityChecks(requests, caps, committed, pending);
    ghost var amounts := AllConsumed(requests, caps);
    var consumed: map<string, Quantity> := map[];
    for i := 0 to |order|
      invariant FirstStop(checks, order) == FirstStop(checks, order[i..])
      invariant forall n :: n in consumed <==> n in order[..i]
      invariant forall n | n in consumed :: n in amounts && consumed[n] == amounts[n]
    {
      var n := order[i];
      var check, amount := EvaluateEntry(requests, caps, committed, pending, n);
      match check {
        case Fails => return Invalid;
        case Rejects => return Unfit;
        case Passes => consumed := consumed[n := amount];
      }
      assert order[i..][1..] == order[i + 1..];
    }
    assert order[..|order|] == order;
    SameAmounts(consumed, amounts, caps);
    return Fit(consumed);
  }

  lemma SameAmounts(a: map<string, Quantity>, b: map<string, Quantity>, caps: map<string, Capacity>)
    requires a.Keys == caps.Keys && b.Keys <= caps.Keys
    requires forall n | n in a :: n in b && a[n] == b[n]
    ensures a == b
  {
  }

  method EvaluateEntry(
    requests: map<string, Quantity>, caps: map<string, Capacity>, committed: Amounts, pending: Amounts, n: string)
    returns (check: Check, amount: Quantity)
    requires n in caps
    ensures check == CapacityChecks(requests, caps, committed, pending)[n]
    ensures check == Passes ==> n in AllConsumed(requests, caps) && amount == AllConsumed(requests, caps)[n]
  {
    if !ValidCapacity(caps[n]) {
      return Fails, 0;
    }
    var eligible := Consumed(caps[n], RequestFor(requests, n));
    if eligible.None? || Exceeded(caps[n].total, At(committed, n), At(pending, n), eligible.value) {
      return Rejects, 0;
    }
    return Passes, eligible.value;
  }
}
