/** The committed ledger: who holds which device, and how much of it, according to claim statuses. */
module Ledger {
  import opened Types

  datatype DeviceUse = DeviceUse(
    exclusive: bool, shared: bool, consumed: Amounts, shares: seq<Amounts>, shareIDs: set<string>)

  type Usage = map<Key, DeviceUse>

  const UNUSED := DeviceUse(false, false, map[], [], {})

  predicate IsHex(c: char) {
    '0' <= c <= '9' || 'a' <= c <= 'f'
  }

  /** A lower-case UUID: 8-4-4-4-12 hexadecimal digits. */
  predicate ValidShareID(s: string) {
    |s| == 36 && forall i | 0 <= i < 36 :: if i in {8, 13, 18, 23} then s[i] == '-' else IsHex(s[i])
  }

  ghost predicate HexDigits(s: string, n: nat) {
    |s| == n && forall c | c in s :: c in "0123456789abcdef"
  }

  ghost predicate UUID(s: string, a: string, b: string, c: string, d: string, e: string) {
    && HexDigits(a, 8) && HexDigits(b, 4) && HexDigits(c, 4) && HexDigits(d, 4) && HexDigits(e, 12)
    && s == a + "-" + b + "-" + c + "-" + d + "-" + e
  }

  /** Exactly the normalized UUIDs are share identifiers. */
  lemma ShareIDsAreUUIDs(s: string)
    ensures ValidShareID(s) <==> exists a, b, c, d, e :: UUID(s, a, b, c, d, e)
  {
    if ValidShareID(s) {
      HexPart(s, 0, 8);
      HexPart(s, 9, 13);
      HexPart(s, 14, 18);
      HexPart(s, 19, 23);
      HexPart(s, 24, 36);
      hide HexDigits;
      assert s == s[..8] + "-" + s[9..13] + "-" + s[14..18] + "-" + s[19..23] + "-" + s[24..36];
      assert UUID(s, s[0..8], s[9..13], s[14..18], s[19..23], s[24..36]);
    }
    if a, b, c, d, e :| UUID(s, a, b, c, d, e) {
      UUIDIsValid(s, a, b, c, d, e);
    }
  }

  lemma UUIDIsValid(s: string, a: string, b: string, c: string, d: string, e: string)
    requires UUID(s, a, b, c, d, e)
    ensures ValidShareID(s)
  {
    assert forall x: char | x in "0123456789abcdef" :: IsHex(x);
    hide IsHex;
    forall i | 0 <= i < 36 ensures if i in {8, 13, 18, 23} then s[i] == '-' else IsHex(s[i]) {
      if i < 8 { assert s[i] == a[i]; }
      else if 8 < i < 13 { assert s[i] == b[i - 9]; }
      else if 13 < i < 18 { assert s[i] == c[i - 14]; }
      else if 18 < i < 23 { assert s[i] == d[i - 19]; }
      else if 23 < i { assert s[i] == e[i - 24]; }
    }
  }

  lemma HexPart(s: string, from: nat, to: nat)
    requires from <= to <= |s| && forall i | from <= i < to :: IsHex(s[i])
    ensures HexDigits(s[from..to], to - from)
  {
    forall x | x in s[from..to] ensures x in "0123456789abcdef" {
      HexIsListed(x);
    }
  }

  lemma HexIsListed(x: char)
    ensures IsHex(x) <==> x in "0123456789abcdef"
  {
    var hex := "0123456789abcdef";
    if '0' <= x <= '9' { assert hex[(x - '0') as int] == x; }
    if 'a' <= x <= 'f' { assert hex[10 + (x - 'a') as int] == x; }
  }

  function UseOf(usage: Usage, k: Key): DeviceUse {
    if k in usage then usage[k] else UNUSED
  }

  function Plus(a: Amounts, b: Amounts): Amounts {
    map n | n in a.Keys + b.Keys :: (if n in a then a[n] else 0) + (if n in b then b[n] else 0)
  }

  predicate NonNegative(m: Amounts) {
    forall n | n in m :: m[n] >= 0
  }

  /** Adds one stored result to the ledger, or None when the stored state is contradictory. */
  function AddResult(usage: Usage, r: Result): Option<Usage>
  {
    var u := UseOf(usage, r.key);
    if r.shareID.Some? != r.consumed.Some? then None
    else if r.shareID.None? then
      if u.exclusive || u.shared then None else Some(usage[r.key := u.(exclusive := true)])
    else if u.exclusive || !ValidShareID(r.shareID.value) || r.shareID.value in u.shareIDs
            || !NonNegative(r.consumed.value) then None
    else Some(usage[r.key := u.(shared := true, consumed := Plus(u.consumed, r.consumed.value),
                                shares := u.shares + [r.consumed.value],
                                shareIDs := u.shareIDs + {r.shareID.value})])
  }

  function Collect(rs: seq<Result>): Option<Usage>
  {
    if rs == [] then Some(map[])
    else
      match Collect(rs[..|rs| - 1])
      case None => None
      case Some(usage) => AddResult(usage, rs[|rs| - 1])
  }

  /** Adds entry by entry, in any order, and stops at a negative amount. */
  method AddAmounts(consumed: Amounts, amounts: Amounts) returns (sum: Option<Amounts>)
    ensures sum == if NonNegative(amounts) then Some(Plus(consumed, amounts)) else None
  {
    var names, current := amounts.Keys, consumed;
    while names != {}
      invariant names <= amounts.Keys
      invariant forall n | n in amounts && n !in names :: amounts[n] >= 0
      invariant current.Keys == consumed.Keys + (amounts.Keys - names)
      invariant forall n | n in current ::
                  current[n] == if n in names then consumed[n] else Plus(consumed, amounts)[n]
      decreases names
    {
      var n :| n in names;
      if amounts[n] < 0 {
        return None;
      }
      current := current[n := (if n in current then current[n] else 0) + amounts[n]];
      names := names - {n};
    }
    assert current == Plus(consumed, amounts);
    return Some(current);
  }

  method AddQuantities(target: Amounts, amounts: Amounts) returns (sum: Amounts)
    ensures sum == Plus(target, amounts)
  {
    var names := amounts.Keys;
    sum := target;
    while names != {}
      invariant names <= amounts.Keys
      invariant sum.Keys == target.Keys + (amounts.Keys - names)
      invariant forall n | n in sum :: sum[n] == if n in names then target[n] else Plus(target, amounts)[n]
      decreases names
    {
      var n :| n in names;
      sum := sum[n := (if n in sum then sum[n] else 0) + amounts[n]];
      names := names - {n};
    }
    assert sum == Plus(target, amounts);
  }

  /** The ledger as the program builds it, one result after another. */
  class CommittedUsage {
    var devices: Usage

    constructor ()
      ensures devices == map[]
    {
      devices := map[];
    }

    method Add(r: Result) returns (ok: bool)
      modifies this
      ensures ok <==> AddResult(old(devices), r).Some?
      ensures ok ==> devices == AddResult(old(devices), r).value
    {
      var current := UseOf(devices, r.key);
      devices := devices[r.key := current];
      if r.shareID.Some? != r.consumed.Some? {
        return false;
      }
      if r.shareID.None? {
        if current.exclusive || current.shared {
          return false;
        }
        devices := devices[r.key := current.(exclusive := true)];
        return true;
      }
      if current.exclusive || !ValidShareID(r.shareID.value) || r.shareID.value in current.shareIDs {
        return false;
      }
      var amounts := r.consumed.value;
      current := current.(shareIDs := current.shareIDs + {r.shareID.value}, shared := true,
                          shares := current.shares + [amounts]);
      devices := devices[r.key := current];
      var sum := AddAmounts(current.consumed, amounts);
      if sum.None? {
        return false;
      }
      devices := devices[r.key := current.(consumed := sum.value)];
      return true;
    }
  }

  method CollectUsage(rs: seq<Result>) returns (r: Option<Usage>)
    ensures r == Collect(rs)
  {
    var usage := new CommittedUsage();
    for i := 0 to |rs|
      invariant fresh(usage)
      invariant Collect(rs[..i]) == Some(usage.devices)
    {
      assert rs[..i + 1][..i] == rs[..i];
      var ok := usage.Add(rs[i]);
      if !ok {
        CollectFailsEarly(rs, i + 1);
        return None;
      }
    }
    assert rs[..|rs|] == rs;
    return Some(usage.devices);
  }

  lemma {:induction false} CollectFailsEarly(rs: seq<Result>, i: nat)
    requires i <= |rs| && Collect(rs[..i]) == None
    ensures Collect(rs) == None
  {
    if i < |rs| {
      assert rs[..|rs| - 1][..i] == rs[..i];
      CollectFailsEarly(rs[..|rs| - 1], i);
    } else {
      assert rs[..i] == rs;
    }
  }

  // ---------- what a consistent set of results is, without any ledger ----------

  predicate WellFormed(r: Result) {
    && r.shareID.Some? == r.consumed.Some?
    && (r.shareID.Some? ==> ValidShareID(r.shareID.value) && NonNegative(r.consumed.value))
  }

  /** Two results may stand together: different devices, or two shares with different identifiers. */
  predicate Compatible(a: Result, b: Result) {
    a.key == b.key ==> a.shareID.Some? && b.shareID.Some? && a.shareID != b.shareID
  }

  predicate Consistent(rs: seq<Result>) {
    && (forall i | 0 <= i < |rs| :: WellFormed(rs[i]))
    && (forall i, j | 0 <= i < j < |rs| :: Compatible(rs[i], rs[j]))
  }

  /** The results that hold device k. */
  function On(rs: seq<Result>, k: Key): seq<Result>
  {
    if rs == [] then []
    else On(rs[..|rs| - 1], k) + if rs[|rs| - 1].key == k then [rs[|rs| - 1]] else []
  }

  function Total(rs: seq<Result>, k: Key, n: string): int
  {
    if rs == [] then 0
    else
      var r := rs[|rs| - 1];
      Total(rs[..|rs| - 1], k, n) +
      (if r.key == k && r.consumed.Some? && n in r.consumed.value then r.consumed.value[n] else 0)
  }

  /** Entry u says exactly who holds device k. */
  ghost predicate NamesHolders(u: DeviceUse, rs: seq<Result>, k: Key)
  {
    && (u.exclusive <==> exists r | r in rs :: r.key == k && r.shareID.None?)
    && (u.shared <==> exists r | r in rs :: r.key == k && r.shareID.Some?)
    && (forall id :: id in u.shareIDs <==> exists r | r in rs :: r.key == k && r.shareID == Some(id))
    && (forall m :: m in u.shares <==> exists r | r in rs :: r.key == k && r.consumed == Some(m))
  }

  /** Entry u says exactly how much of device k is consumed. */
  ghost predicate SumsAmounts(u: DeviceUse, rs: seq<Result>, k: Key)
  {
    && (forall n :: n in u.consumed <==> exists r | r in rs :: r.key == k && r.consumed.Some? && n in r.consumed.value)
    && (forall n :: (if n in u.consumed then u.consumed[n] else 0) == Total(rs, k, n))
  }

  /** The ledger has an entry exactly for the devices that appear in the results, and it is accurate. */
  ghost predicate Mirrors(usage: Usage, rs: seq<Result>)
  {
    && (forall k :: k in usage <==> exists r | r in rs :: r.key == k)
    && (forall k :: NamesHolders(UseOf(usage, k), rs, k) && SumsAmounts(UseOf(usage, k), rs, k))
  }

  lemma AddKeepsHolders(usage: Usage, rs: seq<Result>, r: Result, k: Key)
    requires NamesHolders(UseOf(usage, k), rs, k) && AddResult(usage, r).Some?
    ensures NamesHolders(UseOf(AddResult(usage, r).value, k), rs + [r], k)
  {
  }

  lemma AddKeepsAmounts(usage: Usage, rs: seq<Result>, r: Result, k: Key)
    requires SumsAmounts(UseOf(usage, k), rs, k) && AddResult(usage, r).Some?
    ensures SumsAmounts(UseOf(AddResult(usage, r).value, k), rs + [r], k)
  {
    var all := rs + [r];
    assert all[..|all| - 1] == rs;
    assert forall x :: x in all <==> x in rs || x == r;
    var after := UseOf(AddResult(usage, r).value, k);
    forall n
      ensures (if n in after.consumed then after.consumed[n] else 0) == Total(all, k, n)
    {
    }
  }

  /**
   * Collecting succeeds exactly on consistent results, whatever their order, and the ledger then
   * mirrors them.
   */
  lemma {:induction false} CollectIffConsistent(rs: seq<Result>)
    ensures Collect(rs).Some? <==> Consistent(rs)
    ensures Collect(rs).Some? ==> Mirrors(Collect(rs).value, rs)
  {
    if rs != [] {
      var init, r := rs[..|rs| - 1], rs[|rs| - 1];
      assert rs == init + [r];
      CollectIffConsistent(init);
      if Consistent(init) {
        var usage := Collect(init).value;
        AddIffCompatible(usage, init, r);
        ConsistentSnoc(init, r);
        if AddResult(usage, r).Some? {
          forall k
            ensures NamesHolders(UseOf(AddResult(usage, r).value, k), rs, k)
            ensures SumsAmounts(UseOf(AddResult(usage, r).value, k), rs, k)
          {
            AddKeepsHolders(usage, init, r, k);
            AddKeepsAmounts(usage, init, r, k);
          }
          assert forall x :: x in rs <==> x in init || x == r;
        }
      }
    }
  }

  lemma ConsistentSnoc(init: seq<Result>, r: Result)
    ensures Consistent(init + [r]) <==>
            Consistent(init) && WellFormed(r) && forall x | x in init :: Compatible(x, r)
  {
    var all := init + [r];
    if Consistent(all) {
      forall x | x in init
        ensures Compatible(x, r)
      {
        var i :| 0 <= i < |init| && init[i] == x;
        assert all[i] == x && all[|init|] == r;
      }
      assert forall i | 0 <= i < |init| :: all[i] == init[i];
      assert all[|init|] == r;
    }
  }

  lemma AddIffCompatible(usage: Usage, rs: seq<Result>, r: Result)
    requires Mirrors(usage, rs)
    ensures AddResult(usage, r).Some? <==> WellFormed(r) && forall x | x in rs :: Compatible(x, r)
  {
  }
}
