/** Length-prefixed identities of graph nodes. Strings stand for byte sequences. */
module GraphIdentity {
  import opened Types
  import opened Decimals

  /** A part as it is written: its length, a colon, its bytes. */
  function Prefixed(part: string): string {
    Digits(|part|) + ":" + part
  }

  function EncodeParts(parts: seq<string>): string {
    if parts == [] then "" else "/" + Prefixed(parts[0]) + EncodeParts(parts[1..])
  }

  function Encode(kind: string, parts: seq<string>): string {
    kind + EncodeParts(parts)
  }

  function Join(pieces: seq<string>): string
    requires pieces != []
  {
    if |pieces| == 1 then pieces[0] else pieces[0] + "/" + Join(pieces[1..])
  }

  /** Builds the list of pieces in a loop and joins them with slashes. */
  method GraphID(kind: string, parts: seq<string>) returns (id: string)
    ensures id == Encode(kind, parts)
  {
    var encoded := [kind];
    for i := 0 to |parts|
      invariant |encoded| == i + 1 && encoded[0] == kind
      invariant forall j | 0 <= j < i :: encoded[j + 1] == Prefixed(parts[j])
    {
      encoded := encoded + [Prefixed(parts[i])];
    }
    JoinIsEncode(encoded, parts);
    id := Join(encoded);
  }

  lemma {:induction false} JoinIsEncode(pieces: seq<string>, parts: seq<string>)
    requires |pieces| == |parts| + 1
    requires forall j | 0 <= j < |parts| :: pieces[j + 1] == Prefixed(parts[j])
    ensures Join(pieces) == Encode(pieces[0], parts)
  {
    if parts != [] {
      JoinIsEncode(pieces[1..], parts[1..]);
      assert pieces[1..][0] == Prefixed(parts[0]);
    } else {
      assert pieces[0] + "" == pieces[0];
    }
  }

  // ---------- decoding ----------

  function DecodeParts(s: string): Option<seq<string>>
    decreases |s|
  {
    if s == "" then Some([])
    else if s[0] != '/' then None
    else
      match ReadLength(s[1..], 0)
      case None => None
      case Some((n, rest)) =>
        ReadLengthShrinks(s[1..], 0);
        if n > |rest| then None
        else
          match DecodeParts(rest[n..])
          case None => None
          case Some(parts) => Some([rest[..n]] + parts)
  }

  /** The number of characters before the first separator. */
  function Before(s: string, separator: char): (n: nat)
    ensures n <= |s|
  {
    if s == "" || s[0] == separator then 0 else 1 + Before(s[1..], separator)
  }

  function Decode(s: string): Option<(string, seq<string>)> {
    match DecodeParts(s[Before(s, '/')..])
    case None => None
    case Some(parts) => Some((s[..Before(s, '/')], parts))
  }

  lemma {:induction false} PartsRoundTrip(parts: seq<string>)
    ensures DecodeParts(EncodeParts(parts)) == Some(parts)
  {
    if parts != [] {
      var part, tail := parts[0], EncodeParts(parts[1..]);
      var s := EncodeParts(parts);
      assert s[1..] == Digits(|part|) + (":" + (part + tail));
      ReadsDigits(|part|, ":" + (part + tail));
      assert (":" + (part + tail))[1..] == part + tail;
      assert ReadLength(s[1..], 0) == Some((|part|, part + tail));
      assert (part + tail)[..|part|] == part && (part + tail)[|part|..] == tail;
      PartsRoundTrip(parts[1..]);
      hide EncodeParts;
      assert DecodeParts(s) == Some([part] + parts[1..]);
      assert [part] + parts[1..] == parts;
    }
  }

  lemma {:induction false} BeforeSeparator(a: string, separator: char, rest: string)
    requires rest == "" || rest[0] == separator
    ensures Before(a + rest, separator) <= |a|
    ensures Before(a + rest, separator) == |a| <==> separator !in a
  {
    if a != "" {
      assert (a + rest)[1..] == a[1..] + rest;
      BeforeSeparator(a[1..], separator, rest);
      assert a == [a[0]] + a[1..];
    } else {
      assert a + rest == rest;
    }
  }

  /** Decoding recovers kind and parts, whatever the parts contain, exactly when the kind has no slash. */
  lemma RoundTrip(kind: string, parts: seq<string>)
    ensures Decode(Encode(kind, parts)) == Some((kind, parts)) <==> '/' !in kind
  {
    var s := Encode(kind, parts);
    BeforeSeparator(kind, '/', EncodeParts(parts));
    if '/' !in kind {
      assert s[|kind|..] == EncodeParts(parts) && s[..|kind|] == kind;
      PartsRoundTrip(parts);
    }
  }

  /** Within one kind, of any spelling, different parts have different identities. */
  lemma EncodingInjective(kind: string, a: seq<string>, b: seq<string>)
    ensures Encode(kind, a) == Encode(kind, b) <==> a == b
  {
    if Encode(kind, a) == Encode(kind, b) {
      assert Encode(kind, a)[|kind|..] == EncodeParts(a) && Encode(kind, b)[|kind|..] == EncodeParts(b);
      PartsRoundTrip(a);
      PartsRoundTrip(b);
    }
  }

  /** A kind with a slash can be mistaken for a kind and a part. */
  lemma SlashedKindAmbiguous()
    ensures Encode("a/1:b", []) == Encode("a", ["b"])
  {
  }

  // ---------- the identities of the graph ----------

  function DeviceGraphID(driver: string, node: string, pool: string, device: string): string {
    Encode("device", [driver, node, pool, device])
  }

  function MissingDeviceGraphID(driver: string, node: string, pool: string, device: string): string {
    Encode("device", ["missing", driver, node, pool, device])
  }

  function AllocationGraphID(
    namespace: string, claim: string, index: nat, request: string, driver: string, node: string, pool: string,
    device: string): string
  {
    Encode("allocation", [namespace, claim, Digits(index), request, driver, node, pool, device])
  }

  /** The identity of a missing device is never that of a device, not even of one called "missing". */
  lemma MissingIsNeverReal(
    driver: string, node: string, pool: string, device: string, d: string, n: string, p: string, e: string)
    ensures MissingDeviceGraphID(driver, node, pool, device) != DeviceGraphID(d, n, p, e)
  {
    EncodingInjective("device", ["missing", driver, node, pool, device], [d, n, p, e]);
  }

  /** Different devices have different identities, missing or not. */
  lemma DeviceIdentity(
    d: string, n: string, p: string, e: string, d': string, n': string, p': string, e': string)
    ensures DeviceGraphID(d, n, p, e) == DeviceGraphID(d', n', p', e') <==> (d, n, p, e) == (d', n', p', e')
    ensures MissingDeviceGraphID(d, n, p, e) == MissingDeviceGraphID(d', n', p', e') <==>
            (d, n, p, e) == (d', n', p', e')
  {
    var x, y := [d, n, p, e], [d', n', p', e'];
    EncodingInjective("device", x, y);
    EncodingInjective("device", ["missing"] + x, ["missing"] + y);
    assert x == y <==> x[0] == y[0] && x[1] == y[1] && x[2] == y[2] && x[3] == y[3];
    assert ["missing"] + x == ["missing", d, n, p, e] && ["missing"] + y == ["missing", d', n', p', e'];
    assert x == (["missing"] + x)[1..] && y == (["missing"] + y)[1..];
  }

  /** No allocation has the identity of a device, present or missing. */
  lemma KindsDiffer(
    a: string, c: string, i: nat, r: string, d: string, n: string, p: string, e: string,
    d': string, n': string, p': string, e': string)
    ensures AllocationGraphID(a, c, i, r, d, n, p, e) != DeviceGraphID(d', n', p', e')
    ensures AllocationGraphID(a, c, i, r, d, n, p, e) != MissingDeviceGraphID(d', n', p', e')
  {
    RoundTrip("allocation", [a, c, Digits(i), r, d, n, p, e]);
    RoundTrip("device", [d', n', p', e']);
    RoundTrip("device", ["missing", d', n', p', e']);
  }

  /** Allocations of different claims, indices or devices have different identities. */
  lemma AllocationIdentity(
    a: string, c: string, i: nat, r: string, d: string, n: string, p: string, e: string,
    a': string, c': string, i': nat, r': string, d': string, n': string, p': string, e': string)
    requires AllocationGraphID(a, c, i, r, d, n, p, e) == AllocationGraphID(a', c', i', r', d', n', p', e')
    ensures (a, c, i, r, d, n, p, e) == (a', c', i', r', d', n', p', e')
  {
    var x, y := [a, c, Digits(i), r, d, n, p, e], [a', c', Digits(i'), r', d', n', p', e'];
    EncodingInjective("allocation", x, y);
    assert x[0] == y[0] && x[1] == y[1] && x[2] == y[2] && x[3] == y[3];
    assert x[4] == y[4] && x[5] == y[5] && x[6] == y[6] && x[7] == y[7];
    DigitsInjective(i, i');
  }

  // ---------- device identity keys of the allocator ----------

  function DeviceIdentityKey(k: Key): string {
    k.driver + [0 as char] + k.pool + [0 as char] + k.device
  }

  predicate NulFree(k: Key) {
    0 as char !in k.driver && 0 as char !in k.pool && 0 as char !in k.device
  }

  lemma SplitAtNul(a: string, s: string, b: string, t: string)
    requires 0 as char !in a && 0 as char !in b
    requires a + [0 as char] + s == b + [0 as char] + t
    ensures a == b && s == t
  {
    var x, y := a + [0 as char] + s, b + [0 as char] + t;
    assert x == a + ([0 as char] + s) && y == b + ([0 as char] + t);
    BeforeSeparator(a, 0 as char, [0 as char] + s);
    BeforeSeparator(b, 0 as char, [0 as char] + t);
    assert x[..|a|] == a && y[..|b|] == b;
    assert x[|a| + 1..] == s && y[|b| + 1..] == t;
  }

  /** The string under which a device is indexed identifies it, as its names hold no NUL. */
  lemma KeyIdentifiesDevice(j: Key, k: Key)
    requires NulFree(j) && NulFree(k)
    ensures DeviceIdentityKey(j) == DeviceIdentityKey(k) <==> j == k
  {
    if DeviceIdentityKey(j) == DeviceIdentityKey(k) {
      assert DeviceIdentityKey(j) == j.driver + [0 as char] + (j.pool + [0 as char] + j.device);
      assert DeviceIdentityKey(k) == k.driver + [0 as char] + (k.pool + [0 as char] + k.device);
      SplitAtNul(j.driver, j.pool + [0 as char] + j.device, k.driver, k.pool + [0 as char] + k.device);
      SplitAtNul(j.pool, j.device, k.pool, k.device);
    }
  }
}
