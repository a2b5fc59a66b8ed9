/** MatchAttribute constraints: validation, the prefix check, and what the check decides. */
module Constraints {
  import opened Types

  datatype Constraint = Constraint(attribute: string, requests: set<string>)

  /** Splits at the first slash, if there is one. */
  function Cut(s: string): (r: Option<(string, string)>)
    ensures r.Some? ==> s == r.value.0 + "/" + r.value.1 && '/' !in r.value.0
    ensures r.None? ==> '/' !in s
  {
    if s == "" then None
    else if s[0] == '/' then Some(("", s[1..]))
    else
      match Cut(s[1..])
      case None => None
      case Some((before, after)) => Some(([s[0]] + before, after))
  }

  predicate FullyQualified(name: string) {
    var cut := Cut(name);
    cut.Some? && cut.value.0 != "" && cut.value.1 != "" && '/' !in cut.value.1
  }

  function References(requests: seq<Request>): set<string> {
    (set i | 0 <= i < |requests| :: requests[i].name) +
    (set i, j | 0 <= i < |requests| && 0 <= j < |requests[i].firstAvailable| ::
       requests[i].name + "/" + requests[i].firstAvailable[j].name)
  }

  predicate Supported(raw: RawConstraint, references: set<string>) {
    && !raw.distinctSet && raw.matchAttribute.Some? && FullyQualified(raw.matchAttribute.value)
    && forall i | 0 <= i < |raw.requests| :: raw.requests[i] in references
  }

  function SupportedConstraints(claim: Claim): Outcome<seq<Constraint>> {
    var references := References(claim.requests);
    if forall i | 0 <= i < |claim.constraints| :: Supported(claim.constraints[i], references) then
      Ok(seq(|claim.constraints|, i requires 0 <= i < |claim.constraints| =>
           Constraint(claim.constraints[i].matchAttribute.value,
                      set j | 0 <= j < |claim.constraints[i].requests| :: claim.constraints[i].requests[j])))
    else Err(Unsupported)
  }

  // ---------- reading one device ----------

  datatype Scalar = Text(s: string) | Number(n: int) | Flag(b: bool) | Version(v: string)

  datatype Reading = Missing | Unusable | Value(scalar: Scalar)

  predicate AppliesTo(c: Constraint, request: string) {
    || c.requests == {}
    || request in c.requests
    || (Cut(request).Some? && Cut(request).value.0 in c.requests)
  }

  function Lookup(p: Pick, attribute: string): Option<Attribute> {
    var attributes := p.device.attributes;
    if attribute in attributes then Some(attributes[attribute])
    else
      match Cut(attribute)
      case None => None
      case Some((domain, identifier)) =>
        if domain == p.grant.key.driver && identifier in attributes then Some(attributes[identifier]) else None
  }

  function ScalarOf(a: Attribute): Reading {
    var fields := (if a.text.Some? then [Text(a.text.value)] else [])
                + (if a.number.Some? then [Number(a.number.value)] else [])
                + (if a.flag.Some? then [Flag(a.flag.value)] else [])
                + (if a.version.Some? then [Version(a.version.value)] else []);
    if a.listed || |fields| > 1 then Unusable
    else if fields == [] then Missing
    else Value(fields[0])
  }

  function Read(c: Constraint, p: Pick): Reading {
    match Lookup(p, c.attribute)
    case None => Missing
    case Some(a) => ScalarOf(a)
  }

  // ---------- the check ----------

  datatype Match = Holds | Violated | Broken

  function CheckFrom(c: Constraint, picks: seq<Pick>, expected: Option<Scalar>): Match
  {
    if picks == [] then Holds
    else if !AppliesTo(c, picks[0].grant.request) then CheckFrom(c, picks[1..], expected)
    else
      match Read(c, picks[0])
      case Missing => Violated
      case Unusable => Broken
      case Value(v) =>
        if expected.Some? && v != expected.value then Violated else CheckFrom(c, picks[1..], Some(v))
  }

  function CheckOne(c: Constraint, picks: seq<Pick>): Match {
    CheckFrom(c, picks, None)
  }

  function CheckAll(cs: seq<Constraint>, picks: seq<Pick>): Match
  {
    if cs == [] then Holds
    else if CheckOne(cs[0], picks) != Holds then CheckOne(cs[0], picks)
    else CheckAll(cs[1..], picks)
  }

  method CheckConstraint(c: Constraint, picks: seq<Pick>) returns (m: Match)
    ensures m == CheckOne(c, picks)
  {
    var expected: Option<Scalar> := None;
    for i := 0 to |picks|
      invariant CheckOne(c, picks) == CheckFrom(c, picks[i..], expected)
    {
      assert picks[i..][1..] == picks[i + 1..];
      if AppliesTo(c, picks[i].grant.request) {
        var reading := Read(c, picks[i]);
        if reading.Unusable? {
          return Broken;
        }
        if reading.Missing? || (expected.Some? && reading.scalar != expected.value) {
          return Violated;
        }
        expected := Some(reading.scalar);
      }
    }
    return Holds;
  }

  method CheckConstraints(cs: seq<Constraint>, picks: seq<Pick>) returns (m: Match)
    ensures m == CheckAll(cs, picks)
  {
    for i := 0 to |cs|
      invariant CheckAll(cs, picks) == CheckAll(cs[i..], picks)
    {
      assert cs[i..][1..] == cs[i + 1..];
      m := CheckConstraint(cs[i], picks);
      if m != Holds {
        return m;
      }
    }
    return Holds;
  }

  // ---------- what it decides ----------

  /** Every device the constraint applies to has the attribute, with one and the same scalar value. */
  ghost predicate Agree(c: Constraint, picks: seq<Pick>) {
    && (forall p | p in picks && AppliesTo(c, p.grant.request) :: Read(c, p).Value?)
    && (forall p, q | p in picks && q in picks && AppliesTo(c, p.grant.request) && AppliesTo(c, q.grant.request) ::
          Read(c, p) == Read(c, q))
  }

  ghost predicate AllAgree(cs: seq<Constraint>, picks: seq<Pick>) {
    forall c | c in cs :: Agree(c, picks)
  }

  lemma {:induction false} CheckFromMeans(c: Constraint, picks: seq<Pick>, expected: Option<Scalar>)
    ensures CheckFrom(c, picks, expected) == Holds <==>
            && Agree(c, picks)
            && (expected.Some? ==>
                  forall p | p in picks && AppliesTo(c, p.grant.request) :: Read(c, p) == Value(expected.value))
  {
    if picks != [] {
      var p := picks[0];
      assert picks == [p] + picks[1..];
      if !AppliesTo(c, p.grant.request) {
        CheckFromMeans(c, picks[1..], expected);
      } else if Read(c, p).Value? {
        CheckFromMeans(c, picks[1..], Some(Read(c, p).scalar));
      }
    }
  }

  /** The check holds exactly when all devices agree, in whatever order they were chosen. */
  lemma {:induction false} CheckMeansAgreement(cs: seq<Constraint>, picks: seq<Pick>)
    ensures CheckAll(cs, picks) == Holds <==> AllAgree(cs, picks)
  {
    if cs != [] {
      assert cs == [cs[0]] + cs[1..];
      CheckFromMeans(cs[0], picks, None);
      CheckMeansAgreement(cs[1..], picks);
    }
  }

  /** A prefix that fails the check is failed by every extension: pruning loses nothing. */
  lemma PruningIsSafe(cs: seq<Constraint>, picks: seq<Pick>, more: seq<Pick>)
    requires CheckAll(cs, picks) != Holds
    ensures CheckAll(cs, picks + more) != Holds
  {
    CheckMeansAgreement(cs, picks);
    CheckMeansAgreement(cs, picks + more);
    var c :| c in cs && !Agree(c, picks);
    assert forall p | p in picks :: p in picks + more;
    assert !Agree(c, picks + more);
  }

  /** A device that the constraint covers has an unusable attribute, and those before it agree. */
  ghost predicate Stuck(c: Constraint, picks: seq<Pick>) {
    exists i | 0 <= i < |picks| ::
      Agree(c, picks[..i]) && AppliesTo(c, picks[i].grant.request) && Read(c, picks[i]).Unusable?
  }

  ghost predicate StuckFrom(c: Constraint, picks: seq<Pick>, expected: Option<Scalar>) {
    exists i | 0 <= i < |picks| ::
      CheckFrom(c, picks[..i], expected) == Holds && AppliesTo(c, picks[i].grant.request) && Read(c, picks[i]).Unusable?
  }

  lemma {:induction false} BrokenFrom(c: Constraint, picks: seq<Pick>, expected: Option<Scalar>)
    ensures CheckFrom(c, picks, expected) == Broken <==> StuckFrom(c, picks, expected)
  {
    hide AppliesTo, Read;
    if picks != [] {
      var p, rest := picks[0], picks[1..];
      var seen := if AppliesTo(c, p.grant.request) && Read(c, p).Value? then Some(Read(c, p).scalar) else expected;
      BrokenFrom(c, rest, seen);
      assert picks[..0] == [];
      forall i | 0 <= i < |rest|
        ensures picks[..i + 1][1..] == rest[..i] && picks[i + 1] == rest[i]
      {
      }
    }
  }

  /**
   * The check breaks off exactly when, all constraints before some constraint being satisfied, that
   * one comes to an unusable attribute before it is violated.
   */
  lemma {:induction false} BrokenExactly(cs: seq<Constraint>, picks: seq<Pick>)
    ensures CheckAll(cs, picks) == Broken <==>
            exists k | 0 <= k < |cs| :: AllAgree(cs[..k], picks) && Stuck(cs[k], picks)
  {
    hide Agree, Stuck, CheckFrom;
    if cs != [] {
      var rest := cs[1..];
      BrokenExactly(rest, picks);
      OneBroken(cs[0], picks);
      assert cs[..0] == [];
      forall k | 0 <= k < |rest|
        ensures AllAgree(cs[..k + 1], picks) <==> Agree(cs[0], picks) && AllAgree(rest[..k], picks)
      {
        assert cs[..k + 1] == [cs[0]] + rest[..k];
      }
    }
  }

  lemma OneBroken(c: Constraint, picks: seq<Pick>)
    ensures CheckOne(c, picks) == Broken <==> Stuck(c, picks)
    ensures CheckOne(c, picks) == Holds <==> Agree(c, picks)
  {
    hide AppliesTo, Read, Agree;
    CheckFromMeans(c, picks, None);
    BrokenFrom(c, picks, None);
    forall i | 0 <= i < |picks| ensures CheckFrom(c, picks[..i], None) == Holds <==> Agree(c, picks[..i]) {
      CheckFromMeans(c, picks[..i], None);
    }
  }

  // ---------- what names and attributes mean ----------

  lemma {:induction false} CutsAtFirst(before: string, after: string)
    requires '/' !in before
    ensures Cut(before + "/" + after) == Some((before, after))
  {
    var s := before + "/" + after;
    if before != "" {
      assert s[1..] == before[1..] + "/" + after;
      CutsAtFirst(before[1..], after);
      assert before == [before[0]] + before[1..];
    }
  }

  /** A constraint covers a request it names, and every subrequest of it; without names it covers all. */
  lemma AppliesExactly(c: Constraint, request: string, sub: string)
    requires '/' !in request
    ensures AppliesTo(c, request) <==> c.requests == {} || request in c.requests
    ensures AppliesTo(c, request + "/" + sub) <==>
            c.requests == {} || request in c.requests || request + "/" + sub in c.requests
  {
    CutsAtFirst(request, sub);
  }

  /** An attribute is looked up by its full name, and without its domain when that is the device's driver. */
  lemma LooksUpExactly(p: Pick, domain: string, name: string)
    requires '/' !in domain
    ensures var attributes, full := p.device.attributes, domain + "/" + name;
            && (full in attributes ==> Lookup(p, full) == Some(attributes[full]))
            && (full !in attributes && domain == p.grant.key.driver && name in attributes ==>
                  Lookup(p, full) == Some(attributes[name]))
            && (full !in attributes && !(domain == p.grant.key.driver && name in attributes) ==>
                  Lookup(p, full) == None)
  {
    CutsAtFirst(domain, name);
  }

  /** How many scalar fields are set. */
  ghost function FieldsSet(a: Attribute): nat {
    (if a.text.Some? then 1 else 0) + (if a.number.Some? then 1 else 0) + (if a.flag.Some? then 1 else 0)
    + (if a.version.Some? then 1 else 0)
  }

  /** The one scalar that is set, told apart from equal values of other kinds. */
  lemma ReadsTheOneScalar(a: Attribute)
    ensures ScalarOf(a).Unusable? <==> a.listed || FieldsSet(a) > 1
    ensures ScalarOf(a).Missing? <==> !a.listed && FieldsSet(a) == 0
    ensures ScalarOf(a).Value? && a.text.Some? ==> ScalarOf(a).scalar == Text(a.text.value)
    ensures ScalarOf(a).Value? && a.number.Some? ==> ScalarOf(a).scalar == Number(a.number.value)
    ensures ScalarOf(a).Value? && a.flag.Some? ==> ScalarOf(a).scalar == Flag(a.flag.value)
    ensures ScalarOf(a).Value? && a.version.Some? ==> ScalarOf(a).scalar == Version(a.version.value)
  {
  }

  /** The name of a request, or of a subrequest with its parent's. */
  ghost predicate Names(requests: seq<Request>, name: string) {
    exists i | 0 <= i < |requests| ::
      || name == requests[i].name
      || exists j | 0 <= j < |requests[i].firstAvailable| ::
           name == requests[i].name + "/" + requests[i].firstAvailable[j].name
  }

  /** The constraint matches an attribute with domain and name, for requests of the claim. */
  ghost predicate MatchesOneAttribute(raw: RawConstraint, requests: seq<Request>) {
    && !raw.distinctSet && raw.matchAttribute.Some?
    && (exists domain, name ::
          && raw.matchAttribute.value == domain + "/" + name
          && domain != "" && name != "" && '/' !in domain && '/' !in name)
    && forall x | x in raw.requests :: Names(requests, x)
  }

  lemma QualifiedExactly(s: string)
    ensures FullyQualified(s) <==> exists domain, name ::
              s == domain + "/" + name && domain != "" && name != "" && '/' !in domain && '/' !in name
  {
    if domain, name :| s == domain + "/" + name && domain != "" && name != "" && '/' !in domain && '/' !in name {
      CutsAtFirst(domain, name);
    }
  }

  /** Exactly the constraints of this form are accepted, and none is changed. */
  lemma ConstraintsIffSupportable(claim: Claim)
    ensures var out := SupportedConstraints(claim);
            && (out.Ok? <==> forall raw | raw in claim.constraints :: MatchesOneAttribute(raw, claim.requests))
            && (out.Err? ==> out.failure == Unsupported)
            && (out.Ok? ==>
                  && |out.value| == |claim.constraints|
                  && forall i | 0 <= i < |out.value| ::
                       && Some(out.value[i].attribute) == claim.constraints[i].matchAttribute
                       && forall x :: x in out.value[i].requests <==> x in claim.constraints[i].requests)
  {
    hide FullyQualified, Names;
    forall raw | raw in claim.constraints
      ensures Supported(raw, References(claim.requests)) <==> MatchesOneAttribute(raw, claim.requests)
    {
      if raw.matchAttribute.Some? { QualifiedExactly(raw.matchAttribute.value); }
      forall x ensures x in References(claim.requests) <==> Names(claim.requests, x) {
        ReferencesExactly(claim.requests, x);
      }
    }
  }

  lemma ReferencesExactly(requests: seq<Request>, x: string)
    ensures x in References(requests) <==> Names(requests, x)
  {
  }
}
