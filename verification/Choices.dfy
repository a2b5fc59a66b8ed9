/** The choices open to a request in a given search state, in the order in which they are tried. */
module Choices {
  import opened Types
  import opened Candidates
  import opened Combinations
  import Pools

  /** Devices chosen so far, the node they are on, and what they reserve. */
  datatype State = State(picks: seq<Pick>, node: string, usage: Attempt)

  const START := State([], "", NOTHING)

  /**
   * One way to serve a request: the alternative, the node and the devices. `rank` is the position of
   * the node in the node order and `indices` the positions of the devices among its candidates.
   */
  datatype Choice = Choice(alternative: nat, rank: nat, indices: seq<nat>, node: string, picks: seq<Pick>)

  function After(st: State, c: Choice): State {
    State(st.picks + c.picks, if st.node == "" then c.node else st.node, ReserveAll(st.usage, c.picks))
  }

  /** The state after a whole path of choices. */
  function Finish(st: State, path: seq<Choice>): State
    decreases |path|
  {
    if path == [] then st else Finish(After(st, path[0]), path[1..])
  }

  lemma {:induction false} FinishSnoc(st: State, path: seq<Choice>, c: Choice)
    ensures Finish(st, path + [c]) == After(Finish(st, path), c)
    decreases |path|
  {
    hide After;
    if path == [] {
      assert path + [c] == [c];
      assert [c][1..] == [];
    } else {
      FinishSnoc(After(st, path[0]), path[1..], c);
      assert (path + [c])[1..] == path[1..] + [c];
    }
  }

  function Remaining(st: State): int {
    MAX_RESULTS - |st.picks|
  }

  function QueryFor(p: Planner, a: Alternative): Query
    requires a.className in p.classes
  {
    Query(a, p.classes[a.className])
  }

  // ---------- the choices of one alternative ----------

  /** What trying one alternative, or several in a row, brings up. */
  datatype Moves = Moves(choices: seq<Choice>, missing: nat, overLimit: bool, failure: Option<Failure>)

  function CombinationsOn(picks: seq<Pick>, node: string, alternative: nat, rank: nat, count: nat): (r: seq<Choice>)
    ensures |r| == |Combos(0, |picks|, count)|
  {
    var combos := Combos(0, |picks|, count);
    seq(|combos|, i requires 0 <= i < |combos| =>
      CombosComplete(0, |picks|, count, combos[i]);
      Choice(alternative, rank, combos[i], node, Select(picks, combos[i])))
  }

  /** Node after node, all combinations of the wanted size. */
  function ExactChoices(cs: seq<Candidate>, nodes: seq<string>, alternative: nat, count: nat): seq<Choice>
  {
    if nodes == [] then []
    else
      var rank := |nodes| - 1;
      ExactChoices(cs, nodes[..rank], alternative, count) +
      CombinationsOn(PicksOn(cs, nodes[rank]), nodes[rank], alternative, rank, count)
  }

  function ExactMoves(p: Planner, q: Query, st: State, alternative: nat): Moves {
    match Scan(p, q, st.usage, ExactSites(p.slices, st.node))
    case Err(f) => Moves([], 0, false, Some(f))
    case Ok(cs) => Moves(ExactChoices(cs, NodeOrder(cs), alternative, q.alternative.count), 0, false, None)
  }

  function PicksOf(cs: seq<Candidate>): (r: seq<Pick>)
    ensures |r| == |cs| && forall i | 0 <= i < |cs| :: r[i] == cs[i].pick
  {
    seq(|cs|, i requires 0 <= i < |cs| => cs[i].pick)
  }

  /** All matching devices of one node, or why they cannot be determined. */
  function AllOn(p: Planner, q: Query, st: State, node: string): Outcome<seq<Pick>> {
    match AllSites(p.slices, st.node, node)
    case None => Err(Unsupported)
    case Some(sites) =>
      match Scan(p, q, st.usage, sites)
      case Err(f) => Err(f)
      case Ok(cs) => Ok(PicksOf(cs))
  }

  /** Visits the nodes in order. A failing node is skipped; its failure is kept for the end. */
  function AllFrom(p: Planner, q: Query, st: State, nodes: seq<string>, alternative: nat): Moves
  {
    if nodes == [] then Moves([], 0, false, None)
    else
      var rank := |nodes| - 1;
      var before := AllFrom(p, q, st, nodes[..rank], alternative);
      match AllOn(p, q, st, nodes[rank])
      case Err(f) => before.(failure := Some(f))
      case Ok(picks) =>
        if picks == [] then before
        else if |picks| > Remaining(st) then before.(overLimit := true)
        else before.(choices := before.choices + [Choice(alternative, rank, [], nodes[rank], picks)])
  }

  function AllMoves(p: Planner, q: Query, st: State, alternative: nat): Moves {
    var m := AllFrom(p, q, st, ManagedNodes(p.slices, st.node), alternative);
    if m.overLimit then m.(failure := None) else m
  }

  function AlternativeMoves(p: Planner, a: Alternative, st: State, alternative: nat): Moves {
    if a.className !in p.classes then Moves([], 1, false, None)
    else if a.mode == ExactCount && a.count > Remaining(st) then Moves([], 0, true, None)
    else if a.mode == All then AllMoves(p, QueryFor(p, a), st, alternative)
    else ExactMoves(p, QueryFor(p, a), st, alternative)
  }

  // ---------- the choices of a request ----------

  /** What each alternative brings up on its own. */
  function PerAlternative(p: Planner, alternatives: seq<Alternative>, st: State): (r: seq<Moves>)
    ensures |r| == |alternatives|
    ensures forall j: nat | j < |r| :: r[j] == AlternativeMoves(p, alternatives[j], st, j)
  {
    seq(|alternatives|, j requires 0 <= j < |alternatives| => AlternativeMoves(p, alternatives[j], st, j))
  }

  /** Alternatives in order, up to the first that fails. */
  function Chain(per: seq<Moves>): Moves
  {
    if per == [] then Moves([], 0, false, None)
    else
      var before, m := Chain(per[..|per| - 1]), per[|per| - 1];
      if before.failure.Some? then before
      else Moves(before.choices + m.choices, before.missing + m.missing, before.overLimit || m.overLimit, m.failure)
  }

  /** The choices of a request in the order they are tried, and the failure met after the last of them. */
  datatype Trace = Trace(choices: seq<Choice>, end: Option<Failure>)

  function EndOf(m: Moves, alternatives: nat): Option<Failure> {
    if m.failure.Some? then m.failure
    else if m.missing == alternatives && alternatives > 0 then Some(ClassNotFound)
    else if m.overLimit && alternatives == 1 then Some(Unsupported)
    else None
  }

  function RequestTrace(p: Planner, r: Request, st: State): Trace {
    match SupportedAlternatives(r)
    case Err(f) => Trace([], Some(f))
    case Ok(alternatives) =>
      var m := Chain(PerAlternative(p, alternatives, st));
      Trace(m.choices, EndOf(m, |alternatives|))
  }

  // ---------- what a legitimate choice is, without any enumeration ----------

  /** Choice c may serve request r in state st. */
  ghost predicate Admissible(p: Planner, r: Request, st: State, c: Choice) {
    && SupportedAlternatives(r).Ok?
    && c.alternative < |SupportedAlternatives(r).value|
    && AdmissibleFor(p, SupportedAlternatives(r).value[c.alternative], st, c)
  }

  /** `answers` is what the devices open to alternative a, with selectors q, would grant on this node. */
  ghost predicate AdmissibleFor(p: Planner, a: Alternative, st: State, c: Choice) {
    && a.className in p.classes
    && DistinctDevices(c.picks)
    && 0 < |c.picks| && |st.picks| + |c.picks| <= 32
    && match a.mode
       case ExactCount => |c.picks| == a.count && TakesOffered(p, QueryFor(p, a), st, c)
       case All => TakesEverything(p, QueryFor(p, a), st, c)
  }

  /** Every device taken is on offer on the choice's node. */
  ghost predicate TakesOffered(p: Planner, q: Query, st: State, c: Choice) {
    forall x | x in c.picks ::
      Offered(Answers(p, q, st.usage, ExactSites(p.slices, st.node)), Candidate(c.node, x))
  }

  /** The node's pools are complete, its devices can be evaluated, and all those on offer are taken. */
  ghost predicate TakesEverything(p: Planner, q: Query, st: State, c: Choice) {
    && AllSites(p.slices, st.node, c.node).Some?
    && Scan(p, q, st.usage, AllSites(p.slices, st.node, c.node).value).Ok?
    && forall x :: x in c.picks <==>
         Offered(Answers(p, q, st.usage, AllSites(p.slices, st.node, c.node).value), Candidate(c.node, x))
  }

  // ---------- the enumeration lists the legitimate choices and no others ----------

  lemma {:induction false} ExactChoicesListed(
    cs: seq<Candidate>, nodes: seq<string>, alternative: nat, count: nat, c: Choice)
    ensures c in ExactChoices(cs, nodes, alternative, count) <==>
            && c.rank < |nodes| && c.node == nodes[c.rank] && c.alternative == alternative
            && |c.indices| == count && Increasing(c.indices, 0, |PicksOn(cs, c.node)|)
            && c.picks == Select(PicksOn(cs, c.node), c.indices)
  {
    if nodes != [] {
      var rank := |nodes| - 1;
      ExactChoicesListed(cs, nodes[..rank], alternative, count, c);
      CombinationsListed(PicksOn(cs, nodes[rank]), nodes[rank], alternative, rank, count, c);
    }
  }

  lemma CombinationsListed(picks: seq<Pick>, node: string, alternative: nat, rank: nat, count: nat, c: Choice)
    ensures c in CombinationsOn(picks, node, alternative, rank, count) <==>
            && c.rank == rank && c.node == node && c.alternative == alternative
            && |c.indices| == count && Increasing(c.indices, 0, |picks|) && c.picks == Select(picks, c.indices)
  {
    var combos := Combos(0, |picks|, count);
    CombosComplete(0, |picks|, count, c.indices);
    if c.indices in combos {
      var i :| 0 <= i < |combos| && combos[i] == c.indices;
      assert CombinationsOn(picks, node, alternative, rank, count)[i].indices == c.indices;
    }
  }

  lemma SelectDistinct(picks: seq<Pick>, indices: seq<nat>)
    requires DistinctDevices(picks) && Increasing(indices, 0, |picks|)
    ensures DistinctDevices(Select(picks, indices))
  {
  }

  lemma ExactMovesSound(p: Planner, a: Alternative, st: State, alternative: nat, c: Choice)
    requires WellFormed(a) && a.mode == ExactCount && a.className in p.classes && a.count <= Remaining(st)
    requires c in ExactMoves(p, QueryFor(p, a), st, alternative).choices
    ensures c.alternative == alternative && AdmissibleFor(p, a, st, c)
  {
    var q, sites := QueryFor(p, a), ExactSites(p.slices, st.node);
    var cs := Scan(p, q, st.usage, sites).value;
    ExactChoicesListed(cs, NodeOrder(cs), alternative, a.count, c);
    ScanExact(p, q, st.usage, sites);
    PicksOnExact(cs, c.node);
    SelectDistinct(PicksOn(cs, c.node), c.indices);
    forall x | x in c.picks
      ensures Offered(Answers(p, q, st.usage, sites), Candidate(c.node, x))
    {
      assert x in PicksOn(cs, c.node);
    }
  }

  /** c and d take the same devices on the same node for the same alternative. */
  ghost predicate Twins(c: Choice, d: Choice) {
    c.alternative == d.alternative && c.node == d.node && multiset(c.picks) == multiset(d.picks)
  }

  lemma ExactMovesComplete(p: Planner, a: Alternative, st: State, c: Choice) returns (d: Choice)
    requires a.mode == ExactCount && AdmissibleFor(p, a, st, c)
    requires ExactMoves(p, QueryFor(p, a), st, c.alternative).failure.None?
    ensures d in ExactMoves(p, QueryFor(p, a), st, c.alternative).choices && Twins(c, d)
  {
    var q, sites := QueryFor(p, a), ExactSites(p.slices, st.node);
    var cs := Scan(p, q, st.usage, sites).value;
    ScanExact(p, q, st.usage, sites);
    PicksOnExact(cs, c.node);
    NodeOrderCovers(cs, c.node);
    assert c.picks[0] in c.picks;
    var rank :| 0 <= rank < |NodeOrder(cs)| && NodeOrder(cs)[rank] == c.node;
    var indices := SubsetIsCombination(PicksOn(cs, c.node), c.picks);
    d := Choice(c.alternative, rank, indices, c.node, Select(PicksOn(cs, c.node), indices));
    ExactChoicesListed(cs, NodeOrder(cs), c.alternative, a.count, d);
  }

  lemma {:induction false} AllFromListed(
    p: Planner, q: Query, st: State, nodes: seq<string>, alternative: nat, c: Choice)
    ensures c in AllFrom(p, q, st, nodes, alternative).choices <==>
            && c.rank < |nodes| && c.node == nodes[c.rank] && c.alternative == alternative && c.indices == []
            && AllOn(p, q, st, c.node) == Ok(c.picks) && 0 < |c.picks| <= Remaining(st)
  {
    hide AllOn;
    if nodes != [] {
      AllFromListed(p, q, st, nodes[..|nodes| - 1], alternative, c);
    }
  }

  lemma AllOnExact(p: Planner, q: Query, st: State, node: string)
    requires AllOn(p, q, st, node).Ok?
    ensures var sites, picks := AllSites(p.slices, st.node, node).value, AllOn(p, q, st, node).value;
            && DistinctDevices(picks)
            && forall x :: x in picks <==> Offered(Answers(p, q, st.usage, sites), Candidate(node, x))
  {
    var sites := AllSites(p.slices, st.node, node).value;
    var cs := Scan(p, q, st.usage, sites).value;
    ScanExact(p, q, st.usage, sites);
    HealthyOnNode(node, Pools.CurrentSlices(ManagedOn(p.slices, st.node, node)).value);
    var picks := PicksOf(cs);
    forall x
      ensures x in picks <==> Candidate(node, x) in cs
    {
      if x in picks {
        var i :| 0 <= i < |picks| && picks[i] == x;
        assert cs[i] in cs && Offered(Answers(p, q, st.usage, sites), cs[i]);
      }
      if Candidate(node, x) in cs {
        var i :| 0 <= i < |cs| && cs[i] == Candidate(node, x);
        assert picks[i] == x;
      }
    }
  }

  lemma {:induction false} HealthyOnNode(node: string, slices: seq<Slice>)
    ensures forall s | s in HealthySites(node, slices) :: s.node == node
  {
    if slices != [] { HealthyOnNode(node, slices[..|slices| - 1]); }
  }

  lemma {:induction false} ManagedNodesCover(slices: seq<Slice>, pinned: string, node: string)
    ensures node in ManagedNodes(slices, pinned) <==> ManagedOn(slices, pinned, node) != []
  {
    if slices != [] { ManagedNodesCover(slices[..|slices| - 1], pinned, node); }
  }

  lemma AllMovesComplete(p: Planner, a: Alternative, st: State, c: Choice) returns (d: Choice)
    requires a.mode == All && AdmissibleFor(p, a, st, c)
    ensures d in AllMoves(p, QueryFor(p, a), st, c.alternative).choices && Twins(c, d)
  {
    var q := QueryFor(p, a);
    assert AllOn(p, q, st, c.node).Ok?;
    var picks := AllOn(p, q, st, c.node).value;
    AllOnExact(p, q, st, c.node);
    SameDistinct(c.picks, picks);
    ManagedNodesCover(p.slices, st.node, c.node);
    assert ManagedOn(p.slices, st.node, c.node) != [];
    var nodes := ManagedNodes(p.slices, st.node);
    var rank :| 0 <= rank < |nodes| && nodes[rank] == c.node;
    d := Choice(c.alternative, rank, [], c.node, picks);
    AllFromListed(p, q, st, nodes, c.alternative, d);
  }

  lemma SameDistinct(a: seq<Pick>, b: seq<Pick>)
    requires DistinctDevices(a) && DistinctDevices(b) && forall x :: x in a <==> x in b
    ensures multiset(a) == multiset(b) && |a| == |b|
  {
    forall x
      ensures multiset(a)[x] == multiset(b)[x]
    {
      OnceAtMost(a, x);
      OnceAtMost(b, x);
    }
    assert multiset(a) == multiset(b);
    assert |a| == |multiset(a)| && |b| == |multiset(b)|;
  }

  lemma AlternativeMovesSound(p: Planner, a: Alternative, st: State, alternative: nat, c: Choice)
    requires WellFormed(a) && c in AlternativeMoves(p, a, st, alternative).choices
    ensures c.alternative == alternative && AdmissibleFor(p, a, st, c)
  {
    if a.mode == ExactCount {
      ExactMovesSound(p, a, st, alternative, c);
    } else {
      AllFromListed(p, QueryFor(p, a), st, ManagedNodes(p.slices, st.node), alternative, c);
      AllOnExact(p, QueryFor(p, a), st, c.node);
    }
  }

  lemma AlternativeMovesComplete(p: Planner, a: Alternative, st: State, c: Choice) returns (d: Choice)
    requires AdmissibleFor(p, a, st, c) && AlternativeMoves(p, a, st, c.alternative).failure.None?
    ensures d in AlternativeMoves(p, a, st, c.alternative).choices && Twins(c, d)
  {
    if a.mode == ExactCount {
      d := ExactMovesComplete(p, a, st, c);
    } else {
      d := AllMovesComplete(p, a, st, c);
    }
  }

  lemma AlternativeLabel(p: Planner, a: Alternative, st: State, alternative: nat, c: Choice)
    requires c in AlternativeMoves(p, a, st, alternative).choices
    ensures c.alternative == alternative
  {
    var q := QueryFor(p, a);
    if a.mode == All {
      AllFromListed(p, q, st, ManagedNodes(p.slices, st.node), alternative, c);
    } else {
      var cs := Scan(p, q, st.usage, ExactSites(p.slices, st.node)).value;
      ExactChoicesListed(cs, NodeOrder(cs), alternative, a.count, c);
    }
  }

  ghost predicate Unfailing(per: seq<Moves>, n: nat)
    requires n <= |per|
  {
    forall j: nat | j < n :: per[j].failure.None?
  }

  ghost predicate Labelled(per: seq<Moves>) {
    forall j: nat, c | j < |per| && c in per[j].choices :: c.alternative == j
  }

  lemma PerAlternativeLabelled(p: Planner, alternatives: seq<Alternative>, st: State)
    ensures Labelled(PerAlternative(p, alternatives, st))
  {
    var per := PerAlternative(p, alternatives, st);
    forall j: nat, c | j < |per| && c in per[j].choices
      ensures c.alternative == j
    {
      AlternativeLabel(p, alternatives[j], st, j, c);
    }
  }

  /** A choice is listed exactly when its own alternative lists it and no earlier alternative fails. */
  lemma {:induction false} ChainListed(per: seq<Moves>, c: Choice)
    requires Labelled(per)
    ensures c in Chain(per).choices <==>
            c.alternative < |per| && Unfailing(per, c.alternative) && c in per[c.alternative].choices
    ensures Chain(per).failure.None? <==> Unfailing(per, |per|)
  {
    if per != [] {
      var last := |per| - 1;
      var init := per[..last];
      ChainListed(init, c);
      assert forall n: nat | n <= last :: Unfailing(init, n) <==> Unfailing(per, n);
    }
  }

  /** Everything that is tried is legitimate. */
  lemma TraceSound(p: Planner, r: Request, st: State, c: Choice)
    requires c in RequestTrace(p, r, st).choices
    ensures Admissible(p, r, st, c)
  {
    var alternatives := SupportedAlternatives(r).value;
    PerAlternativeLabelled(p, alternatives, st);
    ChainListed(PerAlternative(p, alternatives, st), c);
    AlternativeMovesSound(p, alternatives[c.alternative], st, c.alternative, c);
  }

  /** The alternatives of the request up to and including number n bring up no failure. */
  ghost predicate UnfailingThrough(p: Planner, r: Request, st: State, n: nat)
    requires SupportedAlternatives(r).Ok? && n < |SupportedAlternatives(r).value|
  {
    Unfailing(PerAlternative(p, SupportedAlternatives(r).value, st), n + 1)
  }

  /** Everything legitimate is tried, up to the order in which devices are named, before any failure. */
  lemma TraceComplete(p: Planner, r: Request, st: State, c: Choice) returns (d: Choice)
    requires Admissible(p, r, st, c) && UnfailingThrough(p, r, st, c.alternative)
    ensures d in RequestTrace(p, r, st).choices && Twins(c, d)
  {
    var alternatives := SupportedAlternatives(r).value;
    var per := PerAlternative(p, alternatives, st);
    assert per[c.alternative].failure.None?;
    d := AlternativeMovesComplete(p, alternatives[c.alternative], st, c);
    PerAlternativeLabelled(p, alternatives, st);
    ChainListed(per, d);
  }

  /** A trace that ends without failure has come through every alternative without failure. */
  lemma TraceUnfailing(p: Planner, r: Request, st: State, n: nat)
    requires RequestTrace(p, r, st).end.None?
    ensures SupportedAlternatives(r).Ok?
    ensures n < |SupportedAlternatives(r).value| ==> UnfailingThrough(p, r, st, n)
  {
    var alternatives := SupportedAlternatives(r).value;
    PerAlternativeLabelled(p, alternatives, st);
    ChainListed(PerAlternative(p, alternatives, st), Choice(0, 0, [], "", []));
  }

  // ---------- the order of the enumeration ----------

  /** The order of preference: alternative, then node, then devices in lexicographic order. */
  predicate Before(c: Choice, d: Choice) {
    || c.alternative < d.alternative
    || (c.alternative == d.alternative &&
        (c.rank < d.rank || (c.rank == d.rank && LexLess(c.indices, d.indices))))
  }

  ghost predicate Ascending(choices: seq<Choice>) {
    forall i, j | 0 <= i < j < |choices| :: Before(choices[i], choices[j])
  }

  lemma AscendingConcat(a: seq<Choice>, b: seq<Choice>)
    requires Ascending(a) && Ascending(b)
    requires forall c, d | c in a && d in b :: Before(c, d)
    ensures Ascending(a + b)
  {
  }

  lemma {:induction false} ExactChoicesAscend(cs: seq<Candidate>, nodes: seq<string>, alternative: nat, count: nat)
    ensures Ascending(ExactChoices(cs, nodes, alternative, count))
  {
    if nodes != [] {
      var rank := |nodes| - 1;
      var before := ExactChoices(cs, nodes[..rank], alternative, count);
      var last := CombinationsOn(PicksOn(cs, nodes[rank]), nodes[rank], alternative, rank, count);
      ExactChoicesAscend(cs, nodes[..rank], alternative, count);
      forall i, j | 0 <= i < j < |last|
        ensures Before(last[i], last[j])
      {
        CombosAscend(0, |PicksOn(cs, nodes[rank])|, count);
      }
      forall c, d | c in before && d in last
        ensures Before(c, d)
      {
        ExactChoicesListed(cs, nodes[..rank], alternative, count, c);
        CombinationsListed(PicksOn(cs, nodes[rank]), nodes[rank], alternative, rank, count, d);
      }
      AscendingConcat(before, last);
    }
  }

  lemma {:induction false} AllFromAscends(p: Planner, q: Query, st: State, nodes: seq<string>, alternative: nat)
    ensures Ascending(AllFrom(p, q, st, nodes, alternative).choices)
  {
    if nodes != [] {
      var rank := |nodes| - 1;
      var before := AllFrom(p, q, st, nodes[..rank], alternative).choices;
      AllFromAscends(p, q, st, nodes[..rank], alternative);
      forall c | c in before ensures c.rank < rank && c.alternative == alternative {
        AllFromListed(p, q, st, nodes[..rank], alternative, c);
      }
      var picks := AllOn(p, q, st, nodes[rank]);
      if picks.Ok? {
        AscendingConcat(before, [Choice(alternative, rank, [], nodes[rank], picks.value)]);
      }
    }
  }

  lemma AlternativeAscends(p: Planner, a: Alternative, st: State, alternative: nat)
    ensures Ascending(AlternativeMoves(p, a, st, alternative).choices)
  {
    if AlternativeMoves(p, a, st, alternative).choices != [] {
      if a.mode == All {
        AllFromAscends(p, QueryFor(p, a), st, ManagedNodes(p.slices, st.node), alternative);
      } else {
        var cs := Scan(p, QueryFor(p, a), st.usage, ExactSites(p.slices, st.node)).value;
        ExactChoicesAscend(cs, NodeOrder(cs), alternative, a.count);
      }
    }
  }

  lemma {:induction false} ChainAscends(per: seq<Moves>)
    requires Labelled(per) && forall j | 0 <= j < |per| :: Ascending(per[j].choices)
    ensures Ascending(Chain(per).choices)
  {
    if per != [] {
      var last := |per| - 1;
      ChainAscends(per[..last]);
      var before, m := Chain(per[..last]).choices, per[last].choices;
      forall c, d | c in before && d in m
        ensures Before(c, d)
      {
        ChainListed(per[..last], c);
      }
      AscendingConcat(before, m);
    }
  }

  /** Choices are tried in order of preference, none of them twice. */
  lemma TraceAscends(p: Planner, r: Request, st: State)
    ensures Ascending(RequestTrace(p, r, st).choices)
  {
    if SupportedAlternatives(r).Ok? {
      var alternatives := SupportedAlternatives(r).value;
      PerAlternativeLabelled(p, alternatives, st);
      forall j: nat | j < |alternatives|
        ensures Ascending(AlternativeMoves(p, alternatives[j], st, j).choices)
      {
        AlternativeAscends(p, alternatives[j], st, j);
      }
      ChainAscends(PerAlternative(p, alternatives, st));
    }
  }

  lemma {:induction false} LexLessAsymmetric(a: seq<nat>, b: seq<nat>)
    requires LexLess(a, b)
    ensures !LexLess(b, a)
  {
    if a[0] == b[0] { LexLessAsymmetric(a[1..], b[1..]); }
  }

  lemma BeforeAsymmetric(c: Choice, d: Choice)
    requires Before(c, d)
    ensures !Before(d, c)
  {
    if LexLess(c.indices, d.indices) { LexLessAsymmetric(c.indices, d.indices); }
  }
}
