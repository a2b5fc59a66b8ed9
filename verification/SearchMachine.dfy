/** The search as the program runs it: callbacks, a shared budget, a selection stack and cloned usage maps. */
module SearchMachine {
  import opened Types
  import opened Candidates
  import opened Constraints
  import opened Combinations
  import opened Choices
  import opened Backtracking
  import opened UsageMaps
  import Collector

  const SEARCH_LIMIT: nat := 100_000

  /** The shared number of choices that may still be examined. */
  class SearchBudget {
    const limit: nat
    var remaining: nat

    constructor (limit: nat)
      ensures this.limit == limit && remaining == limit
    {
      this.limit := limit;
      remaining := limit;
    }

    method Consume() returns (ok: bool)
      modifies this
      ensures ok <==> old(remaining) > 0
      ensures remaining == if ok then old(remaining) - 1 else old(remaining)
    {
      if remaining <= 0 {
        return false;
      }
      remaining := remaining - 1;
      return true;
    }
  }

  /** A search state: what has been chosen, and the usage maps that belong to this branch alone. */
  datatype Branch = Branch(picks: seq<Pick>, node: string, usage: AttemptUsage)

  /** The search state that the branch's own devices make, reserved from scratch. */
  ghost function StateOf(b: Branch): State {
    State(b.picks, b.node, ReserveAll(NOTHING, b.picks))
  }

  /** The usage maps hold what reserving the branch's own devices from scratch gives. */
  ghost predicate Isolated(b: Branch)
    reads b.usage, b.usage.Repr
  {
    b.usage.Valid() && b.usage.Value() == StateOf(b).usage
  }

  /** Isolation depends on the branch's own usage maps alone. */
  twostate lemma StillIsolated(b: Branch)
    requires old(Isolated(b)) && unchanged(b.usage)
    requires forall k | k in b.usage.consumed :: unchanged(b.usage.consumed[k])
    ensures Isolated(b)
  {
  }

  /** The child branch owns a new usage object and new tallies; nothing of its parent or siblings is touched. */
  method WithSelection(b: Branch, c: Choice) returns (next: Branch)
    requires Isolated(b)
    ensures fresh(next.usage.Repr) && Isolated(next) && StateOf(next) == After(StateOf(b), c)
  {
    var usage := b.usage.Clone();
    for i := 0 to |c.picks|
      invariant usage.Valid() && fresh(usage.Repr) && usage.Value() == ReserveAll(b.usage.Value(), c.picks[..i])
    {
      usage.ReserveGrant(c.picks[i].grant);
      assert c.picks[..i + 1][..i] == c.picks[..i];
    }
    assert c.picks[..|c.picks|] == c.picks;
    ReserveConcat(NOTHING, b.picks, c.picks);
    return Branch(b.picks + c.picks, if b.node == "" then c.node else b.node, usage);
  }

  // ---------- what running through a list of choices comes to ----------

  /** The callback's answer: go on, or stop with the verdict. */
  datatype Step = Continue | Stop(verdict: Verdict)

  /** What everything below one request works with. */
  datatype Job = Job(planner: Planner, requests: seq<Request>, constraints: seq<Constraint>)

  function Run(t: Job, st: State, choices: seq<Choice>, budget: nat): (Step, nat)
    requires t.requests != []
    decreases |choices|
  {
    if choices == [] then (Continue, budget)
    else if budget == 0 then (Stop(OutOfBudget), 0)
    else
      var next := After(st, choices[0]);
      match CheckAll(t.constraints, next.picks)
      case Broken => (Stop(Aborted(Unsupported)), budget - 1)
      case Violated => Run(t, st, choices[1..], budget - 1)
      case Holds =>
        match Search(t.planner, t.requests[1..], t.constraints, next, budget - 1)
        case (Unsolvable, left) => Run(t, st, choices[1..], left)
        case (Solved(path), left) => (Stop(Solved([choices[0]] + path)), left)
        case (v, left) => (Stop(v), left)
  }

  lemma {:induction false} RunIsSearchEach(t: Job, st: State, choices: seq<Choice>, end: Option<Failure>, budget: nat)
    requires t.requests != []
    ensures var (step, left) := Run(t, st, choices, budget);
            SearchEach(t.planner, t.requests, t.constraints, st, choices, end, budget) ==
              (if step.Stop? then step.verdict else if end.Some? then Aborted(end.value) else Unsolvable, left)
    decreases |choices|
  {
    if choices != [] && budget > 0 {
      var next := After(st, choices[0]);
      match CheckAll(t.constraints, next.picks)
      case Broken =>
      case Violated => RunIsSearchEach(t, st, choices[1..], end, budget - 1);
      case Holds =>
        var left := Search(t.planner, t.requests[1..], t.constraints, next, budget - 1).1;
        RunIsSearchEach(t, st, choices[1..], end, left);
    }
  }

  lemma {:induction false} RunConcat(t: Job, st: State, a: seq<Choice>, b: seq<Choice>, budget: nat)
    requires t.requests != []
    ensures var first := Run(t, st, a, budget);
            Run(t, st, a + b, budget) == if first.0.Continue? then Run(t, st, b, first.1) else first
    decreases |a|
  {
    if a == [] {
      assert a + b == b;
    } else {
      assert (a + b)[1..] == a[1..] + b;
      if budget > 0 {
        var next := After(st, a[0]);
        match CheckAll(t.constraints, next.picks)
        case Broken =>
        case Violated => RunConcat(t, st, a[1..], b, budget - 1);
        case Holds =>
          RunConcat(t, st, a[1..], b, Search(t.planner, t.requests[1..], t.constraints, next, budget - 1).1);
      }
    }
  }

  lemma RunNothing(t: Job, st: State, budget: nat)
    requires t.requests != []
    ensures Run(t, st, [], budget) == (Continue, budget)
  {
  }

  lemma RunStops(t: Job, st: State, some: seq<Choice>, all: seq<Choice>, budget: nat)
    requires t.requests != [] && some <= all && Run(t, st, some, budget).0.Stop?
    ensures Run(t, st, all, budget) == Run(t, st, some, budget)
  {
  }

  // ---------- the recursive search ----------

  method SearchRequests(t: Job, b: Branch, budget: SearchBudget) returns (v: Verdict)
    requires Isolated(b)
    modifies budget
    ensures Isolated(b)
    ensures (v, budget.remaining) ==
            Search(t.planner, t.requests, t.constraints, StateOf(b), old(budget.remaining))
    decreases |t.requests|, 6
  {
    if t.requests == [] {
      return Solved([]);
    }
    var step, end := ForEachRequestSelection(t, b, budget);
    ghost var trace := RequestTrace(t.planner, t.requests[0], StateOf(b));
    RunIsSearchEach(t, StateOf(b), trace.choices, trace.end, old(budget.remaining));
    match step {
      case Stop(verdict) => return verdict;
      case Continue => return if end.Some? then Aborted(end.value) else Unsolvable;
    }
  }

  lemma RunOne(t: Job, st: State, c: Choice, budget: nat)
    requires t.requests != []
    ensures Run(t, st, [c], budget) ==
            if budget == 0 then (Stop(OutOfBudget), 0)
            else
              var next, holds := After(st, c), CheckAll(t.constraints, After(st, c).picks);
              if holds == Broken then (Stop(Aborted(Unsupported)), budget - 1)
              else if holds == Violated then (Continue, budget - 1)
              else
                var (v, left) := Search(t.planner, t.requests[1..], t.constraints, next, budget - 1);
                (if v.Solved? then Stop(Solved([c] + v.path)) else if v.Unsolvable? then Continue else Stop(v), left)
  {
  }

  /** The callback given to the iteration: examines one choice and searches below it. */
  method Yield(t: Job, b: Branch, c: Choice, budget: SearchBudget) returns (step: Step)
    requires t.requests != [] && Isolated(b)
    modifies budget
    ensures Isolated(b)
    ensures (step, budget.remaining) == Run(t, StateOf(b), [c], old(budget.remaining))
    decreases |t.requests|, 0
  {
    hide Run, Search, ReserveAll, CheckAll, Isolated;
    RunOne(t, StateOf(b), c, budget.remaining);
    var ok := budget.Consume();
    StillIsolated(b);
    if !ok {
      return Stop(OutOfBudget);
    }
    var next := WithSelection(b, c);
    var matches := CheckConstraints(t.constraints, next.picks);
    if matches == Broken {
      return Stop(Aborted(Unsupported));
    }
    if matches == Violated {
      return Continue;
    }
    label Searching:
    var v := SearchRequests(Job(t.planner, t.requests[1..], t.constraints), next, budget);
    StillIsolated@Searching(b);
    match v {
      case Solved(path) => return Stop(Solved([c] + path));
      case Unsolvable => return Continue;
      case _ => return Stop(v);
    }
  }

  /** Tries the alternatives of the first request; `end` is the failure found when none stops the search. */
  method ForEachRequestSelection(t: Job, b: Branch, budget: SearchBudget) returns (step: Step, end: Option<Failure>)
    requires t.requests != [] && Isolated(b)
    modifies budget
    ensures Isolated(b)
    ensures var trace := RequestTrace(t.planner, t.requests[0], StateOf(b));
            && Run(t, StateOf(b), trace.choices, old(budget.remaining)) == (step, budget.remaining)
            && (step.Continue? ==> end == trace.end)
    decreases |t.requests|, 5
  {
    var alternatives := SupportedAlternatives(t.requests[0]);
    if alternatives.Err? {
      return Continue, Some(alternatives.failure);
    }
    hide Run, AlternativeMoves, Chain, Isolated, WellFormed;
    ghost var st, start := StateOf(b), budget.remaining;
    RunNothing(t, st, start);
    ghost var per := PerAlternative(t.planner, alternatives.value, st);
    var missing: nat, overLimit := 0, false;
    NoMoves();
    for i := 0 to |alternatives.value|
      invariant Chain(per[..i]) == Moves(Chain(per[..i]).choices, missing, overLimit, None)
      invariant Run(t, st, Chain(per[..i]).choices, start) == (Continue, budget.remaining)
      invariant Isolated(b)
    {
      ChainNext(per, i);
      RunConcat(t, st, Chain(per[..i]).choices, per[i].choices, start);
      var m;
      step, m := ForEachAlternative(t, b, alternatives.value[i], i, budget);
      ChainGrows(per, i + 1);
      if step.Stop? {
        RunStops(t, st, Chain(per[..i + 1]).choices, Chain(per).choices, start);
        return step, None;
      }
      if m.failure.Some? {
        return Continue, m.failure;
      }
      missing, overLimit := missing + m.missing, overLimit || m.overLimit;
    }
    assert per[..|per|] == per;
    var summary := Moves([], missing, overLimit, None);
    return Continue, EndOf(summary, |alternatives.value|);
  }

  lemma NoMoves()
    ensures Chain([]) == Moves([], 0, false, None)
  {
  }

  lemma ChainNext(per: seq<Moves>, i: nat)
    requires i < |per| && Chain(per[..i]).failure.None?
    ensures var before := Chain(per[..i]);
            Chain(per[..i + 1]) == Moves(before.choices + per[i].choices, before.missing + per[i].missing,
                                         before.overLimit || per[i].overLimit, per[i].failure)
  {
    assert per[..i + 1][..i] == per[..i];
  }

  lemma {:induction false} ChainGrows(per: seq<Moves>, i: nat)
    requires i <= |per|
    ensures Chain(per[..i]).choices <= Chain(per).choices
    ensures Chain(per[..i]).failure.Some? ==> Chain(per) == Chain(per[..i])
  {
    if i < |per| {
      ChainGrows(per[..|per| - 1], i);
      assert per[..|per| - 1][..i] == per[..i];
    } else {
      assert per[..i] == per;
    }
  }

  /** Tries one alternative; the second result is what it brought up besides choices. */
  method ForEachAlternative(t: Job, b: Branch, a: Alternative, alternative: nat, budget: SearchBudget)
    returns (step: Step, m: Moves)
    requires t.requests != [] && Isolated(b)
    modifies budget
    ensures Isolated(b)
    ensures var moves := AlternativeMoves(t.planner, a, StateOf(b), alternative);
            && Run(t, StateOf(b), moves.choices, old(budget.remaining)) == (step, budget.remaining)
            && (step.Continue? ==> m == moves.(choices := []))
    decreases |t.requests|, 4
  {
    if a.className !in t.planner.classes {
      return Continue, Moves([], 1, false, None);
    }
    if a.mode == ExactCount && a.count > MAX_RESULTS - |b.picks| {
      return Continue, Moves([], 0, true, None);
    }
    if a.mode == All {
      step, m := ForEachAll(t, b, QueryFor(t.planner, a), alternative, budget);
    } else {
      step, m := ForEachExact(t, b, QueryFor(t.planner, a), alternative, budget);
    }
  }

  method ForEachAll(t: Job, b: Branch, q: Query, alternative: nat, budget: SearchBudget)
    returns (step: Step, m: Moves)
    requires t.requests != [] && Isolated(b)
    modifies budget
    ensures Isolated(b)
    ensures var moves := AllMoves(t.planner, q, StateOf(b), alternative);
            && Run(t, StateOf(b), moves.choices, old(budget.remaining)) == (step, budget.remaining)
            && (step.Continue? ==> m == moves.(choices := []))
    decreases |t.requests|, 3
  {
    hide Run, AllOn, AllFrom, Isolated;
    ghost var st, start := StateOf(b), budget.remaining;
    RunNothing(t, st, start);
    NoNodesNoMoves(t.planner, q, st, alternative);
    var order, byNode := Collector.ManagedByNode(t.planner.slices, b.node);
    var deferred: Option<Failure>, overLimit := None, false;
    ghost var all := Moves([], 0, false, None);
    for i := 0 to |order|
      invariant all == AllFrom(t.planner, q, st, order[..i], alternative)
      invariant all.missing == 0 && all.overLimit == overLimit && all.failure == deferred
      invariant Run(t, st, all.choices, start) == (Continue, budget.remaining)
      invariant Isolated(b)
    {
      assert order[i] in order;
      var picks := DevicesForAll(t, b, q, order[i], byNode[order[i]]);
      AllFromNext(t.planner, q, st, order, alternative, i, picks);
      ghost var before := all;
      all := AllFrom(t.planner, q, st, order[..i + 1], alternative);
      if picks.Err? {
        deferred := Some(picks.failure);
      } else if picks.value != [] && |picks.value| > MAX_RESULTS - |b.picks| {
        overLimit := true;
      } else if picks.value != [] {
        var c := Choice(alternative, i, [], order[i], picks.value);
        RunConcat(t, st, before.choices, [c], start);
        step := Yield(t, b, c, budget);
        if step.Stop? {
          AllFromGrows(t.planner, q, st, order, alternative, i + 1);
          RunStops(t, st, all.choices, AllFrom(t.planner, q, st, order, alternative).choices, start);
          return step, Moves([], 0, overLimit, None);
        }
      }
    }
    assert order[..|order|] == order;
    return Continue, Moves([], 0, overLimit, if overLimit then None else deferred);
  }

  method DevicesForAll(t: Job, b: Branch, q: Query, node: string, slices: seq<Slice>)
    returns (picks: Outcome<seq<Pick>>)
    requires Isolated(b) && slices == ManagedOn(t.planner.slices, b.node, node)
    ensures picks == AllOn(t.planner, q, StateOf(b), node)
  {
    picks := Collector.CollectAllOn(Evaluating(t.planner, q, b.usage.Value()), node, slices);
    AllOnIsCollected(t.planner, q, StateOf(b), node, picks);
  }

  lemma NoNodesNoMoves(p: Planner, q: Query, st: State, alternative: nat)
    ensures AllFrom(p, q, st, [], alternative) == Moves([], 0, false, None)
  {
  }

  lemma AllFromNext(
    p: Planner, q: Query, st: State, nodes: seq<string>, alternative: nat, i: nat, picks: Outcome<seq<Pick>>)
    requires i < |nodes| && picks == AllOn(p, q, st, nodes[i])
    ensures AllFrom(p, q, st, nodes[..i + 1], alternative) ==
            var before := AllFrom(p, q, st, nodes[..i], alternative);
            if picks.Err? then before.(failure := Some(picks.failure))
            else if picks.value == [] then before
            else if |picks.value| > Remaining(st) then before.(overLimit := true)
            else before.(choices := before.choices + [Choice(alternative, i, [], nodes[i], picks.value)])
  {
    assert nodes[..i + 1][..i] == nodes[..i];
  }

  lemma AllOnIsCollected(p: Planner, q: Query, st: State, node: string, picks: Outcome<seq<Pick>>)
    requires AllSites(p.slices, st.node, node).Some? ==>
               Scan(p, q, st.usage, AllSites(p.slices, st.node, node).value) == Collector.Placed(node, picks)
    requires AllSites(p.slices, st.node, node).None? ==> picks == Err(Unsupported)
    ensures picks == AllOn(p, q, st, node)
  {
    if picks.Ok? {
      assert PicksOf(Collector.CandidatesAt(node, picks.value)) == picks.value;
    }
  }

  lemma {:induction false} AllFromGrows(p: Planner, q: Query, st: State, nodes: seq<string>, alternative: nat, i: nat)
    requires i <= |nodes|
    ensures AllFrom(p, q, st, nodes[..i], alternative).choices <= AllFrom(p, q, st, nodes, alternative).choices
  {
    hide AllOn;
    if i < |nodes| {
      AllFromGrows(p, q, st, nodes[..|nodes| - 1], alternative, i);
      assert nodes[..|nodes| - 1][..i] == nodes[..i];
    } else {
      assert nodes[..i] == nodes;
    }
  }

  method ForEachExact(t: Job, b: Branch, q: Query, alternative: nat, budget: SearchBudget)
    returns (step: Step, m: Moves)
    requires t.requests != [] && Isolated(b)
    modifies budget
    ensures Isolated(b)
    ensures var moves := ExactMoves(t.planner, q, StateOf(b), alternative);
            && Run(t, StateOf(b), moves.choices, old(budget.remaining)) == (step, budget.remaining)
            && (step.Continue? ==> m == moves.(choices := []))
    decreases |t.requests|, 3
  {
    ghost var st, start := StateOf(b), budget.remaining;
    var candidates := Collector.CollectExact(Evaluating(t.planner, q, b.usage.Value()), t.planner.slices, b.node);
    if candidates.Err? {
      return Continue, Moves([], 0, false, Some(candidates.failure));
    }
    ghost var cs := Scan(t.planner, q, st.usage, ExactSites(t.planner.slices, st.node)).value;
    step := ForEachNode(t, b, candidates.value, q.alternative.count, alternative, budget, cs);
    return step, Moves([], 0, false, None);
  }

  method ForEachNode(
    t: Job, b: Branch, candidates: Collector.CandidateSet, count: nat, alternative: nat, budget: SearchBudget,
    ghost cs: seq<Candidate>) returns (step: Step)
    requires t.requests != [] && Isolated(b) && Collector.Groups(candidates, cs)
    modifies budget
    ensures Isolated(b)
    ensures Run(t, StateOf(b), ExactChoices(cs, NodeOrder(cs), alternative, count), old(budget.remaining))
         == (step, budget.remaining)
    decreases |t.requests|, 2, 1
  {
    hide Run, CombinationsOn, ExactChoices;
    ghost var st, start := StateOf(b), budget.remaining;
    var order := candidates.nodeOrder;
    RunNothing(t, st, start);
    NoNodesNoChoices(cs, alternative, count);
    for i := 0 to |order|
      invariant Run(t, st, ExactChoices(cs, order[..i], alternative, count), start) == (Continue, budget.remaining)
      invariant Isolated(b)
    {
      NextNodeChoices(cs, order, alternative, count, i);
      var devices := Collector.Group(candidates, order[i]);
      RunConcat(t, st, ExactChoices(cs, order[..i], alternative, count),
                CombinationsOn(devices, order[i], alternative, i, count), start);
      if |devices| >= count {
        step := ForEachCombination(t, b, devices, count, alternative, i, order[i], budget);
        if step.Stop? {
          ExactChoicesGrow(cs, order, alternative, count, i + 1);
          RunStops(t, st, ExactChoices(cs, order[..i + 1], alternative, count),
                   ExactChoices(cs, order, alternative, count), start);
          return;
        }
      }
    }
    assert order[..|order|] == order;
    return Continue;
  }

  lemma NoNodesNoChoices(cs: seq<Candidate>, alternative: nat, count: nat)
    ensures ExactChoices(cs, [], alternative, count) == []
  {
  }

  lemma NextNodeChoices(cs: seq<Candidate>, nodes: seq<string>, alternative: nat, count: nat, i: nat)
    requires i < |nodes|
    ensures var here := CombinationsOn(PicksOn(cs, nodes[i]), nodes[i], alternative, i, count);
            && ExactChoices(cs, nodes[..i + 1], alternative, count)
               == ExactChoices(cs, nodes[..i], alternative, count) + here
            && (|PicksOn(cs, nodes[i])| < count ==>
                  ExactChoices(cs, nodes[..i + 1], alternative, count)
                  == ExactChoices(cs, nodes[..i], alternative, count))
  {
    assert nodes[..i + 1][..i] == nodes[..i];
  }

  lemma {:induction false} ExactChoicesGrow(
    cs: seq<Candidate>, nodes: seq<string>, alternative: nat, count: nat, i: nat)
    requires i <= |nodes|
    ensures ExactChoices(cs, nodes[..i], alternative, count) <= ExactChoices(cs, nodes, alternative, count)
  {
    if i < |nodes| {
      ExactChoicesGrow(cs, nodes[..|nodes| - 1], alternative, count, i);
      assert nodes[..|nodes| - 1][..i] == nodes[..i];
    } else {
      assert nodes[..i] == nodes;
    }
  }

  // ---------- combinations ----------

  /** The working stack of one enumeration; `indices` is where its devices come from, the label of the choice. */
  class Selection {
    var devices: seq<Pick>
    var indices: seq<nat>

    constructor ()
      ensures devices == [] && indices == []
    {
      devices := [];
      indices := [];
    }
  }

  /** The choices that extend a partial selection by each of the given combinations. */
  ghost function Extensions(
    picks: seq<Pick>, node: string, alternative: nat, rank: nat, prefix: seq<nat>, combos: seq<seq<nat>>): seq<Choice>
  {
    seq(|combos|, i requires 0 <= i < |combos| => Extension(picks, node, alternative, rank, prefix + combos[i]))
  }

  ghost function Extension(picks: seq<Pick>, node: string, alternative: nat, rank: nat, indices: seq<nat>): Choice {
    Choice(alternative, rank, indices, node,
           if forall i | 0 <= i < |indices| :: indices[i] < |picks| then Select(picks, indices) else [])
  }

  lemma CombinationsAreExtensions(picks: seq<Pick>, node: string, alternative: nat, rank: nat, count: nat)
    ensures CombinationsOn(picks, node, alternative, rank, count) ==
            Extensions(picks, node, alternative, rank, [], Combos(0, |picks|, count))
  {
    var combos := Combos(0, |picks|, count);
    forall i | 0 <= i < |combos|
      ensures CombinationsOn(picks, node, alternative, rank, count)[i] ==
              Extensions(picks, node, alternative, rank, [], combos)[i]
    {
      CombosComplete(0, |picks|, count, combos[i]);
      assert [] + combos[i] == combos[i];
    }
  }

  lemma ExtensionsSplit(
    picks: seq<Pick>, node: string, alternative: nat, rank: nat, prefix: seq<nat>, lo: nat, k: nat)
    requires k > 0 && lo + k <= |picks|
    ensures Extensions(picks, node, alternative, rank, prefix, Combos(lo, |picks|, k)) ==
            Extensions(picks, node, alternative, rank, prefix + [lo], Combos(lo + 1, |picks|, k - 1)) +
            Extensions(picks, node, alternative, rank, prefix, Combos(lo + 1, |picks|, k))
  {
    var with := Combos(lo + 1, |picks|, k - 1);
    assert forall i | 0 <= i < |with| :: prefix + ([lo] + with[i]) == (prefix + [lo]) + with[i];
  }

  /** What comes of the combinations that extend `prefix` by k devices from position lo on. */
  ghost function RunFrom(
    t: Job, st: State, picks: seq<Pick>, node: string, alternative: nat, rank: nat, prefix: seq<nat>,
    lo: nat, k: nat, budget: nat): (Step, nat)
    requires t.requests != []
  {
    Run(t, st, Extensions(picks, node, alternative, rank, prefix, Combos(lo, |picks|, k)), budget)
  }

  /** The combinations that take device lo come before those that do not. */
  lemma RunSplit(
    t: Job, st: State, picks: seq<Pick>, node: string, alternative: nat, rank: nat, prefix: seq<nat>,
    lo: nat, k: nat, budget: nat)
    requires t.requests != [] && k > 0 && lo + k <= |picks|
    ensures var taking := RunFrom(t, st, picks, node, alternative, rank, prefix + [lo], lo + 1, k - 1, budget);
            RunFrom(t, st, picks, node, alternative, rank, prefix, lo, k, budget) ==
              if taking.0.Continue?
              then RunFrom(t, st, picks, node, alternative, rank, prefix, lo + 1, k, taking.1)
              else taking
  {
    ExtensionsSplit(picks, node, alternative, rank, prefix, lo, k);
    RunConcat(t, st, Extensions(picks, node, alternative, rank, prefix + [lo], Combos(lo + 1, |picks|, k - 1)),
              Extensions(picks, node, alternative, rank, prefix, Combos(lo + 1, |picks|, k)), budget);
  }

  lemma CompleteSelection(picks: seq<Pick>, node: string, alternative: nat, rank: nat, indices: seq<nat>)
    requires forall i | 0 <= i < |indices| :: indices[i] < |picks|
    ensures Extensions(picks, node, alternative, rank, indices, [[]]) ==
            [Choice(alternative, rank, indices, node, Select(picks, indices))]
  {
    assert indices + [] == indices;
  }

  lemma NothingSelected(devices: seq<Pick>)
    ensures Select(devices, []) == []
  {
  }

  method ForEachCombination(
    t: Job, b: Branch, devices: seq<Pick>, count: nat, alternative: nat, rank: nat, node: string,
    budget: SearchBudget) returns (step: Step)
    requires t.requests != [] && Isolated(b)
    modifies budget
    ensures Isolated(b)
    ensures (step, budget.remaining) ==
            Run(t, StateOf(b), CombinationsOn(devices, node, alternative, rank, count), old(budget.remaining))
    decreases |t.requests|, 2, 0
  {
    hide Run, CombinationsOn, Extensions, Isolated;
    label Before:
    var selected := new Selection();
    StillIsolated@Before(b);
    NothingSelected(devices);
    CombinationsAreExtensions(devices, node, alternative, rank, count);
    step := Visit(t, b, devices, count, alternative, rank, node, selected, 0, budget, StateOf(b));
  }

  /**
   * Visits, in lexicographic order, every combination that extends the stack with devices from
   * `start` on, until the callback stops it, and leaves the stack as it found it.
   */
  method Visit(
    t: Job, b: Branch, devices: seq<Pick>, count: nat, alternative: nat, rank: nat, node: string,
    selected: Selection, start: nat, budget: SearchBudget, ghost st: State) returns (step: Step)
    requires t.requests != [] && Isolated(b) && st == StateOf(b)
    requires |selected.indices| <= count
    requires forall i | 0 <= i < |selected.indices| :: selected.indices[i] < |devices|
    requires selected.devices == Select(devices, selected.indices)
    modifies budget, selected
    ensures Isolated(b)
    ensures selected.devices == old(selected.devices) && selected.indices == old(selected.indices)
    ensures (step, budget.remaining) ==
            RunFrom(t, st, devices, node, alternative, rank, old(selected.indices),
                    start, count - |old(selected.indices)|, old(budget.remaining))
    decreases |t.requests|, 1, count - |selected.indices|, 1
  {
    if |selected.devices| == count {
      CompleteSelection(devices, node, alternative, rank, selected.indices);
      step := Yield(t, b, Choice(alternative, rank, selected.indices, node, selected.devices), budget);
      return;
    }
    step := VisitEach(t, b, devices, count, alternative, rank, node, selected, start, budget, st);
  }

  method VisitEach(
    t: Job, b: Branch, devices: seq<Pick>, count: nat, alternative: nat, rank: nat, node: string,
    selected: Selection, start: nat, budget: SearchBudget, ghost st: State) returns (step: Step)
    requires t.requests != [] && Isolated(b) && st == StateOf(b)
    requires |selected.indices| < count
    requires forall i | 0 <= i < |selected.indices| :: selected.indices[i] < |devices|
    requires selected.devices == Select(devices, selected.indices)
    modifies budget, selected
    ensures Isolated(b)
    ensures selected.devices == old(selected.devices) && selected.indices == old(selected.indices)
    ensures (step, budget.remaining) ==
            RunFrom(t, st, devices, node, alternative, rank, old(selected.indices),
                    start, count - |old(selected.indices)|, old(budget.remaining))
    decreases |t.requests|, 1, count - |selected.indices|, 0
  {
    hide Run, RunFrom, Isolated;
    ghost var prefix := selected.indices;
    var k := count - |selected.devices|;
    assert k == count - |prefix|;
    ghost var goal := RunFrom(t, st, devices, node, alternative, rank, prefix, start, k, budget.remaining);
    var index := start;
    while index + k <= |devices|
      invariant Isolated(b) && selected.indices == prefix && selected.devices == Select(devices, prefix)
      invariant goal == RunFrom(t, st, devices, node, alternative, rank, prefix, index, k, budget.remaining)
      decreases |devices| - index
    {
      RunSplit(t, st, devices, node, alternative, rank, prefix, index, k, budget.remaining);
      label Visiting:
      Push(devices, selected, index);
      StillIsolated@Visiting(b);
      step := Visit(t, b, devices, count, alternative, rank, node, selected, index + 1, budget, st);
      label Visited:
      selected.devices := selected.devices[..|selected.devices| - 1];
      selected.indices := selected.indices[..|selected.indices| - 1];
      StillIsolated@Visited(b);
      if step.Stop? {
        return;
      }
      index := index + 1;
    }
    NothingLeft(t, st, devices, node, alternative, rank, prefix, index, k, budget.remaining);
    assert goal == (Continue, budget.remaining);
    return Continue;
  }

  lemma NothingLeft(
    t: Job, st: State, picks: seq<Pick>, node: string, alternative: nat, rank: nat, prefix: seq<nat>,
    lo: nat, k: nat, budget: nat)
    requires t.requests != [] && k > 0 && lo + k > |picks|
    ensures RunFrom(t, st, picks, node, alternative, rank, prefix, lo, k, budget) == (Continue, budget)
  {
  }

  method Push(devices: seq<Pick>, selected: Selection, index: nat)
    requires index < |devices| && forall i | 0 <= i < |selected.indices| :: selected.indices[i] < |devices|
    requires selected.devices == Select(devices, selected.indices)
    modifies selected
    ensures selected.indices == old(selected.indices) + [index]
    ensures selected.devices == old(selected.devices) + [devices[index]] == Select(devices, selected.indices)
  {
    selected.devices := selected.devices + [devices[index]];
    selected.indices := selected.indices + [index];
  }

  // ---------- planning a claim ----------

  /** Plans a claim by search, from the empty state and with the fixed limit. */
  method PlanConstrained(p: Planner, requests: seq<Request>, cs: seq<Constraint>) returns (v: Verdict)
    ensures v == Search(p, requests, cs, START, SEARCH_LIMIT).0
    ensures v.Solved? ==> Solution(p, requests, cs, START, v.path) && Preferred(p, requests, cs, START, v.path)
    ensures v.Unsolvable? ==> !Completable(p, requests, cs, START)
    ensures v.OutOfBudget? <==> Explore(p, requests, cs, START).1 > SEARCH_LIMIT
  {
    var usage := new AttemptUsage();
    var budget := new SearchBudget(SEARCH_LIMIT);
    v := SearchRequests(Job(p, requests, cs), Branch([], "", usage), budget);
    hide Explore, Backtracking.Search;
    BudgetIsTransparent(p, requests, cs, START, SEARCH_LIMIT);
    if v.Solved? {
      ExploreSound(p, requests, cs, START);
      ExplorePrefers(p, requests, cs, START);
    } else if v.Unsolvable? {
      forall path { ExploreComplete(p, requests, cs, START, path); }
    }
  }
}
