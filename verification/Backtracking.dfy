/** The backtracking search: sound, complete, ordered by preference, and bounded by a transparent budget. */
module Backtracking {
  import opened Types
  import opened Candidates
  import opened Constraints
  import opened Choices
  import Ledger

  datatype Verdict = Solved(path: seq<Choice>) | Unsolvable | Aborted(failure: Failure) | OutOfBudget

  /** The search without a budget, and the number of choices it examines. */
  function Explore(p: Planner, requests: seq<Request>, cs: seq<Constraint>, st: State): (r: (Verdict, nat))
    ensures r.0.Solved? ==> |r.0.path| == |requests|
    decreases |requests|, 1, 0
  {
    if requests == [] then (Solved([]), 0)
    else
      var t := RequestTrace(p, requests[0], st);
      ExploreEach(p, requests, cs, st, t.choices, t.end)
  }

  function ExploreEach(
    p: Planner, requests: seq<Request>, cs: seq<Constraint>, st: State, choices: seq<Choice>, end: Option<Failure>)
    : (r: (Verdict, nat))
    requires requests != []
    ensures r.0.Solved? ==> |r.0.path| == |requests|
    decreases |requests|, 0, |choices|
  {
    if choices == [] then (if end.Some? then Aborted(end.value) else Unsolvable, 0)
    else
      var next := After(st, choices[0]);
      match CheckAll(cs, next.picks)
      case Broken => (Aborted(Unsupported), 1)
      case Violated =>
        var (v, cost) := ExploreEach(p, requests, cs, st, choices[1..], end);
        (v, 1 + cost)
      case Holds =>
        match Explore(p, requests[1..], cs, next)
        case (Unsolvable, below) =>
          var (v, cost) := ExploreEach(p, requests, cs, st, choices[1..], end);
          (v, 1 + below + cost)
        case (Solved(path), below) => (Solved([choices[0]] + path), 1 + below)
        case (v, below) => (v, 1 + below)
  }

  // ---------- solutions ----------

  /** The path serves the requests one after another and ends with all constraints satisfied. */
  ghost predicate Solution(p: Planner, requests: seq<Request>, cs: seq<Constraint>, st: State, path: seq<Choice>)
    decreases |requests|
  {
    if requests == [] then path == [] && AllAgree(cs, st.picks)
    else
      && path != []
      && Admissible(p, requests[0], st, path[0])
      && Solution(p, requests[1..], cs, After(st, path[0]), path[1..])
  }

  ghost predicate Completable(p: Planner, requests: seq<Request>, cs: seq<Constraint>, st: State) {
    exists path :: Solution(p, requests, cs, st, path)
  }

  /** At every request, what was preferred to the choice taken cannot be completed. */
  ghost predicate Preferred(p: Planner, requests: seq<Request>, cs: seq<Constraint>, st: State, path: seq<Choice>)
    decreases |requests|
  {
    requests != [] && path != [] ==>
      && path[0] in RequestTrace(p, requests[0], st).choices
      && (forall c | c in RequestTrace(p, requests[0], st).choices && Before(c, path[0]) ::
            !Completable(p, requests[1..], cs, After(st, c)))
      && Preferred(p, requests[1..], cs, After(st, path[0]), path[1..])
  }

  lemma {:induction false} SolutionKeepsConstraints(
    p: Planner, requests: seq<Request>, cs: seq<Constraint>, st: State, path: seq<Choice>)
    requires Solution(p, requests, cs, st, path)
    ensures AllAgree(cs, st.picks)
    decreases |requests|
  {
    if requests != [] {
      SolutionKeepsConstraints(p, requests[1..], cs, After(st, path[0]), path[1..]);
      AgreementOfPrefix(cs, st.picks, path[0].picks);
    }
  }

  /** The devices of a plan satisfy all constraints. */
  lemma {:induction false} SolutionSatisfiesConstraints(
    p: Planner, requests: seq<Request>, cs: seq<Constraint>, st: State, path: seq<Choice>)
    requires Solution(p, requests, cs, st, path)
    ensures AllAgree(cs, Finish(st, path).picks)
    decreases |requests|
  {
    if requests != [] {
      SolutionSatisfiesConstraints(p, requests[1..], cs, After(st, path[0]), path[1..]);
    }
  }

  lemma AgreementOfPrefix(cs: seq<Constraint>, picks: seq<Pick>, more: seq<Pick>)
    requires AllAgree(cs, picks + more)
    ensures AllAgree(cs, picks)
  {
  }

  // ---------- states that differ only in the order of devices ----------

  ghost predicate Similar(s: State, t: State) {
    s.node == t.node && multiset(s.picks) == multiset(t.picks) && s.usage == t.usage
  }

  lemma PlusCommutes(m: Amounts, a: Amounts, b: Amounts)
    ensures Ledger.Plus(Ledger.Plus(m, a), b) == Ledger.Plus(Ledger.Plus(m, b), a)
  {
  }

  lemma AddAtCommutes(c: map<Key, Amounts>, j: Key, a: Amounts, k: Key, b: Amounts)
    ensures AddAt(AddAt(c, j, a), k, b) == AddAt(AddAt(c, k, b), j, a)
  {
    PlusCommutes(if k in c then c[k] else map[], a, b);
  }

  lemma ReserveCommutes(u: Attempt, a: Grant, b: Grant)
    ensures Reserve(Reserve(u, a), b) == Reserve(Reserve(u, b), a)
  {
    hide AddAt;
    if a.consumed.Some? && b.consumed.Some? {
      AddAtCommutes(u.consumed, a.key, a.consumed.value, b.key, b.consumed.value);
    }
  }

  lemma {:induction false} ReserveLast(u: Attempt, before: seq<Pick>, x: Pick, after: seq<Pick>)
    ensures ReserveAll(u, before + [x] + after) == Reserve(ReserveAll(u, before + after), x.grant)
  {
    if after == [] {
      assert before + [x] + after == before + [x] && before + after == before;
    } else {
      var last := |after| - 1;
      assert (before + [x] + after)[..|before| + 1 + last] == before + [x] + after[..last];
      assert (before + after)[..|before| + last] == before + after[..last];
      ReserveLast(u, before, x, after[..last]);
      ReserveCommutes(ReserveAll(u, before + after[..last]), x.grant, after[last].grant);
    }
  }

  lemma {:induction false} ReserveAnyOrder(u: Attempt, a: seq<Pick>, b: seq<Pick>)
    requires multiset(a) == multiset(b)
    ensures ReserveAll(u, a) == ReserveAll(u, b)
  {
    if a == [] {
      assert |multiset(b)| == |b| && |multiset(a)| == |a|;
    } else {
      hide Reserve;
      var last := |a| - 1;
      assert a[last] in multiset(b);
      var i :| 0 <= i < |b| && b[i] == a[last];
      var rest := WithoutOne(a, b, i);
      ReserveAnyOrder(u, a[..last], rest);
      ReserveLast(u, b[..i], b[i], b[i + 1..]);
    }
  }

  lemma WithoutOne(a: seq<Pick>, b: seq<Pick>, i: nat) returns (rest: seq<Pick>)
    requires a != [] && i < |b| && multiset(a) == multiset(b) && b[i] == a[|a| - 1]
    ensures rest == b[..i] + b[i + 1..] && b == b[..i] + [b[i]] + b[i + 1..]
    ensures multiset(a[..|a| - 1]) == multiset(rest)
  {
    rest := b[..i] + b[i + 1..];
    assert b == b[..i] + [b[i]] + b[i + 1..];
    assert multiset(b) == multiset(rest) + multiset{b[i]};
    assert a == a[..|a| - 1] + [a[|a| - 1]];
    assert multiset(a) == multiset(a[..|a| - 1]) + multiset{b[i]};
    CancelOne(multiset(a[..|a| - 1]), multiset(rest), b[i]);
  }

  lemma CancelOne<T>(m: multiset<T>, n: multiset<T>, x: T)
    requires m + multiset{x} == n + multiset{x}
    ensures m == n
  {
    assert m == m + multiset{x} - multiset{x};
    assert n == n + multiset{x} - multiset{x};
  }

  lemma TwinsLeadToSimilar(s: State, t: State, c: Choice, d: Choice)
    requires Similar(s, t) && Twins(c, d)
    ensures Similar(After(s, c), After(t, d))
  {
    ReserveAnyOrder(s.usage, c.picks, d.picks);
  }

  lemma AgreementAnyOrder(cs: seq<Constraint>, a: seq<Pick>, b: seq<Pick>)
    requires multiset(a) == multiset(b) && AllAgree(cs, a)
    ensures AllAgree(cs, b)
  {
    assert forall x :: x in a <==> x in multiset(a);
    assert forall x :: x in b <==> x in multiset(b);
    forall c | c in cs ensures Agree(c, b) { assert Agree(c, a); }
  }

  lemma {:induction false} SimilarSolutions(
    p: Planner, requests: seq<Request>, cs: seq<Constraint>, s: State, t: State, path: seq<Choice>)
    requires Similar(s, t) && Solution(p, requests, cs, s, path)
    ensures Solution(p, requests, cs, t, path)
    decreases |requests|
  {
    assert |s.picks| == |multiset(s.picks)| && |t.picks| == |multiset(t.picks)|;
    if requests == [] {
      AgreementAnyOrder(cs, s.picks, t.picks);
    } else {
      var c := path[0];
      assert Admissible(p, requests[0], t, c);
      TwinsLeadToSimilar(s, t, c, c);
      SimilarSolutions(p, requests[1..], cs, After(s, c), After(t, c), path[1..]);
    }
  }

  // ---------- soundness ----------

  lemma {:induction false} ExploreSound(p: Planner, requests: seq<Request>, cs: seq<Constraint>, st: State)
    requires AllAgree(cs, st.picks) && Explore(p, requests, cs, st).0.Solved?
    ensures Solution(p, requests, cs, st, Explore(p, requests, cs, st).0.path)
    decreases |requests|, 1, 0
  {
    if requests != [] {
      var t := RequestTrace(p, requests[0], st);
      ExploreEachSound(p, requests, cs, st, t.choices, t.end);
    }
  }

  lemma {:induction false} ExploreEachSound(
    p: Planner, requests: seq<Request>, cs: seq<Constraint>, st: State, choices: seq<Choice>, end: Option<Failure>)
    requires requests != [] && ExploreEach(p, requests, cs, st, choices, end).0.Solved?
    requires forall c | c in choices :: c in RequestTrace(p, requests[0], st).choices
    ensures Solution(p, requests, cs, st, ExploreEach(p, requests, cs, st, choices, end).0.path)
    decreases |requests|, 0, |choices|
  {
    var next := After(st, choices[0]);
    CheckMeansAgreement(cs, next.picks);
    if CheckAll(cs, next.picks) == Holds && Explore(p, requests[1..], cs, next).0.Solved? {
      ExploreSound(p, requests[1..], cs, next);
      TraceSound(p, requests[0], st, choices[0]);
    } else {
      ExploreEachSound(p, requests, cs, st, choices[1..], end);
    }
  }

  // ---------- completeness ----------

  /** When the search ends with no plan and no failure, the requests have no solution at all. */
  lemma {:induction false} ExploreComplete(
    p: Planner, requests: seq<Request>, cs: seq<Constraint>, st: State, path: seq<Choice>)
    requires Explore(p, requests, cs, st).0.Unsolvable?
    ensures !Solution(p, requests, cs, st, path)
    decreases |requests|, 1, 0
  {
    var r, t := requests[0], RequestTrace(p, requests[0], st);
    if Solution(p, requests, cs, st, path) {
      EachUnsolvableMeansNoFailure(p, requests, cs, st, t.choices, t.end);
      TraceUnfailing(p, r, st, path[0].alternative);
      var twin := TraceComplete(p, r, st, path[0]);
      TwinsLeadToSimilar(st, st, path[0], twin);
      SimilarSolutions(p, requests[1..], cs, After(st, path[0]), After(st, twin), path[1..]);
      ExploreEachComplete(p, requests, cs, st, t.choices, t.end, twin, path[1..]);
      assert false;
    }
  }

  lemma {:induction false} EachUnsolvableMeansNoFailure(
    p: Planner, requests: seq<Request>, cs: seq<Constraint>, st: State, choices: seq<Choice>, end: Option<Failure>)
    requires requests != [] && ExploreEach(p, requests, cs, st, choices, end).0.Unsolvable?
    ensures end.None?
    decreases |choices|
  {
    if choices != [] { EachUnsolvableMeansNoFailure(p, requests, cs, st, choices[1..], end); }
  }

  /** Every choice passed over on the way to the outcome cannot be completed. */
  lemma {:induction false} ExploreEachComplete(
    p: Planner, requests: seq<Request>, cs: seq<Constraint>, st: State, choices: seq<Choice>, end: Option<Failure>,
    c: Choice, rest: seq<Choice>)
    requires requests != [] && c in choices
    requires var v := ExploreEach(p, requests, cs, st, choices, end).0;
             v.Unsolvable? || (v.Solved? && Ascending(choices) && Before(c, v.path[0]))
    ensures !Solution(p, requests[1..], cs, After(st, c), rest)
    decreases |requests|, 0, |choices|
  {
    hide Ascending;
    var first, next := choices[0], After(st, choices[0]);
    var v := ExploreEach(p, requests, cs, st, choices, end).0;
    if CheckAll(cs, next.picks) == Holds && Explore(p, requests[1..], cs, next).0.Solved? {
      FirstIsBeforeRest(choices, c);
      BeforeAsymmetric(c, first);
      assert false;
    } else if c == first {
      if CheckAll(cs, next.picks) == Holds {
        ExploreComplete(p, requests[1..], cs, next, rest);
      } else if Solution(p, requests[1..], cs, next, rest) {
        SolutionKeepsConstraints(p, requests[1..], cs, next, rest);
        CheckMeansAgreement(cs, next.picks);
      }
    } else {
      PassedOver(p, requests, cs, st, choices, end);
      AscendingRest(choices);
      assert c in choices[1..] by { assert choices == [first] + choices[1..]; }
      ExploreEachComplete(p, requests, cs, st, choices[1..], end, c, rest);
    }
  }

  /** A choice passed over was checked, and if it was accepted then the search below it ended with no failure. */
  lemma {:induction false} ExploreEachPasses(
    p: Planner, requests: seq<Request>, cs: seq<Constraint>, st: State, choices: seq<Choice>, end: Option<Failure>,
    c: Choice)
    requires requests != [] && c in choices
    requires var v := ExploreEach(p, requests, cs, st, choices, end).0;
             v.Unsolvable? || (v.Solved? && Ascending(choices) && Before(c, v.path[0]))
    ensures CheckAll(cs, After(st, c).picks) != Broken
    ensures CheckAll(cs, After(st, c).picks) == Holds ==> Explore(p, requests[1..], cs, After(st, c)).0.Unsolvable?
    decreases |choices|
  {
    hide Ascending, After, CheckAll;
    var first, next := choices[0], After(st, choices[0]);
    if CheckAll(cs, next.picks) == Holds && Explore(p, requests[1..], cs, next).0.Solved? {
      FirstIsBeforeRest(choices, c);
      BeforeAsymmetric(c, first);
      assert false;
    } else if c != first {
      PassedOver(p, requests, cs, st, choices, end);
      AscendingRest(choices);
      assert c in choices[1..] by { assert choices == [first] + choices[1..]; }
      ExploreEachPasses(p, requests, cs, st, choices[1..], end, c);
    }
  }

  /** When the first choice is passed over, the verdict is that on the others. */
  lemma PassedOver(
    p: Planner, requests: seq<Request>, cs: seq<Constraint>, st: State, choices: seq<Choice>, end: Option<Failure>)
    requires requests != [] && choices != []
    requires var v := ExploreEach(p, requests, cs, st, choices, end).0; v.Unsolvable? || v.Solved?
    requires var next := After(st, choices[0]);
             !(CheckAll(cs, next.picks) == Holds && Explore(p, requests[1..], cs, next).0.Solved?)
    ensures ExploreEach(p, requests, cs, st, choices[1..], end).0 == ExploreEach(p, requests, cs, st, choices, end).0
  {
    hide After, CheckAll, Explore;
  }

  lemma AscendingRest(choices: seq<Choice>)
    requires choices != []
    ensures Ascending(choices) ==> Ascending(choices[1..])
  {
  }

  lemma FirstIsBeforeRest(choices: seq<Choice>, c: Choice)
    requires choices != [] && Ascending(choices) && c in choices
    ensures c == choices[0] || Before(choices[0], c)
  {
  }

  // ---------- preference ----------

  /** The path found is the most preferred among all completable ones, request by request. */
  lemma {:induction false} ExplorePrefers(p: Planner, requests: seq<Request>, cs: seq<Constraint>, st: State)
    requires Explore(p, requests, cs, st).0.Solved?
    ensures Preferred(p, requests, cs, st, Explore(p, requests, cs, st).0.path)
    decreases |requests|
  {
    if requests != [] {
      var t, path := RequestTrace(p, requests[0], st), Explore(p, requests, cs, st).0.path;
      TakenIsFound(p, requests, cs, st, t.choices, t.end);
      TraceAscends(p, requests[0], st);
      forall c | c in t.choices && Before(c, path[0])
        ensures !Completable(p, requests[1..], cs, After(st, c))
      {
        forall rest {
          ExploreEachComplete(p, requests, cs, st, t.choices, t.end, c, rest);
        }
      }
      ExplorePrefers(p, requests[1..], cs, After(st, path[0]));
    }
  }

  lemma {:induction false} TakenIsFound(
    p: Planner, requests: seq<Request>, cs: seq<Constraint>, st: State, choices: seq<Choice>, end: Option<Failure>)
    requires requests != [] && ExploreEach(p, requests, cs, st, choices, end).0.Solved?
    ensures var path := ExploreEach(p, requests, cs, st, choices, end).0.path;
            && path != [] && path[0] in choices
            && Explore(p, requests[1..], cs, After(st, path[0])).0 == Solved(path[1..])
    decreases |choices|
  {
    var next := After(st, choices[0]);
    if !(CheckAll(cs, next.picks) == Holds && Explore(p, requests[1..], cs, next).0.Solved?) {
      TakenIsFound(p, requests, cs, st, choices[1..], end);
    }
  }

  /** A FirstAvailable alternative is used only when none listed before it could be completed. */
  lemma EarlierAlternativeHopeless(
    p: Planner, requests: seq<Request>, cs: seq<Constraint>, st: State, c: Choice)
    requires requests != [] && Explore(p, requests, cs, st).0.Solved?
    requires Admissible(p, requests[0], st, c)
    requires c.alternative < Explore(p, requests, cs, st).0.path[0].alternative
    ensures !Completable(p, requests[1..], cs, After(st, c))
  {
    var taken := Explore(p, requests, cs, st).0.path[0];
    ExplorePrefers(p, requests, cs, st);
    TraceReaches(p, requests[0], st, taken, c.alternative);
    var twin := TraceComplete(p, requests[0], st, c);
    TwinsLeadToSimilar(st, st, c, twin);
    forall path | Solution(p, requests[1..], cs, After(st, c), path)
      ensures false
    {
      SimilarSolutions(p, requests[1..], cs, After(st, c), After(st, twin), path);
    }
  }

  lemma TraceReaches(p: Planner, r: Request, st: State, taken: Choice, n: nat)
    requires taken in RequestTrace(p, r, st).choices && n < taken.alternative
    ensures n < |SupportedAlternatives(r).value| && UnfailingThrough(p, r, st, n)
  {
    var alternatives := SupportedAlternatives(r).value;
    PerAlternativeLabelled(p, alternatives, st);
    ChainListed(PerAlternative(p, alternatives, st), taken);
  }

  // ---------- the budget ----------

  /** The search with a budget of choices to examine; the second result is what is left of it. */
  function Search(p: Planner, requests: seq<Request>, cs: seq<Constraint>, st: State, budget: nat): (Verdict, nat)
    decreases |requests|, 1, 0
  {
    if requests == [] then (Solved([]), budget)
    else
      var t := RequestTrace(p, requests[0], st);
      SearchEach(p, requests, cs, st, t.choices, t.end, budget)
  }

  function SearchEach(
    p: Planner, requests: seq<Request>, cs: seq<Constraint>, st: State, choices: seq<Choice>, end: Option<Failure>,
    budget: nat): (Verdict, nat)
    requires requests != []
    decreases |requests|, 0, |choices|
  {
    if choices == [] then (if end.Some? then Aborted(end.value) else Unsolvable, budget)
    else if budget == 0 then (OutOfBudget, 0)
    else
      var next := After(st, choices[0]);
      match CheckAll(cs, next.picks)
      case Broken => (Aborted(Unsupported), budget - 1)
      case Violated => SearchEach(p, requests, cs, st, choices[1..], end, budget - 1)
      case Holds =>
        match Search(p, requests[1..], cs, next, budget - 1)
        case (Unsolvable, left) => SearchEach(p, requests, cs, st, choices[1..], end, left)
        case (Solved(path), left) => (Solved([choices[0]] + path), left)
        case (v, left) => (v, left)
  }

  /**
   * A budget either suffices, and then changes nothing, or runs out, and then that is the answer:
   * exhaustion is never masked, and it is reported exactly when the search needs more.
   */
  lemma {:induction false} BudgetIsTransparent(
    p: Planner, requests: seq<Request>, cs: seq<Constraint>, st: State, budget: nat)
    ensures var (v, cost) := Explore(p, requests, cs, st);
            && v != OutOfBudget
            && Search(p, requests, cs, st, budget) == if cost <= budget then (v, budget - cost) else (OutOfBudget, 0)
    decreases |requests|, 1, 0
  {
    if requests != [] {
      var t := RequestTrace(p, requests[0], st);
      BudgetIsTransparentEach(p, requests, cs, st, t.choices, t.end, budget);
    }
  }

  lemma {:induction false} BudgetIsTransparentEach(
    p: Planner, requests: seq<Request>, cs: seq<Constraint>, st: State, choices: seq<Choice>, end: Option<Failure>,
    budget: nat)
    requires requests != []
    ensures var (v, cost) := ExploreEach(p, requests, cs, st, choices, end);
            && v != OutOfBudget
            && SearchEach(p, requests, cs, st, choices, end, budget)
               == if cost <= budget then (v, budget - cost) else (OutOfBudget, 0)
    decreases |requests|, 0, |choices|
  {
    hide Explore, Search, RequestTrace, After, CheckAll;
    if choices != [] && budget > 0 {
      var next := After(st, choices[0]);
      match CheckAll(cs, next.picks)
      case Broken =>
      case Violated =>
        BudgetIsTransparentEach(p, requests, cs, st, choices[1..], end, budget - 1);
      case Holds =>
        BudgetIsTransparent(p, requests[1..], cs, next, budget - 1);
        var below := Explore(p, requests[1..], cs, next).1;
        BudgetIsTransparentEach(p, requests, cs, st, choices[1..], end,
                                if budget < 1 + below then 0 else budget - 1 - below);
    } else if choices != [] {
      NeverOutOfBudget(p, requests, cs, st, choices, end);
    }
  }

  lemma {:induction false} NeverOutOfBudget(
    p: Planner, requests: seq<Request>, cs: seq<Constraint>, st: State, choices: seq<Choice>, end: Option<Failure>)
    requires requests != []
    ensures ExploreEach(p, requests, cs, st, choices, end).0 != OutOfBudget
    ensures choices != [] ==> ExploreEach(p, requests, cs, st, choices, end).1 > 0
    decreases |requests|, |choices|
  {
    hide After, CheckAll;
    if choices != [] {
      NeverOutOfBudget(p, requests, cs, st, choices[1..], end);
      if requests[1..] != [] {
        var next := After(st, choices[0]);
        var t := RequestTrace(p, requests[1], next);
        NeverOutOfBudget(p, requests[1..], cs, next, t.choices, t.end);
      }
    }
  }

  /** A limit that is not exhausted gives the same answer as every larger limit. */
  lemma LargerLimitSameAnswer(
    p: Planner, requests: seq<Request>, cs: seq<Constraint>, st: State, limit: nat, larger: nat)
    requires limit <= larger && Search(p, requests, cs, st, limit).0 != OutOfBudget
    ensures Search(p, requests, cs, st, larger).0 == Search(p, requests, cs, st, limit).0
    ensures larger - Search(p, requests, cs, st, larger).1 == limit - Search(p, requests, cs, st, limit).1
  {
    BudgetIsTransparent(p, requests, cs, st, limit);
    BudgetIsTransparent(p, requests, cs, st, larger);
  }
}
