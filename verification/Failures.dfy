/** Which failure the selections for a request end in. */
module Failures {
  import opened Types
  import opened Candidates
  import opened Choices

  /** Site i cannot be assessed, and those before it can. */
  ghost predicate FailsFirstAt(p: Planner, q: Query, u: Attempt, sites: seq<Site>, i: int, f: Failure) {
    && 0 <= i < |sites| && Scan(p, q, u, sites[..i]).Ok?
    && Evaluate(p, q, u, sites[i], KeysOf(Scan(p, q, u, sites[..i]).value)) == Fail(f)
  }

  ghost predicate FailsFirst(p: Planner, q: Query, u: Attempt, sites: seq<Site>, f: Failure) {
    exists i :: FailsFirstAt(p, q, u, sites, i, f)
  }

  lemma ScanNext(p: Planner, q: Query, u: Attempt, sites: seq<Site>)
    requires sites != []
    ensures var n := |sites| - 1;
            && (Scan(p, q, u, sites[..n]).Err? ==> Scan(p, q, u, sites) == Scan(p, q, u, sites[..n]))
            && (Scan(p, q, u, sites[..n]).Ok? ==> forall f ::
                  Scan(p, q, u, sites) == Err(f) <==> FailsFirstAt(p, q, u, sites, n, f))
  {
    hide Evaluate, KeysOf;
  }

  /** A scan fails at the first site that cannot be assessed, and with its failure. */
  lemma {:induction false} ScanFailsAtFirst(p: Planner, q: Query, u: Attempt, sites: seq<Site>, f: Failure)
    ensures Scan(p, q, u, sites) == Err(f) <==> FailsFirst(p, q, u, sites, f)
  {
    hide Evaluate, Scan, KeysOf;
    if sites == [] {
      NothingFails(p, q, u, f);
    } else {
      var n := |sites| - 1;
      var init := sites[..n];
      ScanNext(p, q, u, sites);
      ScanFailsAtFirst(p, q, u, init, f);
      if i :| FailsFirstAt(p, q, u, sites, i, f) {
        assert init[..i] == sites[..i];
        assert i < n ==> FailsFirstAt(p, q, u, init, i, f);
      }
      if i :| FailsFirstAt(p, q, u, init, i, f) {
        assert init[..i] == sites[..i];
        assert FailsFirstAt(p, q, u, sites, i, f);
      }
      assert sites[..n] == init;
    }
  }

  lemma NothingFails(p: Planner, q: Query, u: Attempt, f: Failure)
    ensures Scan(p, q, u, []) != Err(f)
  {
  }

  /** Node i fails, and none after it does. */
  ghost predicate FailsLastAt(p: Planner, q: Query, st: State, nodes: seq<string>, i: int, f: Failure) {
    && 0 <= i < |nodes| && AllOn(p, q, st, nodes[i]) == Err(f)
    && forall j | i < j < |nodes| :: AllOn(p, q, st, nodes[j]).Ok?
  }

  ghost predicate FailsLast(p: Planner, q: Query, st: State, nodes: seq<string>, f: Failure) {
    exists i :: FailsLastAt(p, q, st, nodes, i, f)
  }

  /** On some node there is more than remains. */
  ghost predicate SomeTooMany(p: Planner, q: Query, st: State, nodes: seq<string>) {
    exists i | 0 <= i < |nodes| :: TooMany(p, q, st, nodes[i])
  }

  ghost predicate TooMany(p: Planner, q: Query, st: State, node: string) {
    AllOn(p, q, st, node).Ok? && |AllOn(p, q, st, node).value| > 0 && |AllOn(p, q, st, node).value| > Remaining(st)
  }

  lemma {:induction false} AllFromTold(
    p: Planner, q: Query, st: State, nodes: seq<string>, alternative: nat, f: Failure)
    ensures AllFrom(p, q, st, nodes, alternative).failure == Some(f) <==> FailsLast(p, q, st, nodes, f)
    ensures AllFrom(p, q, st, nodes, alternative).overLimit <==> SomeTooMany(p, q, st, nodes)
    ensures AllFrom(p, q, st, nodes, alternative).missing == 0
  {
    hide AllOn;
    if nodes != [] {
      var n := |nodes| - 1;
      AllFromTold(p, q, st, nodes[..n], alternative, f);
      if AllOn(p, q, st, nodes[n]) == Err(f) {
        assert FailsLastAt(p, q, st, nodes, n, f);
      }
      if i :| FailsLastAt(p, q, st, nodes[..n], i, f) {
        assert AllOn(p, q, st, nodes[n]).Ok? ==> FailsLastAt(p, q, st, nodes, i, f);
      }
      if i :| FailsLastAt(p, q, st, nodes, i, f) {
        assert i < n ==> FailsLastAt(p, q, st, nodes[..n], i, f);
      }
    }
  }

  /**
   * Why an alternative fails: at the first device that cannot be assessed or, for all devices of a
   * node, with the last node that cannot, unless some node has more than remains.
   */
  ghost predicate AlternativeFails(p: Planner, a: Alternative, st: State, f: Failure) {
    && a.className in p.classes
    && var q, nodes := QueryFor(p, a), ManagedNodes(p.slices, st.node);
       if a.mode == All then FailsLast(p, q, st, nodes, f) && !SomeTooMany(p, q, st, nodes)
       else a.count <= Remaining(st) && FailsFirst(p, q, st.usage, ExactSites(p.slices, st.node), f)
  }

  ghost predicate AlternativeTooLarge(p: Planner, a: Alternative, st: State) {
    && a.className in p.classes
    && if a.mode == All then SomeTooMany(p, QueryFor(p, a), st, ManagedNodes(p.slices, st.node))
       else a.count > Remaining(st)
  }

  lemma AlternativeTold(p: Planner, a: Alternative, st: State, alternative: nat, f: Failure)
    ensures AlternativeMoves(p, a, st, alternative).failure == Some(f) <==> AlternativeFails(p, a, st, f)
    ensures AlternativeMoves(p, a, st, alternative).overLimit <==> AlternativeTooLarge(p, a, st)
    ensures AlternativeMoves(p, a, st, alternative).missing == if a.className in p.classes then 0 else 1
  {
    hide Scan, FailsFirst, FailsLast, SomeTooMany, AllFrom, ExactSites, ManagedNodes;
    if a.className in p.classes {
      AllFromTold(p, QueryFor(p, a), st, ManagedNodes(p.slices, st.node), alternative, f);
      ScanFailsAtFirst(p, QueryFor(p, a), st.usage, ExactSites(p.slices, st.node), f);
    }
  }

  ghost predicate SomeFails(p: Planner, a: Alternative, st: State) {
    exists f :: AlternativeFails(p, a, st, f)
  }

  lemma AlternativeSettled(p: Planner, a: Alternative, st: State, alternative: nat)
    ensures var m := AlternativeMoves(p, a, st, alternative);
            && (m.failure.None? <==> !SomeFails(p, a, st))
            && (m.failure.Some? ==> AlternativeFails(p, a, st, m.failure.value))
            && (m.overLimit <==> AlternativeTooLarge(p, a, st))
            && m.missing == if a.className in p.classes then 0 else 1
  {
    hide AlternativeMoves, AlternativeFails, AlternativeTooLarge;
    var m := AlternativeMoves(p, a, st, alternative);
    AlternativeTold(p, a, st, alternative, if m.failure.Some? then m.failure.value else NoMatch);
    if f :| AlternativeFails(p, a, st, f) {
      AlternativeTold(p, a, st, alternative, f);
    }
  }

  /** Alternative number j fails, and none before it does. */
  ghost predicate FailsAt(p: Planner, all: seq<Alternative>, st: State, j: int, f: Failure) {
    && 0 <= j < |all| && AlternativeFails(p, all[j], st, f)
    && forall k | 0 <= k < j :: !SomeFails(p, all[k], st)
  }

  lemma {:induction false} ChainTold(p: Planner, all: seq<Alternative>, st: State, n: nat)
    requires n <= |all|
    ensures var m := Chain(PerAlternative(p, all, st)[..n]);
            && (m.failure.None? <==> forall j | 0 <= j < n :: !SomeFails(p, all[j], st))
            && (m.failure.Some? ==> exists j | 0 <= j < n :: FailsAt(p, all, st, j, m.failure.value))
            && (m.failure.None? ==> m.missing <= n)
            && (m.failure.None? ==> (m.missing == n <==> forall j | 0 <= j < n :: all[j].className !in p.classes))
            && (m.failure.None? ==> (m.overLimit <==> exists j | 0 <= j < n :: AlternativeTooLarge(p, all[j], st)))
  {
    hide AlternativeFails, AlternativeTooLarge, AlternativeMoves, SomeFails;
    var per := PerAlternative(p, all, st);
    if n > 0 {
      ChainTold(p, all, st, n - 1);
      assert per[..n][..n - 1] == per[..n - 1];
      AlternativeSettled(p, all[n - 1], st, n - 1);
      var m := Chain(per[..n]);
      if Chain(per[..n - 1]).failure.None? && m.failure.Some? {
        assert FailsAt(p, all, st, n - 1, m.failure.value);
      }
    }
  }

  /**
   * The selections for a request end in the failure of its first alternative that fails; when none
   * does, in a missing class if all are, or in the limit if its only alternative is too large.
   */
  lemma RequestFails(p: Planner, r: Request, st: State)
    requires SupportedAlternatives(r).Ok?
    ensures var all, end := SupportedAlternatives(r).value, RequestTrace(p, r, st).end;
            if exists j | 0 <= j < |all| :: SomeFails(p, all[j], st)
            then end.Some? && exists j :: FailsAt(p, all, st, j, end.value)
            else if forall a | a in all :: a.className !in p.classes then end == Some(ClassNotFound)
            else if |all| == 1 && AlternativeTooLarge(p, all[0], st) then end == Some(Unsupported)
            else end == None
  {
    hide SomeFails, FailsAt, AlternativeTooLarge, Chain, AlternativeMoves;
    var all := SupportedAlternatives(r).value;
    ChainTold(p, all, st, |all|);
    var per := PerAlternative(p, all, st);
    assert per[..|all|] == per;
  }
}
