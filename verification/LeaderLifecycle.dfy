/**
 * The in-process leader lifecycle: the goroutine that runs the elector, and the callbacks it starts,
 * sharing an atomic state, a leader flag and a channel with one slot.
 */
module LeaderLifecycle {
  import opened Types

  datatype Error = Canceled | DeadlineExceeded | Failed | StoppedUnexpectedly

  /** Where the lifecycle goroutine is. */
  datatype Main = Running | RunReturned | Waiting | Returned(result: Option<Error>)

  /** Where a callback goroutine is; from Ended on it carries the completion value. */
  datatype Callback =
    | Spawned | Declined
    | Won | Flagged | Active
    | Ended(err: Option<Error>) | Cleared(err: Option<Error>) | Stored(err: Option<Error>)
    | Sent(err: Option<Error>) | Done(err: Option<Error>)

  /**
   * `phase` is 0 while a callback may start, 1 while one is active, 2 once stopped. `starts` and
   * `sends` count how often the active function was called and a completion value was sent.
   */
  datatype State = State(
    phase: int, leader: bool, channel: Option<Option<Error>>, cancelled: bool,
    main: Main, callbacks: seq<Callback>, starts: nat, sends: nat)

  const INITIAL := State(0, false, None, false, Running, [], 0, 0)

  /** What the active function's error counts as; a cancelled context makes cancellation no error. */
  function Normalize(err: Option<Error>, contextDone: bool): Option<Error> {
    if contextDone && (err == Some(Canceled) || err == Some(DeadlineExceeded)) then None else err
  }

  /** The completion value; the context may become done between the two looks at it. */
  function Completion(err: Option<Error>, doneFirst: bool, doneSecond: bool): Option<Error> {
    var e := Normalize(err, doneFirst);
    if e.None? && !doneSecond then Some(StoppedUnexpectedly) else e
  }

  // ---------- steps ----------

  /** The elector starts a callback goroutine, possibly one that is delayed for long. */
  ghost predicate Spawn(s: State, t: State) {
    s.main.Running? && t == s.(callbacks := s.callbacks + [Spawned])
  }

  /** elector.Run comes back: the lease is lost, the context ends, or it was never acquired. */
  ghost predicate RunReturns(s: State, t: State) {
    s.main.Running? && t == s.(main := RunReturned)
  }

  ghost predicate MainCompareAndSwap(s: State, t: State) {
    && s.main.RunReturned?
    && t == if s.phase == 0 then s.(phase := 2, main := Returned(None)) else s.(main := Waiting)
  }

  ghost predicate Receive(s: State, t: State) {
    s.main.Waiting? && s.channel.Some? && t == s.(channel := None, main := Returned(s.channel.value))
  }

  ghost predicate MainStep(s: State, t: State) {
    RunReturns(s, t) || MainCompareAndSwap(s, t) || Receive(s, t)
  }

  /** Callback number i takes its next step; `completion` is what the active function comes to when it ends. */
  ghost predicate CallbackStep(s: State, t: State, i: nat, completion: Option<Error>) {
    && i < |s.callbacks|
    && match s.callbacks[i]
       case Spawned =>
         t == if s.phase == 0 then s.(phase := 1, callbacks := s.callbacks[i := Won])
              else s.(callbacks := s.callbacks[i := Declined])
       case Won => t == s.(leader := true, callbacks := s.callbacks[i := Flagged])
       case Flagged => t == s.(callbacks := s.callbacks[i := Active], starts := s.starts + 1)
       case Active =>
         && (exists err, first, second | first ==> second :: completion == Completion(err, first, second))
         && t == s.(callbacks := s.callbacks[i := Ended(completion)])
       case Ended(e) => t == s.(leader := false, callbacks := s.callbacks[i := Cleared(e)])
       case Cleared(e) => t == s.(phase := 2, callbacks := s.callbacks[i := Stored(e)])
       case Stored(e) =>
         // A send on a full channel blocks.
         s.channel.None? && t == s.(channel := Some(e), callbacks := s.callbacks[i := Sent(e)], sends := s.sends + 1)
       case Sent(e) => t == s.(cancelled := true, callbacks := s.callbacks[i := Done(e)])
       case Declined => false
       case Done(_) => false
  }

  ghost predicate Next(s: State, t: State) {
    Spawn(s, t) || MainStep(s, t) || exists i, completion :: CallbackStep(s, t, i, completion)
  }

  // ---------- invariant ----------

  predicate Claimed(c: Callback) {
    !c.Spawned? && !c.Declined?
  }

  predicate Finishing(c: Callback) {
    c.Ended? || c.Cleared? || c.Stored? || c.Sent? || c.Done?
  }

  /** At most one callback got past the compare-and-swap. */
  ghost predicate OneWinner(s: State) {
    forall i, j | 0 <= i < j < |s.callbacks| :: !(Claimed(s.callbacks[i]) && Claimed(s.callbacks[j]))
  }

  /** No callback got past the compare-and-swap. */
  ghost predicate NoWinner(s: State) {
    forall i | 0 <= i < |s.callbacks| :: !Claimed(s.callbacks[i])
  }

  /** What the shared variables are while nobody has won. */
  ghost predicate Untouched(s: State) {
    && !s.leader && s.channel.None? && s.starts == 0 && s.sends == 0
    && (s.phase == 0 ==> s.main.Running? || s.main.RunReturned?)
    && (s.phase == 2 ==> s.main == Returned(None))
    && (s.phase == 0 || s.phase == 2)
  }

  /** What the shared variables are when callback c is the winner. */
  ghost predicate Led(s: State, c: Callback) {
    && s.phase == (if c.Stored? || c.Sent? || c.Done? then 2 else 1)
    && s.leader == (c.Flagged? || c.Active? || c.Ended?)
    && s.starts == (if c.Won? || c.Flagged? then 0 else 1)
    && s.sends == (if c.Sent? || c.Done? then 1 else 0)
    && (c.Done? ==> s.cancelled)
    && match s.main
       case Returned(r) => (c.Sent? || c.Done?) && r == c.err && s.channel.None?
       case _ => s.channel == if c.Sent? || c.Done? then Some(c.err) else None
  }

  ghost predicate Inv(s: State) {
    && OneWinner(s)
    && (NoWinner(s) ==> Untouched(s))
    && forall i | 0 <= i < |s.callbacks| && Claimed(s.callbacks[i]) :: Led(s, s.callbacks[i])
  }

  lemma InitialInv()
    ensures Inv(INITIAL)
  {
  }

  lemma SpawnKeepsInv(s: State, t: State)
    requires Inv(s) && Spawn(s, t)
    ensures Inv(t)
  {
    assert forall i | 0 <= i < |s.callbacks| :: t.callbacks[i] == s.callbacks[i];
    if !NoWinner(s) {
      var i :| 0 <= i < |s.callbacks| && Claimed(s.callbacks[i]);
      assert Claimed(t.callbacks[i]);
    }
  }

  lemma MainKeepsInv(s: State, t: State)
    requires Inv(s) && MainStep(s, t)
    ensures Inv(t)
  {
  }

  lemma CallbackKeepsInv(s: State, t: State, i: nat, completion: Option<Error>)
    requires Inv(s) && CallbackStep(s, t, i, completion)
    ensures Inv(t)
  {
    if !s.callbacks[i].Spawned? {
      WinnerMoves(s, t, i, completion);
      OnlyWinner(s, t, i);
    } else if s.phase == 0 {
      assert NoWinner(s);
      OnlyWinner(s, t, i);
    } else {
      assert OneWinner(t);
      assert NoWinner(t) ==> NoWinner(s) by {
        assert forall j | 0 <= j < |s.callbacks| && j != i :: t.callbacks[j] == s.callbacks[j];
      }
    }
  }

  /** The winner's own step leads to the shared variables its new place calls for. */
  lemma WinnerMoves(s: State, t: State, i: nat, completion: Option<Error>)
    requires CallbackStep(s, t, i, completion) && !s.callbacks[i].Spawned? && Led(s, s.callbacks[i])
    ensures Claimed(t.callbacks[i]) && Led(t, t.callbacks[i])
  {
  }

  /** With a single claimed callback, the invariant is about that one. */
  lemma OnlyWinner(s: State, t: State, i: nat)
    requires i < |s.callbacks| == |t.callbacks| && Claimed(t.callbacks[i]) && Led(t, t.callbacks[i])
    requires forall j | 0 <= j < |s.callbacks| && j != i :: t.callbacks[j] == s.callbacks[j] && !Claimed(s.callbacks[j])
    ensures Inv(t)
  {
  }

  lemma NextKeepsInv(s: State, t: State)
    requires Inv(s) && Next(s, t)
    ensures Inv(t)
  {
    hide Inv, Spawn, MainStep, CallbackStep;
    if Spawn(s, t) {
      SpawnKeepsInv(s, t);
    } else if MainStep(s, t) {
      MainKeepsInv(s, t);
    } else {
      var i, completion :| CallbackStep(s, t, i, completion);
      CallbackKeepsInv(s, t, i, completion);
    }
  }

  ghost predicate Run(states: seq<State>) {
    states != [] && states[0] == INITIAL && forall k | 0 <= k < |states| - 1 :: Next(states[k], states[k + 1])
  }

  lemma {:induction false} EveryStateInv(states: seq<State>, k: nat)
    requires Run(states) && k < |states|
    ensures Inv(states[k])
  {
    hide Next, Inv;
    if k == 0 {
      InitialInv();
    } else {
      EveryStateInv(states, k - 1);
      NextKeepsInv(states[k - 1], states[k]);
    }
  }

  // ---------- what it means ----------

  /**
   * In every interleaving the active function starts at most once and at most one completion value is
   * sent; when the lifecycle has returned, the leader flag is off, no active function is running, and
   * the result is the completion value of the one that ran, or no error when none did.
   */
  lemma LifecycleSafety(states: seq<State>, k: nat)
    requires Run(states) && k < |states|
    ensures states[k].starts <= 1 && states[k].sends <= 1
    ensures states[k].main.Returned? ==>
              && !states[k].leader
              && (forall c | c in states[k].callbacks :: !c.Won? && !c.Flagged? && !c.Active? && !c.Ended?)
              && states[k].starts == states[k].sends
              && (if states[k].starts == 0 then states[k].main.result.None?
                  else exists c | c in states[k].callbacks :: (c.Sent? || c.Done?) && c.err == states[k].main.result)
  {
    EveryStateInv(states, k);
    var s := states[k];
    if i :| 0 <= i < |s.callbacks| && Claimed(s.callbacks[i]) {
      assert s.callbacks[i] in s.callbacks;
    }
  }

  /** Nothing starts, and the flag stays off, after the lifecycle has returned. */
  lemma {:induction false} NothingStartsAfterReturn(states: seq<State>, k: nat, later: nat)
    requires Run(states) && k <= later < |states| && states[k].main.Returned?
    ensures states[later].main == states[k].main && states[later].starts == states[k].starts && !states[later].leader
  {
    hide Next;
    if later == k {
      LifecycleSafety(states, k);
    } else {
      NothingStartsAfterReturn(states, k, later - 1);
      EveryStateInv(states, later - 1);
      AfterReturn(states[later - 1], states[later]);
    }
  }

  lemma AfterReturn(s: State, t: State)
    requires Inv(s) && Next(s, t) && s.main.Returned?
    ensures t.main == s.main && t.starts == s.starts && !t.leader
  {
  }

  // ---------- nobody blocks for ever once the callback has ended ----------

  /** Steps that happen without waiting for the outside world: elector.Run returns once it is cancelled. */
  ghost predicate Forced(s: State, t: State, i: nat) {
    || (s.cancelled && RunReturns(s, t))
    || MainCompareAndSwap(s, t)
    || Receive(s, t)
    || (i < |s.callbacks| && Finishing(s.callbacks[i]) && CallbackStep(s, t, i, None))
  }

  function MainWork(m: Main): nat {
    match m
    case Running => 3
    case RunReturned => 2
    case Waiting => 1
    case Returned(_) => 0
  }

  function CallbackWork(c: Callback): nat {
    match c
    case Ended(_) => 4
    case Cleared(_) => 3
    case Stored(_) => 2
    case Sent(_) => 1
    case _ => 0
  }

  /** Once the active function has ended, until both sides are through, a step is possible. */
  lemma AlwaysAStep(s: State, i: nat) returns (t: State)
    requires Inv(s) && i < |s.callbacks| && Finishing(s.callbacks[i])
    requires !(s.main.Returned? && s.callbacks[i].Done?)
    ensures Forced(s, t, i)
  {
    var c := s.callbacks[i];
    assert Led(s, c);
    match c
    case Ended(e) => t := s.(leader := false, callbacks := s.callbacks[i := Cleared(e)]);
    case Cleared(e) => t := s.(phase := 2, callbacks := s.callbacks[i := Stored(e)]);
    case Stored(e) => t := s.(channel := Some(e), callbacks := s.callbacks[i := Sent(e)], sends := s.sends + 1);
    case Sent(e) => t := s.(cancelled := true, callbacks := s.callbacks[i := Done(e)]);
    case Done(e) =>
      match s.main
      case Running => t := s.(main := RunReturned);
      case RunReturned => t := s.(main := Waiting);
      case Waiting => t := s.(channel := None, main := Returned(s.channel.value));
  }

  /** Every such step brings both sides closer to the end, and no step of anybody takes them back. */
  lemma EveryStepLeadsOn(s: State, t: State, i: nat)
    requires Inv(s) && Next(s, t) && i < |s.callbacks| && Finishing(s.callbacks[i])
    ensures i < |t.callbacks| && Finishing(t.callbacks[i])
    ensures MainWork(t.main) + CallbackWork(t.callbacks[i]) <= MainWork(s.main) + CallbackWork(s.callbacks[i])
    ensures Forced(s, t, i) ==>
              MainWork(t.main) + CallbackWork(t.callbacks[i]) < MainWork(s.main) + CallbackWork(s.callbacks[i])
  {
    assert Led(s, s.callbacks[i]);
  }

  ghost function ForcedSteps(states: seq<State>, i: nat, first: nat, last: nat): nat
    requires first <= last < |states|
    decreases last
  {
    if first == last then 0
    else ForcedSteps(states, i, first, last - 1) + if Forced(states[last - 1], states[last], i) then 1 else 0
  }

  /**
   * From the end of the active function on, in any interleaving, at most seven such steps are taken,
   * and after the seventh both sides are through.
   */
  lemma {:induction false} BothSidesFinish(states: seq<State>, i: nat, first: nat, last: nat)
    requires Run(states) && first <= last < |states|
    requires i < |states[first].callbacks| && Finishing(states[first].callbacks[i])
    ensures i < |states[last].callbacks| && Finishing(states[last].callbacks[i])
    ensures ForcedSteps(states, i, first, last) + MainWork(states[last].main) +
        CallbackWork(states[last].callbacks[i]) <= 7
    ensures ForcedSteps(states, i, first, last) == 7 ==>
              states[last].main.Returned? && states[last].callbacks[i].Done?
    decreases last
  {
    hide Next, Forced, Inv;
    if first < last {
      BothSidesFinish(states, i, first, last - 1);
      EveryStateInv(states, last - 1);
      EveryStepLeadsOn(states[last - 1], states[last], i);
    }
  }

  // ---------- the completion value ----------

  /** No error is reported exactly when the active function stopped because its context was done. */
  lemma CompletionIsNoError(err: Option<Error>, doneFirst: bool, doneSecond: bool)
    requires doneFirst ==> doneSecond
    ensures Completion(err, doneFirst, doneSecond).None? <==>
            (err.None? && doneSecond) || (doneFirst && (err == Some(Canceled) || err == Some(DeadlineExceeded)))
  {
  }

  /**
   * The active function's own error is what is reported, except that stopping without one while the
   * context goes on is an error of its own. A context that is done only later excuses no cancellation.
   */
  lemma CompletionIsOwnError(err: Option<Error>, doneFirst: bool, doneSecond: bool)
    requires (doneFirst ==> doneSecond) && Completion(err, doneFirst, doneSecond).Some?
    ensures Completion(err, doneFirst, doneSecond) == Some(StoppedUnexpectedly) <==>
            err == Some(StoppedUnexpectedly) || (err.None? && !doneSecond)
    ensures err.Some? ==> Completion(err, doneFirst, doneSecond) == err
    ensures (err == Some(Canceled) || err == Some(DeadlineExceeded)) ==> !doneFirst
  {
  }
}
