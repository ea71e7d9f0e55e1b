/** The call-state machine of a channel and its one-shot hangup. */
module ChannelState {
  datatype State =
    | New | Init | Routing | SoftExecute | Execute | ExchangeMedia | Park | ConsumeMedia | Hibernate | Reset
    | Hangup | Reporting | Destroy

  /** The numbering of the states, which the comparisons use. */
  function Rank(s: State): (r: nat)
    ensures r <= 12
  {
    match s
    case New => 0 case Init => 1 case Routing => 2 case SoftExecute => 3 case Execute => 4
    case ExchangeMedia => 5 case Park => 6 case ConsumeMedia => 7 case Hibernate => 8 case Reset => 9
    case Hangup => 10 case Reporting => 11 case Destroy => 12
  }

  /** The states in the order in which the comparisons see them. */
  function States(): (ss: seq<State>)
    ensures |ss| == 13
  {
    [New, Init, Routing, SoftExecute, Execute, ExchangeMedia, Park, ConsumeMedia, Hibernate, Reset, Hangup, Reporting, Destroy]
  }

  lemma RankIsPosition(s: State)
    ensures States()[Rank(s)] == s
    ensures forall i :: 0 <= i < 13 ==> Rank(States()[i]) == i
  {
  }

  predicate Down(s: State) {
    Rank(s) >= Rank(Hangup)
  }

  /** The transitions spelled out in the nested switch. */
  predicate Listed(last: State, to: State) {
    match last
    case New => true
    case Reset => true
    case Init => to.ExchangeMedia? || to.SoftExecute? || to.Routing? || to.Execute? || to.Park? || to.ConsumeMedia? || to.Hibernate? || to.Reset?
    case ExchangeMedia => to.SoftExecute? || to.Routing? || to.Execute? || to.Park? || to.ConsumeMedia? || to.Hibernate? || to.Reset?
    case SoftExecute => to.ExchangeMedia? || to.Routing? || to.Execute? || to.Park? || to.ConsumeMedia? || to.Hibernate? || to.Reset?
    case Park => to.ExchangeMedia? || to.Routing? || to.Execute? || to.SoftExecute? || to.Hibernate? || to.Reset? || to.ConsumeMedia?
    case ConsumeMedia => to.ExchangeMedia? || to.Routing? || to.Execute? || to.SoftExecute? || to.Hibernate? || to.Reset? || to.Park?
    case Hibernate => to.ExchangeMedia? || to.Init? || to.Routing? || to.Execute? || to.SoftExecute? || to.Park? || to.ConsumeMedia? || to.Reset?
    case Routing => to.ExchangeMedia? || to.Execute? || to.SoftExecute? || to.Park? || to.ConsumeMedia? || to.Hibernate? || to.Reset?
    case Execute => to.ExchangeMedia? || to.SoftExecute? || to.Routing? || to.Park? || to.ConsumeMedia? || to.Hibernate? || to.Reset?
    case Hangup => to.Reporting? || to.Destroy?
    case Reporting => to.Destroy?
    case Destroy => false
  }

  const NORMAL_CLEARING: nat := 16

  /** What the calls change: the state, the hangup flag and cause, and how often the hangup event fired. */
  datatype Core = Core(state: State, hungUp: bool, cause: nat, fired: nat)

  /** The states between Init and Hibernate move freely among themselves and to Reset. */
  predicate Working(s: State) {
    Rank(Init) < Rank(s) < Rank(Reset)
  }

  /** The transitions in closed form: a channel that is down only goes further down. */
  predicate Permitted(last: State, to: State) {
    || last.New? || last.Reset?
    || ((last.Init? || Working(last)) && (Working(to) || to.Reset?))
    || (last.Hibernate? && to.Init?)
    || (Down(last) && Rank(to) > Rank(last))
  }

  lemma ListedExactly(last: State, to: State)
    requires last != to
    ensures Listed(last, to) <==> Permitted(last, to)
  {
  }

  /** Whether a request trips the assert on an invalid transition: never on a channel that is down. */
  predicate Trips(c: Core, to: State) {
    to != c.state && !Down(c.state) && !Permitted(c.state, to)
  }

  function AfterSetState(c: Core, to: State): Core {
    if to == c.state || !Permitted(c.state, to) then c
    else c.(state := to, cause := if to.Hangup? && c.cause == 0 then NORMAL_CLEARING else c.cause)
  }

  function AfterHangup(c: Core, cause: nat): Core {
    if !c.hungUp && !Down(c.state) then Core(Hangup, true, cause, c.fired + 1) else c.(hungUp := true)
  }

  class Channel {
    var state: State
    var hungUp: bool
    var cause: nat
    var fired: nat

    ghost function Value(): Core
      reads this
    {
      Core(state, hungUp, cause, fired)
    }

    constructor ()
      ensures Value() == Core(New, false, 0, 0) == NEW
    {
      state, hungUp, cause, fired := New, false, 0, 0;
    }

    /** Returns whether the assert on an invalid transition failed. */
    method SetState(to: State) returns (tripped: bool)
      modifies this
      ensures Value() == AfterSetState(old(Value()), to)
      ensures tripped <==> Trips(old(Value()), to)
      ensures state == if Permitted(old(state), to) then to else old(state)
      ensures cause == if to == Hangup && state != old(state) && old(cause) == 0 then 16 else old(cause)
      ensures hungUp == old(hungUp) && fired == old(fired)
      ensures tripped ==> Rank(old(state)) < Rank(Hangup) && state == old(state)
    {
      var lastState := state;
      if lastState == to {
        return false;
      }
      ListedExactly(lastState, to);
      if Down(lastState) && Rank(to) < Rank(lastState) {
        assert !Permitted(lastState, to);
        return false;
      }
      var listed := Listed(lastState, to);
      assert listed == Permitted(lastState, to);
      if listed {
        state := to;
        if to == Hangup && cause == 0 {
          cause := NORMAL_CLEARING;
        }
        tripped := false;
      } else {
        tripped := !Down(state);
      }
    }

    /** The whole hangup as one step: the first one, on a channel that is up, takes it down with its cause. */
    method PerformHangup(hangupCause: nat)
      modifies this
      ensures Value() == AfterHangup(old(Value()), hangupCause)
      ensures hungUp
      ensures !old(hungUp) && Rank(old(state)) < Rank(Hangup) ==>
                state == Hangup && cause == hangupCause && fired == old(fired) + 1
      ensures old(hungUp) || Rank(old(state)) >= Rank(Hangup) ==>
                state == old(state) && cause == old(cause) && fired == old(fired)
    {
      var ok := false;
      if !hungUp {
        hungUp := true;
        ok := true;
      }
      if !ok {
        return;
      }
      if !Down(state) {
        state := Hangup;
        cause := hangupCause;
        fired := fired + 1;
      }
    }
  }

  datatype Op = SetState(to: State) | PerformHangup(cause: nat)

  function Apply(c: Core, op: Op): Core {
    match op
    case SetState(to) => AfterSetState(c, to)
    case PerformHangup(cause) => AfterHangup(c, cause)
  }

  function Run(c: Core, ops: seq<Op>): Core {
    if ops == [] then c else Apply(Run(c, ops[..|ops| - 1]), ops[|ops| - 1])
  }

  /** How often a run changes the state. */
  function Changes(c: Core, ops: seq<Op>): nat {
    if ops == [] then 0
    else
      var before := Run(c, ops[..|ops| - 1]);
      Changes(c, ops[..|ops| - 1]) + if Apply(before, ops[|ops| - 1]).state != before.state then 1 else 0
  }

  /** Once down, the state never goes back, changes at most twice more, and no request trips the assert. */
  lemma {:induction false} DownForGood(c: Core, ops: seq<Op>, to: State)
    requires Down(c.state)
    ensures Rank(Run(c, ops).state) >= Rank(c.state) + Changes(c, ops)
    ensures Changes(c, ops) <= 2
    ensures !Trips(Run(c, ops), to)
  {
    if ops != [] {
      DownForGood(c, ops[..|ops| - 1], to);
    }
  }

  /** A new channel fires its hangup event at most once in any run, and only when it is hung up. */
  lemma {:induction false} FiresAtMostOnce(ops: seq<Op>)
    ensures var c := Run(Core(New, false, 0, 0), ops);
            c.fired <= 1 && (c.fired == 1 ==> c.hungUp && Down(c.state))
  {
    if ops != [] {
      FiresAtMostOnce(ops[..|ops| - 1]);
    }
  }

  const NEW := Core(New, false, 0, 0)

  ghost predicate FirstHangup(ops: seq<Op>, i: nat) {
    i < |ops| && ops[i].PerformHangup? && forall j :: 0 <= j < i ==> !ops[j].PerformHangup?
  }

  /**
   From the first hangup of a run on the channel is down. It fires the event, once and with its cause, if and
   only if it met a channel that was not down.
   */
  lemma {:induction false} FiredExactly(ops: seq<Op>)
    ensures var c := Run(NEW, ops);
            && (c.hungUp <==> exists i :: FirstHangup(ops, i))
            && (!c.hungUp ==> c.fired == 0)
            && forall i: nat :: FirstHangup(ops, i) ==>
                 && Down(c.state)
                 && c.fired == (if Down(Run(NEW, ops[..i]).state) then 0 else 1)
                 && (!Down(Run(NEW, ops[..i]).state) ==> c.cause == ops[i].cause)
  {
    if ops != [] {
      var n := |ops| - 1;
      FiredExactly(ops[..n]);
      forall i: nat | i < n ensures FirstHangup(ops, i) <==> FirstHangup(ops[..n], i) {
      }
      assert forall i: nat :: i < n ==> ops[..n][..i] == ops[..i];
      if !Run(NEW, ops[..n]).hungUp && ops[n].PerformHangup? {
        NoHangup(ops[..n]);
        assert FirstHangup(ops, n);
      }
    }
  }

  lemma {:induction false} NoHangup(ops: seq<Op>)
    requires forall i: nat :: !FirstHangup(ops, i)
    ensures forall i :: 0 <= i < |ops| ==> !ops[i].PerformHangup?
  {
    if ops != [] {
      var n := |ops| - 1;
      forall i: nat ensures !FirstHangup(ops[..n], i) {
        assert !FirstHangup(ops, i);
      }
      NoHangup(ops[..n]);
      assert !FirstHangup(ops, n);
    }
  }

  // ---- Hangup calls that interleave ----

  /** How far a hangup call has come. Only the locked steps are atomic. */
  datatype Pc = Idle | Lost | Won | Checked | Stored | Fired | Skipped

  datatype System = System(core: Core, calls: seq<Pc>, winner: int)

  datatype Step = Gate(t: nat) | Check(t: nat) | Store(t: nat) | Fire(t: nat, cause: nat) | Request(to: State)

  predicate Enabled(s: System, e: Step) {
    match e
    case Gate(t) => t < |s.calls| && s.calls[t] == Idle
    case Check(t) => t < |s.calls| && s.calls[t] == Won
    case Store(t) => t < |s.calls| && s.calls[t] == Checked
    case Fire(t, _) => t < |s.calls| && s.calls[t] == Stored
    case Request(_) => true
  }

  function Move(s: System, e: Step): System
    requires Enabled(s, e)
  {
    match e
    case Gate(t) =>
      if s.core.hungUp then s.(calls := s.calls[t := Lost])
      else System(s.core.(hungUp := true), s.calls[t := Won], t)
    case Check(t) => s.(calls := s.calls[t := if Down(s.core.state) then Skipped else Checked])
    case Store(t) => s.(core := s.core.(state := Hangup), calls := s.calls[t := Stored])
    case Fire(t, cause) => s.(core := s.core.(cause := cause, fired := s.core.fired + 1), calls := s.calls[t := Fired])
    case Request(to) => s.(core := AfterSetState(s.core, to))
  }

  /** The steps of one call. */
  function Call(t: nat, cause: nat, wins: bool, up: bool): seq<Step> {
    if !wins then [Gate(t)] else if !up then [Gate(t), Check(t)] else [Gate(t), Check(t), Store(t), Fire(t, cause)]
  }

  /** A call that nothing comes between does what the whole hangup does. */
  lemma Uninterrupted(trace: seq<System>, t: nat, cause: nat)
    requires |trace| > 0 && t < |trace[0].calls| && trace[0].calls[t] == Idle
    requires Execution(trace, Call(t, cause, !trace[0].core.hungUp, !Down(trace[0].core.state)))
    ensures trace[|trace| - 1].core == AfterHangup(trace[0].core, cause)
  {
    var steps := Call(t, cause, !trace[0].core.hungUp, !Down(trace[0].core.state));
    assert trace[0 + 1] == Move(trace[0], steps[0]);
    if |steps| > 1 {
      assert trace[1 + 1] == Move(trace[1], steps[1]);
    }
    if |steps| > 2 {
      assert trace[2 + 1] == Move(trace[2], steps[2]);
      assert trace[3 + 1] == Move(trace[3], steps[3]);
    }
  }

  /** Only the winner of the gate is past it, and the event has fired exactly when the winner is done. */
  ghost predicate OneWinner(s: System) {
    && -1 <= s.winner < |s.calls|
    && (s.core.hungUp <==> s.winner >= 0)
    && (forall t :: 0 <= t < |s.calls| && t != s.winner ==> s.calls[t] == Idle || s.calls[t] == Lost)
    && (s.winner >= 0 ==> s.calls[s.winner] != Idle && s.calls[s.winner] != Lost)
    && s.core.fired == (if s.winner >= 0 && s.calls[s.winner] == Fired then 1 else 0)
  }

  lemma MoveKeepsOneWinner(s: System, e: Step)
    requires OneWinner(s) && Enabled(s, e)
    ensures OneWinner(Move(s, e))
  {
  }

  ghost predicate Execution(trace: seq<System>, steps: seq<Step>) {
    && |trace| == |steps| + 1
    && forall i :: 0 <= i < |steps| ==> Enabled(trace[i], steps[i]) && trace[i + 1] == Move(trace[i], steps[i])
  }

  ghost predicate Initial(s: System) {
    !s.core.hungUp && s.core.fired == 0 && s.winner == -1 && forall t :: 0 <= t < |s.calls| ==> s.calls[t] == Idle
  }

  /** However the calls interleave, one of them passes the gate and the event fires at most once. */
  lemma {:induction false} InterleavedHangups(trace: seq<System>, steps: seq<Step>, k: nat)
    requires Execution(trace, steps) && Initial(trace[0]) && k < |trace|
    ensures OneWinner(trace[k]) && trace[k].core.fired <= 1
  {
    if k > 0 {
      InterleavedHangups(trace, steps, k - 1);
      assert trace[k - 1 + 1] == Move(trace[k - 1], steps[k - 1]);
      MoveKeepsOneWinner(trace[k - 1], steps[k - 1]);
    }
  }

  /** The call that stores its state in step k looked in step c, and in step j a request overtook it. */
  ghost predicate OvertakenBy(trace: seq<System>, steps: seq<Step>, k: nat, c: nat, j: nat)
    requires Execution(trace, steps)
  {
    && c < j < k < |steps|
    && steps[k].Store? && steps[c] == Check(steps[k].t)
    && steps[j].Request?
    && Rank(trace[j].core.state) <= Rank(Hangup) < Rank(trace[j + 1].core.state)
  }

  ghost predicate Overtaken(trace: seq<System>, steps: seq<Step>, k: nat)
    requires Execution(trace, steps)
  {
    exists c, j :: OvertakenBy(trace, steps, k, c, j)
  }

  ghost predicate GoesBack(trace: seq<System>, k: nat)
    requires k + 1 < |trace|
  {
    Down(trace[k].core.state) && Rank(trace[k + 1].core.state) < Rank(trace[k].core.state)
  }

  /** A call that is about to store looked earlier, saw a channel that was not down, and has waited since. */
  lemma {:induction false} Looked(trace: seq<System>, steps: seq<Step>, k: nat, t: nat) returns (c: nat)
    requires Execution(trace, steps) && Initial(trace[0]) && k < |trace|
    requires t < |trace[k].calls| && trace[k].calls[t] == Checked
    ensures c < k && steps[c] == Check(t) && !Down(trace[c].core.state) && Waits(trace, steps, c + 1, k, t)
  {
    assert k > 0;
    assert trace[k - 1 + 1] == Move(trace[k - 1], steps[k - 1]);
    if steps[k - 1] == Check(t) {
      c := k - 1;
    } else {
      c := Looked(trace, steps, k - 1, t);
    }
  }

  ghost predicate Waits(trace: seq<System>, steps: seq<Step>, a: nat, b: nat, t: nat) {
    forall i :: a <= i <= b < |trace| ==> t < |trace[i].calls| && trace[i].calls[t] == Checked
  }

  /** While a call waits to store, only requests change the state. */
  lemma WaitingStep(trace: seq<System>, steps: seq<Step>, a: nat, b: nat, t: nat, i: nat)
    requires Execution(trace, steps) && Initial(trace[0]) && a <= i < b < |trace| && Waits(trace, steps, a, b, t)
    ensures trace[i + 1].core.state == trace[i].core.state
            || (steps[i].Request? && trace[i + 1].core == AfterSetState(trace[i].core, steps[i].to))
  {
    InterleavedHangups(trace, steps, i);
    assert trace[i + 1] == Move(trace[i], steps[i]);
    assert trace[i].calls[t] == Checked && trace[i + 1].calls[t] == Checked;
  }

  lemma {:induction false} Crossing(trace: seq<System>, steps: seq<Step>, a: nat, b: nat, t: nat) returns (j: nat)
    requires Execution(trace, steps) && Initial(trace[0]) && a <= b < |trace| && Waits(trace, steps, a, b, t)
    requires Rank(trace[a].core.state) <= Rank(Hangup) < Rank(trace[b].core.state)
    ensures a <= j < b && steps[j].Request?
    ensures Rank(trace[j].core.state) <= Rank(Hangup) < Rank(trace[j + 1].core.state)
    decreases b
  {
    WaitingStep(trace, steps, a, b, t, b - 1);
    if Rank(trace[b - 1].core.state) <= Rank(Hangup) {
      j := b - 1;
    } else {
      assert Waits(trace, steps, a, b - 1, t);
      j := Crossing(trace, steps, a, b - 1, t);
    }
  }

  lemma {:induction false} StaysBeyond(trace: seq<System>, steps: seq<Step>, a: nat, b: nat, t: nat)
    requires Execution(trace, steps) && Initial(trace[0]) && a <= b < |trace| && Waits(trace, steps, a, b, t)
    requires Rank(trace[a].core.state) > Rank(Hangup)
    ensures Rank(trace[b].core.state) > Rank(Hangup)
    decreases b
  {
    if a < b {
      assert Waits(trace, steps, a, b - 1, t);
      StaysBeyond(trace, steps, a, b - 1, t);
      WaitingStep(trace, steps, a, b, t, b - 1);
    }
  }

  /** A call looks once. */
  lemma {:induction false} LooksOnce(trace: seq<System>, steps: seq<Step>, c: nat, k: nat, t: nat)
    requires Execution(trace, steps) && Initial(trace[0]) && c < k < |trace| && steps[c] == Check(t)
    ensures t < |trace[k].calls| && trace[k].calls[t] != Won && trace[k].calls[t] != Idle
    decreases k
  {
    assert trace[k - 1 + 1] == Move(trace[k - 1], steps[k - 1]);
    if c < k - 1 {
      LooksOnce(trace, steps, c, k - 1, t);
    }
  }

  /**
   Interleaved, the state can go back after all, but only in one way: the hangup call stores its state after
   a request has taken the channel beyond hangup since the call looked.
   */
  lemma GoesBackExactly(trace: seq<System>, steps: seq<Step>, k: nat)
    requires Execution(trace, steps) && Initial(trace[0]) && k < |steps|
    ensures GoesBack(trace, k) <==> Overtaken(trace, steps, k)
  {
    assert trace[k + 1] == Move(trace[k], steps[k]);
    if steps[k].Store? {
      var t := steps[k].t;
      var c := Looked(trace, steps, k, t);
      assert trace[c + 1] == Move(trace[c], steps[c]);
      if GoesBack(trace, k) {
        var j := Crossing(trace, steps, c + 1, k, t);
        assert OvertakenBy(trace, steps, k, c, j);
      }
      if c': nat, j: nat :| OvertakenBy(trace, steps, k, c', j) {
        SameLook(trace, steps, k, t, c, c');
        assert Waits(trace, steps, j + 1, k, t);
        StaysBeyond(trace, steps, j + 1, k, t);
      }
    }
  }

  lemma SameLook(trace: seq<System>, steps: seq<Step>, k: nat, t: nat, c: nat, c': nat)
    requires Execution(trace, steps) && Initial(trace[0]) && c < k < |trace| && c' < k
    requires steps[c] == Check(t) == steps[c']
    ensures c == c'
  {
    assert Enabled(trace[c], steps[c]) && Enabled(trace[c'], steps[c']);
    if c < c' {
      LooksOnce(trace, steps, c, c', t);
    } else if c' < c {
      LooksOnce(trace, steps, c', c, t);
    }
  }

  /** So without such a request a channel that is down never goes back. */
  lemma {:induction false} NeverBack(trace: seq<System>, steps: seq<Step>, a: nat, b: nat)
    requires Execution(trace, steps) && Initial(trace[0]) && a <= b < |trace| && Down(trace[a].core.state)
    requires forall k :: a <= k < b ==> !Overtaken(trace, steps, k)
    ensures Rank(trace[b].core.state) >= Rank(trace[a].core.state)
    decreases b
  {
    if a < b {
      NeverBack(trace, steps, a, b - 1);
      GoesBackExactly(trace, steps, b - 1);
    }
  }

  /** That does happen: between the look and the store, requests take a resetting channel to Reporting. */
  lemma GoesBackOnce() returns (trace: seq<System>, steps: seq<Step>)
    ensures Execution(trace, steps) && Initial(trace[0])
    ensures exists k :: 0 <= k < |steps| && trace[k].core.state == Reporting && trace[k + 1].core.state == Hangup
  {
    var s0 := System(Core(Reset, false, 0, 0), [Idle], -1);
    var s1 := Move(s0, Gate(0));
    var s2 := Move(s1, Check(0));
    var s3 := Move(s2, Request(Hangup));
    var s4 := Move(s3, Request(Reporting));
    var s5 := Move(s4, Store(0));
    trace := [s0, s1, s2, s3, s4, s5];
    steps := [Gate(0), Check(0), Request(Hangup), Request(Reporting), Store(0)];
    assert trace[4].core.state == Reporting && trace[4 + 1].core.state == Hangup;
  }
}
