/** How a channel accounts for the time it is on hold, within one caller profile. */
module HoldRecords {
  /** A period on hold; off is 0 while it lasts. */
  datatype HoldRecord = HoldRecord(on: nat, off: nat)

  /** The total length of the closed records. */
  function ClosedTime(records: seq<HoldRecord>): int {
    if records == [] then 0
    else (if records[0].off == 0 then 0 else records[0].off - records[0].on) + ClosedTime(records[1..])
  }

  /** Whether the newest record is open; in a channel only that one can be. */
  predicate Open(records: seq<HoldRecord>) {
    records != [] && records[0].off == 0
  }

  /** The records when the open one, if there is one, is closed. */
  function Released(records: seq<HoldRecord>, now: nat): seq<HoldRecord> {
    if Open(records) then [HoldRecord(records[0].on, now)] + records[1..] else records
  }

  class Channel {
    var holding: bool
    var answered: bool
    var hungUp: bool
    var lastHold: nat
    var holdAccum: int
    /** The newest record first. */
    var records: seq<HoldRecord>
    ghost var clock: nat

    ghost predicate Valid()
      reads this
    {
      && holdAccum == ClosedTime(records)
      && (forall i :: 0 <= i < |records| ==> 0 < records[i].on <= clock)
      && (forall i :: 0 <= i < |records| ==> records[i].off == 0 || records[i].on <= records[i].off <= clock)
      && (forall i :: 1 <= i < |records| ==> records[i].off != 0)
      && (records != [] ==> answered && lastHold == records[0].on)
      && (records == [] ==> lastHold == 0)
      && (records != [] && answered ==> (records[0].off == 0 <==> holding))
    }

    ghost function Current(): State
      reads this
    {
      State(holding, answered, hungUp, records)
    }

    lemma OnlyNewestOpen(i: nat)
      requires Valid() && i < |records| && records[i].off == 0
      ensures i == 0 && Open(records) && holding
    {
    }

    constructor ()
      ensures Valid() && !holding && !answered && !hungUp && records == [] && clock == 0
    {
      holding, answered, hungUp, lastHold, holdAccum, records, clock := false, false, false, 0, 0, [], 0;
    }

    method Answer()
      requires Valid()
      modifies this`answered
      ensures Valid() && answered
    {
      answered := true;
    }

    method SetHolding(now: nat)
      requires Valid() && now >= clock && now > 0
      modifies this`holding, this`lastHold, this`records, this`clock
      ensures Valid() && holding && clock == now
      ensures records == if answered && !old(holding) then [HoldRecord(now, 0)] + old(records) else old(records)
    {
      var held := !holding && answered;
      holding := true;
      clock := now;
      if held {
        lastHold := now;
        records := [HoldRecord(now, 0)] + records;
      }
    }

    /** Closes the open record and adds its length; a hold that began before the answer has none. */
    method ClearHolding(now: nat)
      requires Valid() && now >= clock && now > 0
      modifies this`holding, this`holdAccum, this`records, this`clock
      ensures Valid() && !holding && !Open(records) && clock == now
      ensures records == Released(old(records), now)
      ensures holdAccum == old(holdAccum) + if old(Open(records)) then now - old(records)[0].on else 0
    {
      var active := holding && answered;
      holding := false;
      clock := now;
      if active {
        if lastHold != 0 {
          holdAccum := holdAccum + (now - lastHold);
        }
        if |records| > 0 {
          records := [HoldRecord(records[0].on, now)] + records[1..];
        }
      }
    }

    method MarkHold(on: bool, now: nat)
      requires Valid() && now >= clock && now > 0
      modifies this`holding, this`lastHold, this`holdAccum, this`records, this`clock
      ensures Valid() && holding == on && (!on ==> !Open(records)) && old(clock) <= clock <= now
      ensures on == old(holding) ==> records == old(records) && holdAccum == old(holdAccum)
      ensures !on ==> records == Released(old(records), now)
                      && holdAccum == old(holdAccum) + if old(Open(records)) then now - old(records)[0].on else 0
      ensures on && !old(holding) ==>
                && holdAccum == old(holdAccum)
                && records == if answered then [HoldRecord(now, 0)] + old(records) else old(records)
    {
      if on == holding {
        return;
      }
      if on {
        SetHolding(now);
      } else {
        ClearHolding(now);
      }
    }

    /**
     The hold part of a hangup, run in full by the first call only. Its last step, which would close a
     record without adding its length, never finds one open.
     */
    method PerformHangup(down: bool, now: nat)
      requires Valid() && now >= clock && now > 0
      modifies this`holding, this`hungUp, this`lastHold, this`holdAccum, this`records, this`clock
      ensures Valid() && hungUp && !holding && !Open(records) && old(clock) <= clock <= now
      ensures records == Released(old(records), now)
      ensures holdAccum == old(holdAccum) + if old(Open(records)) then now - old(records)[0].on else 0
    {
      var ok := !hungUp;
      hungUp := true;
      if holding {
        MarkHold(false, now);
      }
      if ok && !down {
        if |records| > 0 && records[0].off == 0 {
          assert false;
        }
      }
    }
  }

  // ---- Whole runs ----

  datatype Op = Answer | SetHolding | ClearHolding | Mark(on: bool) | Hangup(down: bool)

  datatype State = State(holding: bool, answered: bool, hungUp: bool, records: seq<HoldRecord>)

  function After(s: State, op: Op, now: nat): State {
    match op
    case Answer => s.(answered := true)
    case SetHolding => Held(s, now)
    case ClearHolding => LetGo(s, now)
    case Mark(on) => if on == s.holding then s else if on then Held(s, now) else LetGo(s, now)
    case Hangup(_) => LetGo(s, now).(hungUp := true)
  }

  function Held(s: State, now: nat): State {
    s.(holding := true, records := if s.answered && !s.holding then [HoldRecord(now, 0)] + s.records else s.records)
  }

  function LetGo(s: State, now: nat): State {
    s.(holding := false, records := Released(s.records, now))
  }

  function Replay(s: State, ops: seq<Op>, times: seq<nat>): State
    requires |times| == |ops|
  {
    if ops == [] then s
    else
      var n := |ops| - 1;
      After(Replay(s, ops[..n], times[..n]), ops[n], times[n])
  }

  /** A clock that does not go back, from a given time on. */
  ghost predicate Monotone(from: nat, times: seq<nat>) {
    && (forall i :: 0 <= i < |times| ==> times[i] > 0 && times[i] >= from)
    && (forall i, j :: 0 <= i < j < |times| ==> times[i] <= times[j])
  }

  const NEW := State(false, false, false, [])

  method Step(c: Channel, op: Op, now: nat)
    requires c.Valid() && now >= c.clock && now > 0
    modifies c
    ensures c.Valid() && c.clock <= now && (op.Hangup? ==> !Open(c.records))
    ensures c.Current() == After(old(c.Current()), op, now)
  {
    match op
    case Answer => c.Answer();
    case SetHolding => c.SetHolding(now);
    case ClearHolding => c.ClearHolding(now);
    case Mark(on) => c.MarkHold(on, now);
    case Hangup(down) => c.PerformHangup(down, now);
  }

  /** Any run of these calls leaves exactly the state of its history, and the accounts in balance. */
  method Run(c: Channel, ops: seq<Op>, times: seq<nat>)
    requires c.Valid() && |times| == |ops| && Monotone(c.clock, times)
    modifies c
    ensures c.Valid() && c.Current() == Replay(old(c.Current()), ops, times)
    ensures c.holdAccum == ClosedTime(c.records)
    ensures forall i :: 1 <= i < |c.records| ==> c.records[i].off != 0
    ensures ops != [] && ops[|ops| - 1].Hangup? ==> forall i :: 0 <= i < |c.records| ==> c.records[i].off != 0
  {
    for i := 0 to |ops|
      invariant c.Valid() && (i < |times| ==> c.clock <= times[i])
      invariant c.Current() == Replay(old(c.Current()), ops[..i], times[..i])
      invariant i > 0 && ops[i - 1].Hangup? ==> !Open(c.records)
    {
      assert ops[..i + 1][..i] == ops[..i] && times[..i + 1][..i] == times[..i];
      Step(c, ops[i], times[i]);
    }
    assert ops[..|ops|] == ops && times[..|ops|] == times;
  }

  /** Whether the history has the channel on hold. */
  function Holding(ops: seq<Op>): bool {
    if ops == [] then false
    else match ops[|ops| - 1]
      case Answer => Holding(ops[..|ops| - 1])
      case SetHolding => true
      case Mark(on) => on
      case _ => false
  }

  /** Whether that hold counts: it began after the answer. */
  function OnHold(ops: seq<Op>): bool {
    if !Holding(ops) then false
    else
      var front := ops[..|ops| - 1];
      if Holding(front) then OnHold(front) else Answer in front
  }

  function Since(from: int, to: int): int {
    to - from
  }

  /** How long, up to the last call, the channel was on a hold that counts. */
  function HeldTime(ops: seq<Op>, times: seq<nat>): int
    requires |times| == |ops|
  {
    if |ops| < 2 then 0
    else
      var n := |ops| - 1;
      HeldTime(ops[..n], times[..n]) + if OnHold(ops[..n]) then Since(times[n - 1], times[n]) else 0
  }

  /** The length of the open record so far. */
  function OpenTime(records: seq<HoldRecord>, now: nat): int {
    if Open(records) then now - records[0].on else 0
  }

  lemma {:induction false} ReplayFlags(ops: seq<Op>, times: seq<nat>)
    requires |times| == |ops|
    ensures var s := Replay(NEW, ops, times); s.holding == Holding(ops) && s.answered == (Answer in ops)
    ensures Replay(NEW, ops, times).hungUp <==> exists i :: 0 <= i < |ops| && ops[i].Hangup?
  {
    if ops != [] {
      var n := |ops| - 1;
      ReplayFlags(ops[..n], times[..n]);
      assert ops == ops[..n] + [ops[n]];
      assert forall i :: 0 <= i < n ==> ops[i] == ops[..n][i];
    }
  }

  lemma {:induction false} ReplayHolds(ops: seq<Op>, times: seq<nat>)
    requires |times| == |ops| && Monotone(0, times)
    ensures Open(Replay(NEW, ops, times).records) <==> OnHold(ops)
  {
    if ops != [] {
      var n := |ops| - 1;
      ReplayHolds(ops[..n], times[..n]);
      ReplayFlags(ops[..n], times[..n]);
      ReplayFlags(ops, times);
    }
  }

  /** No call changes how long the records last together at its time. */
  lemma SameTime(s: State, op: Op, now: nat)
    requires now > 0 && (Open(s.records) ==> s.holding)
    ensures var after := After(s, op, now).records;
            ClosedTime(after) + OpenTime(after, now) == ClosedTime(s.records) + OpenTime(s.records, now)
  {
    var let := Released(s.records, now);
    assert s.records != [] ==> let[1..] == s.records[1..];
    assert ([HoldRecord(now, 0)] + s.records)[1..] == s.records;
  }

  /** The closed records, and the open one so far, last as long as the channel was on hold. */
  lemma {:induction false} HeldExactly(ops: seq<Op>, times: seq<nat>)
    requires |times| == |ops| > 0 && Monotone(0, times)
    ensures var s := Replay(NEW, ops, times);
            ClosedTime(s.records) + OpenTime(s.records, times[|ops| - 1]) == HeldTime(ops, times)
  {
    var n := |ops| - 1;
    var front := Replay(NEW, ops[..n], times[..n]);
    ReplayHolds(ops[..n], times[..n]);
    ReplayFlags(ops[..n], times[..n]);
    SameTime(front, ops[n], times[n]);
    if n > 0 {
      HeldExactly(ops[..n], times[..n]);
    }
  }

  /** From a new channel: hold_accum, with the open record, is the time on hold; a hangup leaves none open. */
  method Account(ops: seq<Op>, times: seq<nat>) returns (c: Channel)
    requires |times| == |ops| > 0 && Monotone(0, times)
    ensures fresh(c) && c.Valid() && c.Current() == Replay(NEW, ops, times)
    ensures c.holdAccum + OpenTime(c.records, times[|ops| - 1]) == HeldTime(ops, times)
    ensures ops[|ops| - 1].Hangup? ==> c.holdAccum == HeldTime(ops, times)
  {
    c := new Channel();
    Run(c, ops, times);
    HeldExactly(ops, times);
  }
}
