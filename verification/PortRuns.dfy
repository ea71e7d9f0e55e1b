/** Whole runs of requests and frees on an allocator of even ports. */
module PortRuns {
  import opened PortTrack
  import opened PortAllocator

  datatype Call = Request | Free(port: Port)

  /** What a call hands back; the port is 0 but for a request that succeeds. */
  datatype Outcome = Outcome(status: Status, port: Port)

  /** The ports issued and not freed since, as the history shows them. */
  function HeldBy(calls: seq<Call>, outs: seq<Outcome>): set<Port>
    requires |calls| == |outs|
  {
    if calls == [] then {}
    else
      var n := |calls| - 1;
      HeldAfter(HeldBy(calls[..n], outs[..n]), calls[n], outs[n])
  }

  function HeldAfter(held: set<Port>, call: Call, out: Outcome): set<Port> {
    match call
    case Request => if out.status == Success then held + {out.port} else held
    case Free(port) => held - {Lower(port)}
  }

  /** A call's outcome over a range: a request fails only when all its even ports are held. */
  ghost predicate Answers(start: Port, end: Port, held: set<Port>, call: Call, out: Outcome) {
    match call
    case Request =>
      if |held| <= (end - start) / 2
      then out.status == Success && out.port % 2 == 0 && start <= out.port <= end && out.port !in held
      else out == Outcome(False, 0)
    case Free(port) =>
      out == Outcome(if port < start then GenErr else if Lower(port) in held then Success else False, 0)
  }

  ghost predicate History(start: Port, end: Port, calls: seq<Call>, outs: seq<Outcome>) {
    |calls| == |outs| &&
    forall i :: 0 <= i < |calls| ==> Answers(start, end, HeldBy(calls[..i], outs[..i]), calls[i], outs[i])
  }

  ghost predicate Unheld(start: Port, end: Port, held: set<Port>, port: Port) {
    start <= port <= end && port % 2 == 0 && port !in held
  }

  /** A request over the range asked for: it succeeds, with one of them, if and only if an even port is unheld. */
  ghost predicate Asked(start: Port, end: Port, held: set<Port>, out: Outcome) {
    && (out.status == Success <==> exists port :: Unheld(start, end, held, port))
    && if out.status == Success then Unheld(start, end, held, out.port) else out == Outcome(False, 0)
  }

  ghost predicate EvensOf(start: Port, end: Port, s: set<Port>) {
    forall port :: port in s ==> start <= port <= end && port % 2 == 0
  }

  lemma {:induction false} EvensCount(start: Port, end: int, s: set<Port>)
    requires start % 2 == 0 && end % 2 == 0 && start <= end + 2
    requires forall port :: port in s ==> start <= port <= end && port % 2 == 0
    ensures |s| <= (end - start) / 2 + 1
    decreases end - start + 2
  {
    if start <= end {
      EvensCount(start, end - 2, s - {end});
    } else {
      assert s == {};
    }
  }

  lemma AskedIs(start: Port, end: Port, held: set<Port>, out: Outcome)
    requires start <= end && start < 0xffff
    requires var s, e := RoundedStart(start, true, false), RoundedEnd(end, true, false);
             EvensOf(s, e, held) && Answers(s, e, held, Request, out)
    ensures Asked(start, end, held, out)
  {
    var s, e := RoundedStart(start, true, false), RoundedEnd(end, true, false);
    RoundedInwards(start, end, true, false);
    if port :| Unheld(start, end, held, port) {
      EvensCount(s, e, held + {port});
    }
    if out.status == Success {
      assert Unheld(start, end, held, out.port);
    }
  }

  lemma {:induction false} HeldAreEven(start: Port, end: Port, calls: seq<Call>, outs: seq<Outcome>, i: nat)
    requires History(start, end, calls, outs) && i <= |calls|
    ensures EvensOf(start, end, HeldBy(calls[..i], outs[..i]))
  {
    if i > 0 {
      HeldAreEven(start, end, calls, outs, i - 1);
      assert calls[..i][..i - 1] == calls[..i - 1] && outs[..i][..i - 1] == outs[..i - 1];
    }
  }

  lemma OwnRange(start: Port, end: Port, calls: seq<Call>, outs: seq<Outcome>)
    requires start <= end && start < 0xffff
    requires History(RoundedStart(start, true, false), RoundedEnd(end, true, false), calls, outs)
    ensures forall i :: 0 <= i < |calls| && calls[i].Request? ==>
              Asked(start, end, HeldBy(calls[..i], outs[..i]), outs[i])
  {
    forall i | 0 <= i < |calls| && calls[i].Request? ensures Asked(start, end, HeldBy(calls[..i], outs[..i]), outs[i]) {
      HeldAreEven(RoundedStart(start, true, false), RoundedEnd(end, true, false), calls, outs, i);
      AskedIs(start, end, HeldBy(calls[..i], outs[..i]), outs[i]);
    }
  }

  /** A free that looks at a slot of the track array, or at none. */
  predicate InTrack(start: Port, end: Port, call: Call) {
    call.Request? || call.port < start || SlotOf(start, true, false, call.port) < TrackLen(start, end, true, false) + 2
  }

  lemma SlotCount(a: PortAllocator)
    requires a.Valid() && a.EvenMode()
    ensures a.trackLen == (a.end - a.start) / 2 + 1 && |a.HeldPorts()| == a.trackUsed
  {
    HeldCount(a.start, a.end, a.Slots());
  }

  lemma NoneBelow(a: PortAllocator, port: Port)
    requires a.Valid() && a.EvenMode() && port < a.start
    ensures port !in a.HeldPorts()
  {
    forall i: nat | i < a.trackLen ensures PortOf(a.start, a.even, a.odd, i) >= a.start {
      EvenSlot(a.start, a.end, i);
    }
  }

  method StepRequest(a: PortAllocator) returns (out: Outcome)
    requires a.Valid() && a.EvenMode()
    modifies a`trackUsed, a`log, a.track
    ensures a.Valid() && Answers(a.start, a.end, old(a.HeldPorts()), Request, out)
    ensures a.HeldPorts() == HeldAfter(old(a.HeldPorts()), Request, out)
  {
    SlotCount(a);
    var status, port;
    ghost var slot, passes;
    status, port, slot, passes := a.RequestPort();
    out := Outcome(status, port);
  }

  method StepFree(a: PortAllocator, port: Port) returns (out: Outcome)
    requires a.Valid() && a.EvenMode() && InTrack(a.start, a.end, Free(port))
    modifies a`trackUsed, a`log, a.track
    ensures a.Valid() && Answers(a.start, a.end, old(a.HeldPorts()), Free(port), out)
    ensures a.HeldPorts() == HeldAfter(old(a.HeldPorts()), Free(port), out)
  {
    if port < a.start {
      NoneBelow(a, Lower(port));
    }
    var status;
    ghost var slot;
    status, slot := a.FreePort(port);
    out := Outcome(status, 0);
  }

  /**
   A new allocator of even ports and any calls, with frees of ports it never issued among them: every outcome
   is the one that the history demands, and the ports held are those issued and not freed since. The ports
   issued are those of the range asked for, unless it is port 65535 alone, whose rounding wraps to 0.
   */
  method Run(start: Port, end: Port, calls: seq<Call>) returns (a: PortAllocator, outs: seq<Outcome>)
    requires start <= end
    requires forall i :: 0 <= i < |calls| ==>
               InTrack(RoundedStart(start, true, false), RoundedEnd(end, true, false), calls[i])
    ensures fresh(a) && fresh(a.track) && a.Valid() && a.EvenMode()
    ensures a.start == RoundedStart(start, true, false) && a.end == RoundedEnd(end, true, false)
    ensures History(a.start, a.end, calls, outs) && a.HeldPorts() == HeldBy(calls, outs)
    ensures start < 0xffff ==>
              forall i :: 0 <= i < |calls| && calls[i].Request? ==>
                Asked(start, end, HeldBy(calls[..i], outs[..i]), outs[i])
    decreases |calls|
  {
    if |calls| == 0 {
      a := new PortAllocator(start, end, true, false);
      outs := [];
    } else {
      var n := |calls| - 1;
      a, outs := Run(start, end, calls[..n]);
      var out;
      match calls[n] {
        case Request => out := StepRequest(a);
        case Free(port) => out := StepFree(a, port);
      }
      Longer(a.start, a.end, calls, outs, out);
      outs := outs + [out];
    }
    if start < 0xffff {
      OwnRange(start, end, calls, outs);
    }
  }

  /** The range of port 65535 alone: a request gets a port below it. */
  method WrappedRange() returns (status: Status, port: Port)
    ensures status == Success && port < 0xffff
  {
    var a := new PortAllocator(0xffff, 0xffff, true, false);
    EvenSlot(a.start, a.end, 0);
    ghost var slot, passes;
    status, port, slot, passes := a.RequestPort();
  }

  lemma Longer(start: Port, end: Port, calls: seq<Call>, outs: seq<Outcome>, out: Outcome)
    requires |calls| == |outs| + 1 && History(start, end, calls[..|outs|], outs)
    requires Answers(start, end, HeldBy(calls[..|outs|], outs), calls[|outs|], out)
    ensures History(start, end, calls, outs + [out])
    ensures HeldBy(calls, outs + [out]) == HeldAfter(HeldBy(calls[..|outs|], outs), calls[|outs|], out)
  {
    var n, all := |outs|, outs + [out];
    assert all[..n] == outs;
    forall i | 0 <= i < |calls| ensures Answers(start, end, HeldBy(calls[..i], all[..i]), calls[i], all[i]) {
      assert all[..i] == outs[..i];
      if i < n {
        assert calls[..n][..i] == calls[..i];
        assert Answers(start, end, HeldBy(calls[..n][..i], outs[..i]), calls[..n][i], outs[i]);
      } else {
        assert outs[..i] == outs;
      }
    }
  }

  /** Between two issues of a port it was freed, so no two callers ever hold it. */
  lemma {:induction false} FreedBetween(start: Port, end: Port, calls: seq<Call>, outs: seq<Outcome>, i: nat, j: nat)
    requires History(start, end, calls, outs) && i < j < |calls| && calls[i] == calls[j] == Request
    requires outs[i].status == outs[j].status == Success && outs[i].port == outs[j].port
    ensures exists k :: i < k < j && calls[k].Free? && Lower(calls[k].port) == outs[i].port
  {
    if forall k :: i < k < j ==> !(calls[k].Free? && Lower(calls[k].port) == outs[i].port) {
      StillHeld(calls, outs, i, j);
    }
  }

  lemma {:induction false} StillHeld(calls: seq<Call>, outs: seq<Outcome>, i: nat, j: nat)
    requires |calls| == |outs| && i < j <= |calls| && calls[i] == Request && outs[i].status == Success
    requires forall k :: i < k < j ==> !(calls[k].Free? && Lower(calls[k].port) == outs[i].port)
    ensures outs[i].port in HeldBy(calls[..j], outs[..j])
    decreases j
  {
    assert calls[..j][..j - 1] == calls[..j - 1] && outs[..j][..j - 1] == outs[..j - 1];
    if i < j - 1 {
      StillHeld(calls, outs, i, j - 1);
    }
  }
}
