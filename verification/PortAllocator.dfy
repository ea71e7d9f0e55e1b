/** The RTP port allocator: random probing with wrap-around and a cool-down for freed slots. */
module PortAllocator {
  import opened PortTrack

  type Port = p: nat | p < 0x1_0000

  datatype Status = Success | False | GenErr

  /** An SPF_EVEN range starts and an SPF_ODD range starts on a port of its parity; 65535 wraps to 0. */
  function RoundedStart(start: Port, even: bool, odd: bool): Port {
    if even != odd && start % 2 != (if even then 0 else 1) then (start + 1) % 0x1_0000 else start
  }

  function RoundedEnd(end: Port, even: bool, odd: bool): Port {
    if even != odd && end % 2 != (if even then 0 else 1) then (end - 1) % 0x1_0000 else end
  }

  /** Rounding moves each end inwards by one at most, to a port of the parity; only at the very ends it wraps. */
  lemma RoundedInwards(start: Port, end: Port, even: bool, odd: bool)
    ensures start < 0xffff ==> start <= RoundedStart(start, even, odd) <= start + 1
    ensures end > 0 ==> end - 1 <= RoundedEnd(end, even, odd) <= end
    ensures even && !odd ==> RoundedStart(start, even, odd) % 2 == RoundedEnd(end, even, odd) % 2 == 0
    ensures odd && !even ==> RoundedStart(start, even, odd) % 2 == RoundedEnd(end, even, odd) % 2 == 1
    ensures even == odd ==> RoundedStart(start, even, odd) == start && RoundedEnd(end, even, odd) == end
    ensures RoundedStart(0xffff, true, false) == 0 && RoundedEnd(0, false, true) == 0xffff
  {
  }

  /** The slot count, in unsigned 32-bit arithmetic. */
  function TrackLen(start: Port, end: Port, even: bool, odd: bool): nat {
    var len := (end - start + 2) % 0x1_0000_0000;
    if even && odd then len else len / 2
  }

  /** The port of a slot, in unsigned 16-bit arithmetic. */
  function PortOf(start: Port, even: bool, odd: bool, slot: nat): Port {
    if even && odd then (slot + start) % 0x1_0000
    else ((slot + start / 2) % 0x1_0000 * 2) % 0x1_0000
  }

  /** The slot that a free of the port looks at. */
  function SlotOf(start: Port, even: bool, odd: bool, port: Port): nat
    requires port >= start
  {
    if even && odd then port - start else (port - start) / 2
  }

  ghost predicate AllInRange(start: Port, end: Port, even: bool, odd: bool) {
    forall slot {:trigger PortOf(start, even, odd, slot)} ::
      0 <= slot < TrackLen(start, end, even, odd) ==> start <= PortOf(start, even, odd, slot) <= end
  }

  /**
   Exactly when every slot's port lies in the range. With one flag or none: an even start, as an odd one makes
   the first slot the port before it. With both flags the last slot is the port after the end, which only
   wraps round into the range if that is the whole of the port numbers.
   */
  lemma InRangeExactly(start: Port, end: Port, even: bool, odd: bool)
    requires start <= end
    ensures AllInRange(start, end, even, odd) <==>
            if even && odd then start == 0 && end == 0xffff else start % 2 == 0
  {
    if even && odd {
      assert PortOf(start, even, odd, TrackLen(start, end, even, odd) - 1) == (end + 1) % 0x1_0000;
    } else if start % 2 != 0 {
      assert PortOf(start, even, odd, 0) == start - 1;
    } else {
      forall slot: nat | slot < TrackLen(start, end, even, odd)
        ensures start <= PortOf(start, even, odd, slot) <= end
      {
        PairedSlot(start, even, odd, slot);
        assert start <= start + 2 * slot <= end;
      }
    }
  }

  lemma PairedSlot(start: Port, even: bool, odd: bool, slot: nat)
    requires start % 2 == 0 && !(even && odd) && start + 2 * slot < 0x1_0000
    ensures PortOf(start, even, odd, slot) == start + 2 * slot
  {
    assert slot + start / 2 < 0x1_0000;
  }

  /** Unless both flags are set every port is even, and so it is with SPF_ODD alone. */
  lemma EvenUnlessBoth(start: Port, even: bool, odd: bool, slot: nat)
    requires !(even && odd)
    ensures PortOf(start, even, odd, slot) % 2 == 0
  {
  }

  /** The even port of a pair. */
  function Lower(port: Port): Port {
    port - port % 2
  }

  /** A free of each slot's port looks at that slot. */
  ghost predicate FreesFind(start: Port, end: Port, even: bool, odd: bool) {
    forall slot {:trigger PortOf(start, even, odd, slot)} ::
      0 <= slot < TrackLen(start, end, even, odd) ==>
        PortOf(start, even, odd, slot) >= start && SlotOf(start, even, odd, PortOf(start, even, odd, slot)) == slot
  }

  /** Frees find their slots exactly with an even start, or with both flags when no port wraps. */
  lemma FreesFindExactly(start: Port, end: Port, even: bool, odd: bool)
    requires start <= end
    ensures FreesFind(start, end, even, odd) <==> if even && odd then end < 0xffff else start % 2 == 0
  {
    if even && odd {
      assert PortOf(start, even, odd, TrackLen(start, end, even, odd) - 1) == (end + 1) % 0x1_0000;
    } else if start % 2 != 0 {
      assert PortOf(start, even, odd, 0) == start - 1;
    } else {
      EvenStartFinds(start, end, even, odd);
    }
  }

  lemma EvenStartFinds(start: Port, end: Port, even: bool, odd: bool)
    requires start <= end && start % 2 == 0 && !(even && odd)
    ensures FreesFind(start, end, even, odd)
  {
    forall slot: nat | slot < TrackLen(start, end, even, odd)
      ensures PortOf(start, even, odd, slot) >= start
      ensures SlotOf(start, even, odd, PortOf(start, even, odd, slot)) == slot
    {
      PairedSlot(start, even, odd, slot);
      assert (start + 2 * slot - start) / 2 == slot;
    }
  }

  /** With an odd start, as SPF_ODD has it, a free looks at the slot below, or finds the port below the range. */
  lemma OddFreesLookBelow(start: Port, slot: nat)
    requires start % 2 == 1 && start + 2 * slot < 0x1_0000
    ensures var port := PortOf(start, false, true, slot);
            port == start - 1 + 2 * slot && if slot == 0 then port < start else SlotOf(start, false, true, port) == slot - 1
  {
    assert slot + start / 2 < 0x1_0000;
  }

  /** An SPF_EVEN range as the constructor leaves it. */
  ghost predicate EvenRange(start: Port, end: Port) {
    start % 2 == 0 && end % 2 == 0 && start <= end + 2
  }

  lemma RoundingGivesEvenRange(start: Port, end: Port)
    requires start <= end
    ensures EvenRange(RoundedStart(start, true, false), RoundedEnd(end, true, false))
  {
  }

  /** In an even range the slots are the even ports of the range, and a free finds the slot again. */
  lemma EvenSlot(start: Port, end: Port, slot: nat)
    requires EvenRange(start, end) && slot < TrackLen(start, end, true, false)
    ensures PortOf(start, true, false, slot) == start + 2 * slot <= end
    ensures PortOf(start, true, false, slot) % 2 == 0 && start <= PortOf(start, true, false, slot)
    ensures SlotOf(start, true, false, PortOf(start, true, false, slot)) == slot
  {
    PairedSlot(start, true, false, slot);
  }

  /** The slots of an SPF_EVEN allocator are within the range asked for exactly when its start does not wrap to 0. */
  lemma OwnRangeExactly(start: Port, end: Port)
    requires start <= end
    ensures var s, e := RoundedStart(start, true, false), RoundedEnd(end, true, false);
            (forall slot {:trigger PortOf(s, true, false, slot)} ::
               0 <= slot < TrackLen(s, e, true, false) ==> start <= PortOf(s, true, false, slot) <= end)
            <==> start < 0xffff
  {
    var s, e := RoundedStart(start, true, false), RoundedEnd(end, true, false);
    RoundedInwards(start, end, true, false);
    if start == 0xffff {
      EvenSlot(s, e, 0);
    } else {
      forall slot: nat | slot < TrackLen(s, e, true, false) ensures start <= PortOf(s, true, false, slot) <= end {
        EvenSlot(s, e, slot);
      }
    }
  }

  /** Every even port of the range has its slot; the odd port above it leads a free to the same slot. */
  lemma EvenPort(start: Port, end: Port, port: Port)
    requires EvenRange(start, end) && start <= port <= end && port % 2 == 0
    ensures SlotOf(start, true, false, port) < TrackLen(start, end, true, false)
    ensures PortOf(start, true, false, SlotOf(start, true, false, port)) == port
    ensures port + 1 < 0x1_0000 ==> SlotOf(start, true, false, port + 1) == SlotOf(start, true, false, port)
  {
    PairedSlot(start, true, false, SlotOf(start, true, false, port));
  }

  /** The ports of the slots at 1. */
  ghost function Held(start: Port, even: bool, odd: bool, t: seq<int>): set<Port> {
    set i | 0 <= i < |t| && t[i] == 1 :: PortOf(start, even, odd, i)
  }

  lemma HeldLast(start: Port, end: Port, t: seq<int>)
    requires EvenRange(start, end) && 0 < |t| <= TrackLen(start, end, true, false)
    ensures var n := |t| - 1;
            var h := Held(start, true, false, t[..n]);
            && PortOf(start, true, false, n) !in h
            && Held(start, true, false, t) == if t[n] == 1 then h + {PortOf(start, true, false, n)} else h
  {
    var n := |t| - 1;
    EvenSlot(start, end, n);
    forall i: nat | i < n ensures PortOf(start, true, false, i) != PortOf(start, true, false, n) {
      EvenSlot(start, end, i);
    }
  }

  /** In an even range as many ports are held as slots are at 1, so no port is held twice. */
  lemma {:induction false} HeldCount(start: Port, end: Port, t: seq<int>)
    requires EvenRange(start, end) && |t| <= TrackLen(start, end, true, false)
    ensures |Held(start, true, false, t)| == Used(t)
    decreases |t|
  {
    if t != [] {
      HeldCount(start, end, t[..|t| - 1]);
      HeldLast(start, end, t);
    }
  }

  /** Turning a free slot to 1 holds one more port, which was not held. */
  lemma HeldAfterIssue(start: Port, end: Port, t: seq<int>, u: seq<int>, slot: nat)
    requires EvenRange(start, end) && |t| == |u| <= TrackLen(start, end, true, false)
    requires slot < |t| && t[slot] != 1 && u[slot] == 1
    requires forall i :: 0 <= i < |t| && i != slot ==> (t[i] == 1 <==> u[i] == 1)
    ensures PortOf(start, true, false, slot) !in Held(start, true, false, t)
    ensures Held(start, true, false, u) == Held(start, true, false, t) + {PortOf(start, true, false, slot)}
  {
    EvenSlot(start, end, slot);
    forall i: nat | i < |t| ensures i != slot ==> PortOf(start, true, false, i) != PortOf(start, true, false, slot) {
      EvenSlot(start, end, i);
    }
  }

  /** Clearing a slot takes its port, and only that one, out of the held ports. */
  lemma HeldAfterFree(start: Port, end: Port, t: seq<int>, slot: nat)
    requires EvenRange(start, end) && slot < |t| <= TrackLen(start, end, true, false)
    ensures t[slot] == 1 <==> PortOf(start, true, false, slot) in Held(start, true, false, t)
    ensures Held(start, true, false, t[slot := -4]) == Held(start, true, false, t) - {PortOf(start, true, false, slot)}
  {
    forall i: nat | i < |t| && i != slot ensures PortOf(start, true, false, i) != PortOf(start, true, false, slot) {
      EvenSlot(start, end, i);
      EvenSlot(start, end, slot);
    }
  }

  class PortAllocator {
    const start: Port
    const end: Port
    const even: bool
    const odd: bool
    const trackLen: nat
    const track: array<int>
    var trackUsed: nat
    ghost var log: seq<Event>

    ghost predicate Valid()
      reads this, track
    {
      && track.Length == trackLen + 2
      && trackLen == TrackLen(start, end, even, odd)
      && InStates(track[..trackLen])
      && trackUsed == Used(track[..trackLen])
      && track[trackLen] == track[trackLen + 1] == 0
      && LegalRun(trackLen, log) && Replay(trackLen, log) == track[..trackLen]
    }

    ghost predicate EvenMode() {
      even && !odd && EvenRange(start, end)
    }

    ghost function Slots(): seq<int>
      reads this, track
      requires Valid()
    {
      track[..trackLen]
    }

    ghost function HeldPorts(): set<Port>
      reads this, track
      requires Valid()
    {
      Held(start, even, odd, track[..trackLen])
    }

    constructor (start: Port, end: Port, even: bool, odd: bool)
      ensures Valid() && fresh(track) && log == [] && trackUsed == 0
      ensures this.start == RoundedStart(start, even, odd) && this.end == RoundedEnd(end, even, odd)
      ensures start < 0xffff ==> start <= this.start <= start + 1
      ensures end > 0 ==> end - 1 <= this.end <= end
      ensures even && !odd ==> this.start % 2 == this.end % 2 == 0
      ensures odd && !even ==> this.start % 2 == this.end % 2 == 1
      ensures even == odd ==> this.start == start && this.end == end
      ensures this.even == even && this.odd == odd
      ensures even && !odd && start <= end ==> EvenMode()
    {
      RoundedInwards(start, end, even, odd);
      var s, e := RoundedStart(start, even, odd), RoundedEnd(end, even, odd);
      var len := TrackLen(s, e, even, odd);
      this.start, this.end, this.even, this.odd := s, e, even, odd;
      trackLen, track, trackUsed, log := len, new int[len + 2](_ => 0), 0, [];
      new;
      if even && !odd && start <= end {
        RoundingGivesEvenRange(start, end);
      }
      assert track[..trackLen] == Replay(trackLen, []);
      NoneUsed(track[..trackLen]);
    }

    lemma {:induction false} NoneUsed(t: seq<int>)
      requires forall i :: 0 <= i < |t| ==> t[i] == 0
      ensures Used(t) == 0
    {
      if t != [] {
        NoneUsed(t[..|t| - 1]);
      }
    }

    /** One event: the slot's new state, and the same in the log. */
    method Mark(i: nat, v: int, used: nat, ghost e: Event)
      requires Valid() && i < trackLen && e.slot == i && Legal(Slots(), e) && v == Next(Slots(), e)[i]
      requires used == trackUsed - (if track[i] == 1 then 1 else 0) + (if v == 1 then 1 else 0)
      modifies this`trackUsed, this`log, track
      ensures Valid() && Slots() == old(Slots())[i := v] && log == old(log) + [e] && trackUsed == used
    {
      Extended(trackLen, log, e);
      UsedUpdate(track[..trackLen], i, v);
      track[i] := v;
      trackUsed := used;
      log := log + [e];
      assert track[..trackLen] == old(track[..trackLen])[i := v];
    }

    method StepOver(ghost first: nat, ghost tries: nat, index: nat, ghost was: seq<int>)
      requires Valid() && first < trackLen && tries < trackLen && index == Around(first, tries, trackLen)
      requires track[index] != 0 && Walked(was, Slots(), first, tries)
      modifies this`trackUsed, this`log, track
      ensures Valid() && trackUsed == old(trackUsed)
      ensures Walked(was, Slots(), first, tries + 1)
      ensures log == old(log) + [Stepped(index)]
    {
      WalkOn(was, Slots(), first, tries);
      Mark(index, if track[index] < 0 then track[index] + 1 else track[index], trackUsed, Stepped(index));
    }

    /** Walks up from a random slot until one is free, aging the freed ones on the way. */
    method Probe(first: nat) returns (index: nat, tries: nat)
      requires Valid() && first < trackLen
      modifies this`trackUsed, this`log, track
      ensures Valid() && index < trackLen && trackUsed == old(trackUsed)
      ensures Walked(old(Slots()), Slots(), first, tries)
      ensures tries < trackLen ==> Slots()[index] == 0
      ensures OnlySteps(old(log), log)
    {
      index, tries := first, 0;
      while track[index] != 0 && tries < trackLen
        invariant Valid() && trackUsed == old(trackUsed)
        invariant Walked(old(Slots()), Slots(), first, tries) && index == Around(first, tries, trackLen)
        invariant OnlySteps(old(log), log)
        decreases trackLen - tries
      {
        StepOver(first, tries, index, old(Slots()));
        tries := tries + 1;
        index := if index + 1 >= trackLen then 0 else index + 1;
      }
    }

    /** The port of the slot just issued, and what issuing it did to the held ports. */
    method Assigned(ghost was: seq<int>, slot: nat) returns (port: Port)
      requires Valid() && IssuedOne(was, Slots(), slot)
      ensures port == PortOf(start, even, odd, slot) && (!(even && odd) ==> port % 2 == 0)
      ensures EvenMode() ==>
                && port % 2 == 0 && start <= port <= end && port !in Held(start, even, odd, was)
                && HeldPorts() == Held(start, even, odd, was) + {port}
    {
      port := PortOf(start, even, odd, slot);
      if !(even && odd) {
        EvenUnlessBoth(start, even, odd, slot);
      }
      if EvenMode() {
        EvenSlot(start, end, slot);
        HeldAfterIssue(start, end, was, Slots(), slot);
      }
    }

    /** One outer pass: issues the slot the walk stops at, or leaves every unused slot one step cooler. */
    method Pass(first: nat, ghost was: seq<int>, ghost p: nat) returns (found: bool, index: nat)
      requires Valid() && first < trackLen && trackUsed < trackLen
      requires InStates(was) && Used(was) < trackLen && CooledBy(was, Slots(), p)
      modifies this`trackUsed, this`log, track
      ensures Valid()
      ensures found ==> IssuedOne(was, Slots(), index) && trackUsed == old(trackUsed) + 1
                        && log != [] && log[|log| - 1] == Issued(index) && OnlySteps(old(log), log[..|log| - 1])
      ensures !found ==> CooledBy(was, Slots(), p + 1) && p < 4 && OnlySteps(old(log), log) && trackUsed == old(trackUsed)
      // each failed pass visits every slot and brings the total of the cool-down counts down
      ensures !found ==> FailedPass(old(Slots()), Slots())
                         && Cooling(Slots()) == old(Cooling(Slots())) - (trackLen - trackUsed) < old(Cooling(Slots()))
    {
      ghost var before := Slots();
      var tries;
      index, tries := Probe(first);
      found := tries < trackLen;
      if found {
        IssueAfterPasses(was, before, Slots(), p, first, tries, index);
        Mark(index, 1, trackUsed + 1, Issued(index));
      } else {
        WalkedAllRound(before, Slots(), first);
        OnePassMore(was, before, Slots(), p);
        FailedPassCools(before, Slots());
      }
    }

    /** The outer loop: passes from random starting points until one of them issues a slot. */
    method Probing() returns (found: bool, slot: nat, ghost passes: nat)
      requires Valid()
      modifies this`trackUsed, this`log, track
      ensures Valid() && passes <= 5 && (found <==> old(trackUsed) < trackLen)
      ensures found ==> IssuedOne(old(Slots()), Slots(), slot) && trackUsed == old(trackUsed) + 1
                        && log != [] && log[|log| - 1] == Issued(slot) && OnlySteps(old(log), log[..|log| - 1])
      ensures !found ==> Slots() == old(Slots()) && log == old(log) && trackUsed == old(trackUsed)
    {
      ghost var was := Slots();
      found, slot, passes := false, 0, 0;
      while trackUsed < trackLen
        invariant Valid() && trackUsed == old(trackUsed) && OnlySteps(old(log), log)
        invariant CooledBy(was, Slots(), passes) && passes <= 4
        invariant passes == 0 ==> Slots() == was && log == old(log)
        invariant old(trackUsed) >= trackLen ==> passes == 0
        decreases 4 - passes
      {
        var first: nat :| first < trackLen;
        found, slot := Pass(first, was, passes);
        passes := passes + 1;
        if found {
          return;
        }
      }
    }

    /**
     Issues a port exactly when some slot is not in use, after at most five passes whatever the random
     starting points. The robustness checks are off.
     */
    method RequestPort() returns (status: Status, port: Port, ghost slot: nat, ghost passes: nat)
      requires Valid()
      modifies this`trackUsed, this`log, track
      ensures Valid() && passes <= 5
      ensures status == if old(trackUsed) < trackLen then Success else False
      ensures status == Success ==>
                && IssuedOne(old(Slots()), Slots(), slot) && trackUsed == old(trackUsed) + 1
                && port == PortOf(start, even, odd, slot) && (!(even && odd) ==> port % 2 == 0)
                && log != [] && log[|log| - 1] == Issued(slot) && OnlySteps(old(log), log[..|log| - 1])
      ensures status != Success ==> port == 0 && Slots() == old(Slots()) && log == old(log) && trackUsed == old(trackUsed)
      ensures status == Success && EvenMode() ==>
                && port % 2 == 0 && start <= port <= end && port !in old(HeldPorts())
                && HeldPorts() == old(HeldPorts()) + {port}
    {
      ghost var was := Slots();
      var found, index;
      found, index, passes := Probing();
      slot := index;
      if found {
        port := Assigned(was, index);
        status := Success;
      } else {
        port, status := 0, False;
      }
    }

    /** A free reaches the even port at or below the one given; above the range there is none. */
    lemma FreedPort(was: seq<int>, port: Port, slot: nat)
      requires EvenMode() && |was| == TrackLen(start, end, true, false)
      requires port >= start && slot == SlotOf(start, true, false, port)
      ensures slot < |was| ==>
                && (was[slot] == 1 <==> Lower(port) in Held(start, even, odd, was))
                && Held(start, even, odd, was[slot := -4]) == Held(start, even, odd, was) - {Lower(port)}
      ensures slot >= |was| ==> Lower(port) !in Held(start, even, odd, was)
      ensures slot < |was| && was[slot] != 1 ==> Lower(port) !in Held(start, even, odd, was)
    {
      if slot < |was| {
        EvenSlot(start, end, slot);
        assert PortOf(start, even, odd, slot) == Lower(port);
        HeldAfterFree(start, end, was, slot);
      } else {
        forall i: nat | i < |was| ensures PortOf(start, even, odd, i) != Lower(port) {
          EvenSlot(start, end, i);
        }
      }
    }

    /** The only check on the port is its lower bound; above that the slot must lie in the track array. */
    method FreePort(port: Port) returns (status: Status, ghost slot: nat)
      requires Valid() && (port >= start ==> SlotOf(start, even, odd, port) < track.Length)
      modifies this`trackUsed, this`log, track
      ensures Valid()
      ensures status == GenErr <==> port < start
      ensures status == Success <==> port >= start && slot < trackLen && old(Slots())[slot] == 1
      ensures port >= start ==> slot == SlotOf(start, even, odd, port)
      ensures status == Success ==> Slots() == old(Slots())[slot := -4] && log == old(log) + [Freed(slot)]
                                    && trackUsed == old(trackUsed) - 1
      ensures status != Success ==> Slots() == old(Slots()) && log == old(log) && trackUsed == old(trackUsed)
      ensures EvenMode() && port >= start ==>
                && (status == Success <==> Lower(port) in old(HeldPorts()))
                && HeldPorts() == old(HeldPorts()) - {Lower(port)}
    {
      slot := 0;
      if port < start {
        return GenErr, slot;
      }
      var index := SlotOf(start, even, odd, port);
      slot := index;
      status := False;
      ghost var was := Slots();
      if track[index] > 0 {
        UsedUpdate(was, index, -4);
        Mark(index, -4, trackUsed - 1, Freed(index));
        status := Success;
      }
      if EvenMode() {
        FreedPort(was, port, slot);
      }
    }

    /** A port freed twice in a row: the second free finds nothing and changes nothing. */
    method FreeTwice(port: Port) returns (first: Status, second: Status)
      requires Valid() && EvenMode() && start <= port <= end && port % 2 == 0
      modifies this`trackUsed, this`log, track
      ensures Valid() && (first == Success <==> port in old(HeldPorts()))
      ensures second == False && HeldPorts() == old(HeldPorts()) - {port}
    {
      EvenPort(start, end, port);
      ghost var slot;
      first, slot := FreePort(port);
      second, slot := FreePort(port);
    }
  }

  /** SPF_ODD: the only port in use cannot be freed. */
  method OddNeverFreed() returns (a: PortAllocator, port: Port, status: Status)
    ensures fresh(a) && a.Valid() && a.odd && !a.even
    ensures port in a.HeldPorts() && status != Success && a.trackUsed == 1
  {
    a := new PortAllocator(1025, 2047, false, true);
    ghost var slot, passes, freed;
    status, port, slot, passes := a.RequestPort();
    assert a.start == 1025 && a.trackLen == 512;
    OddFreesLookBelow(a.start, slot);
    assert a.Slots()[slot] == 1;
    status, freed := a.FreePort(port);
  }
}
