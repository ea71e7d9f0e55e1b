/** The shared records of devices: which legs are off-hook, who refers to a record, and who ends it. */
module DeviceRecords {
  datatype CallState = Down | Dialing | Ringing | Early | Active | Held | RingWait | HungUp | Unheld

  datatype Stats = Stats(total: nat, offhook: nat, held: nat, unheld: nat, early: nat, ringing: nat,
                         ringWait: nat, active: nat, hup: nat)

  /** A leg of a device. Its hup flag is set once the leg's profile has been kept for the record. */
  datatype Node = Node(callstate: CallState, hup: bool)

  /** A channel's pointer to its leg, which lives in the memory of a record. */
  datatype NodeRef = NoNode | At(parent: Record, slot: nat)

  function OffHook(nodes: seq<Node>): nat {
    if nodes == [] then 0 else OffHook(nodes[..|nodes| - 1]) + if nodes[|nodes| - 1].hup then 0 else 1
  }

  /** The off-hook legs in one call state. */
  function InState(nodes: seq<Node>, s: CallState): nat {
    if nodes == [] then 0
    else
      var last := nodes[|nodes| - 1];
      InState(nodes[..|nodes| - 1], s) + One(last, s)
  }

  function One(n: Node, s: CallState): nat {
    if n.callstate == s && !n.hup then 1 else 0
  }

  lemma OneState(n: Node)
    ensures One(n, Down) + One(n, Dialing) + One(n, Ringing) + One(n, Early) + One(n, Active) + One(n, Held)
            + One(n, RingWait) + One(n, HungUp) + One(n, Unheld) == if n.hup then 0 else 1
  {
  }

  /** Every off-hook leg is in exactly one call state. */
  lemma {:induction false} OffHookByState(nodes: seq<Node>)
    ensures OffHook(nodes) ==
              InState(nodes, Down) + InState(nodes, Dialing) + InState(nodes, Ringing) + InState(nodes, Early)
              + InState(nodes, Active) + InState(nodes, Held) + InState(nodes, RingWait) + InState(nodes, HungUp)
              + InState(nodes, Unheld)
    ensures OffHook(nodes) <= |nodes|
  {
    if nodes != [] {
      OffHookByState(nodes[..|nodes| - 1]);
      OneState(nodes[|nodes| - 1]);
    }
  }

  lemma {:induction false} HangUpOne(nodes: seq<Node>, k: nat)
    requires k < |nodes| && !nodes[k].hup
    ensures OffHook(nodes[k := nodes[k].(hup := true)]) == OffHook(nodes) - 1
  {
    var n := |nodes| - 1;
    var after := nodes[k := nodes[k].(hup := true)];
    if k < n {
      assert after[..n] == nodes[..n][k := nodes[k].(hup := true)];
      HangUpOne(nodes[..n], k);
    } else {
      assert after[..n] == nodes[..n];
    }
  }

  lemma {:induction false} RestateOne(nodes: seq<Node>, k: nat, s: CallState)
    requires k < |nodes|
    ensures OffHook(nodes[k := nodes[k].(callstate := s)]) == OffHook(nodes)
  {
    var n := |nodes| - 1;
    var after := nodes[k := nodes[k].(callstate := s)];
    if k < n {
      assert after[..n] == nodes[..n][k := nodes[k].(callstate := s)];
      RestateOne(nodes[..n], k, s);
    } else {
      assert after[..n] == nodes[..n];
    }
  }

  lemma {:induction false} NobodyOffHook(nodes: seq<Node>)
    ensures OffHook(nodes) == 0 <==> forall k :: 0 <= k < |nodes| ==> nodes[k].hup
  {
    if nodes != [] {
      NobodyOffHook(nodes[..|nodes| - 1]);
      assert OffHook(nodes) == 0 ==> forall k :: 0 <= k < |nodes| - 1 ==> nodes[..|nodes| - 1][k].hup == nodes[k].hup;
    }
  }

  class Record {
    const deviceId: string
    /** All legs ever added, oldest first. */
    var nodes: seq<Node>
    var refs: int
    var destroyed: bool
    ghost var owners: seq<Channel>
    /** The channel of the leg that finished the record. */
    ghost var finisher: Channel?

    constructor (deviceId: string)
      ensures this.deviceId == deviceId && nodes == [] && refs == 0 && !destroyed
      ensures owners == [] && finisher == null
    {
      this.deviceId, nodes, refs, destroyed, owners, finisher := deviceId, [], 0, false, [], null;
    }
  }

  class Channel {
    var callstate: CallState
    var deviceNode: NodeRef
    /** CF_FINAL_DEVICE_LEG */
    var finalLeg: bool

    constructor ()
      ensures deviceNode == NoNode && !finalLeg
    {
      callstate, deviceNode, finalLeg := Down, NoNode, false;
    }
  }

  /** The counts of a leg list. A leg that is dialing counts as active, one that is hung up as hup. */
  ghost predicate Counted(s: Stats, nodes: seq<Node>) {
    && s.total == |nodes| && s.offhook == OffHook(nodes)
    && s.held == InState(nodes, Held) && s.unheld == InState(nodes, Unheld)
    && s.early == InState(nodes, Early) && s.ringing == InState(nodes, Ringing) && s.ringWait == InState(nodes, RingWait)
    && s.active == InState(nodes, Active) + InState(nodes, Dialing)
    && s.hup == InState(nodes, HungUp) + (|nodes| - OffHook(nodes))
  }

  /** Every leg falls under one of the counts, unless it is off-hook and down. */
  lemma CountsAddUp(s: Stats, nodes: seq<Node>)
    requires Counted(s, nodes)
    ensures s.held + s.unheld + s.early + s.ringing + s.ringWait + s.active + s.hup == s.total - InState(nodes, Down)
  {
    OffHookByState(nodes);
  }

  /** One leg more. */
  method CountLeg(s0: Stats, np: Node, ghost nodes: seq<Node>) returns (s: Stats)
    requires Counted(s0, nodes)
    ensures Counted(s, nodes + [np])
  {
    assert (nodes + [np])[..|nodes|] == nodes;
    s := s0.(total := s0.total + 1);
    if np.hup {
      s := s.(hup := s.hup + 1);
      return;
    }
    s := s.(offhook := s.offhook + 1);
    match np.callstate {
      case Held => s := s.(held := s.held + 1);
      case Unheld => s := s.(unheld := s.unheld + 1);
      case Early => s := s.(early := s.early + 1);
      case Ringing => s := s.(ringing := s.ringing + 1);
      case RingWait => s := s.(ringWait := s.ringWait + 1);
      case HungUp => s := s.(hup := s.hup + 1);
      case Active => s := s.(active := s.active + 1);
      case Dialing => s := s.(active := s.active + 1);
      case Down =>
    }
  }

  method FetchStats(r: Record) returns (s: Stats)
    ensures Counted(s, r.nodes)
  {
    s := Stats(0, 0, 0, 0, 0, 0, 0, 0, 0);
    for i := 0 to |r.nodes|
      invariant Counted(s, r.nodes[..i])
    {
      s := CountLeg(s, r.nodes[i], r.nodes[..i]);
      assert r.nodes[..i + 1] == r.nodes[..i] + [r.nodes[i]];
    }
    assert r.nodes[..|r.nodes|] == r.nodes;
  }

  method NobodyLeft(r: Record) returns (last: bool)
    ensures last <==> OffHook(r.nodes) == 0
  {
    var stats := FetchStats(r);
    last := stats.offhook == 0;
  }

  method AddUuid(r: Record, c: Channel)
    modifies r`nodes, r`refs, r`owners, c`deviceNode
    ensures c.deviceNode == At(r, |old(r.nodes)|)
    ensures r.nodes == old(r.nodes) + [Node(c.callstate, false)] && OffHook(r.nodes) == OffHook(old(r.nodes)) + 1
    ensures r.refs == old(r.refs) + 1 && r.owners == old(r.owners) + [c]
  {
    c.deviceNode := At(r, |r.nodes|);
    r.nodes := r.nodes + [Node(c.callstate, false)];
    r.refs := r.refs + 1;
    r.owners := r.owners + [c];
    assert r.nodes[..|r.nodes| - 1] == old(r.nodes);
  }

  method HangUp(r: Record, k: nat)
    requires k < |r.nodes| && !r.nodes[k].hup
    modifies r`nodes
    ensures r.nodes == old(r.nodes)[k := old(r.nodes)[k].(hup := true)]
    ensures OffHook(r.nodes) == OffHook(old(r.nodes)) - 1
  {
    HangUpOne(r.nodes, k);
    r.nodes := r.nodes[k := r.nodes[k].(hup := true)];
  }

  method Restate(c: Channel, r: Record, k: nat, callstate: CallState)
    requires k < |r.nodes|
    modifies r`nodes, c`callstate
    ensures c.callstate == callstate
    ensures r.nodes == old(r.nodes)[k := old(r.nodes)[k].(callstate := callstate)]
    ensures OffHook(r.nodes) == OffHook(old(r.nodes))
  {
    RestateOne(r.nodes, k, callstate);
    c.callstate := callstate;
    r.nodes := r.nodes[k := r.nodes[k].(callstate := callstate)];
  }

  /** Sleeps a tenth of a second at a time, at most 99 times, while somebody refers to the record. */
  method AwaitReferrers(r: Record) returns (waits: nat)
    ensures waits == if r.refs == 0 then 0 else 99
  {
    waits := 0;
    var sanity := 99;
    while sanity != 0 && r.refs != 0
      invariant waits == 99 - sanity && sanity >= 0 && (r.refs == 0 ==> waits == 0)
      decreases sanity
    {
      sanity := sanity - 1;
      waits := waits + 1;
    }
  }

  class Registry {
    var deviceHash: map<string, Record>
    ghost var records: set<Record>
    ghost var channels: set<Channel>

    ghost predicate RecordOk(r: Record)
      reads this, r
    {
      && |r.owners| == |r.nodes| > 0 && r.refs == OffHook(r.nodes)
      && (r.refs > 0 ==> r.deviceId in deviceHash && deviceHash[r.deviceId] == r && r.finisher == null && !r.destroyed)
      && (r.refs == 0 ==> r.finisher != null && r.finisher in channels)
    }

    ghost predicate Valid()
      reads this, records, channels
    {
      ValidBut(null, null)
    }

    /** Valid, but for one record that is being changed and one channel whose leg was just hung up. */
    ghost predicate ValidBut(made: Record?, hung: Channel?)
      reads this, records, channels
    {
      && (forall id :: id in deviceHash ==>
            && deviceHash[id] in records && deviceHash[id].deviceId == id
            && (deviceHash[id] == made || deviceHash[id].refs > 0))
      && (forall r :: r in records && r != made ==> RecordOk(r))
      && (forall c {:trigger c in channels} :: c in channels && c != hung && c.deviceNode.At? ==>
            && c.deviceNode.parent in records && c.deviceNode.slot < |c.deviceNode.parent.nodes|
            && c.deviceNode.slot < |c.deviceNode.parent.owners| && c.deviceNode.parent.owners[c.deviceNode.slot] == c
            && (c.finalLeg <==> c.deviceNode.parent.nodes[c.deviceNode.slot].hup)
            && c.deviceNode.parent.nodes[c.deviceNode.slot].callstate == c.callstate
            && (c.finalLeg ==> c.deviceNode.parent.finisher == c))
      && (forall c {:trigger c in channels} :: c in channels && c != hung && c.finalLeg ==> c.deviceNode.At?)
      && (forall r {:trigger r in records} :: r in records && r.finisher != null ==>
            && r.finisher in channels && r.finisher.finalLeg
            && r.finisher.deviceNode.At? && r.finisher.deviceNode.parent == r)
    }

    constructor ()
      ensures Valid() && records == {} && channels == {} && deviceHash == map[]
    {
      deviceHash, records, channels := map[], {}, {};
    }

    method NewChannel() returns (c: Channel)
      requires Valid()
      modifies this`channels
      ensures Valid() && fresh(c) && channels == old(channels) + {c} && c.deviceNode == NoNode
    {
      c := new Channel();
      channels := channels + {c};
    }

    /** A finished record has exactly one final leg, and only that leg's channel still points into it. */
    lemma OneFinalLeg(r: Record, c: Channel)
      requires Valid() && r in records && c in channels
      requires OffHook(r.nodes) == 0
      ensures r.refs == 0 && r !in deviceHash.Values
      ensures r.finisher != null && r.finisher in channels && r.finisher.finalLeg
      ensures c.deviceNode.At? && c.deviceNode.parent == r <==> c == r.finisher
    {
      NobodyOffHook(r.nodes);
      assert RecordOk(r);
    }

    /** Until then it has none, the next caller of its device finds it, and its memory is still there. */
    lemma NoFinalLegYet(r: Record, c: Channel)
      requires Valid() && r in records && c in channels
      requires OffHook(r.nodes) > 0
      ensures r.refs == OffHook(r.nodes) && !r.destroyed
      ensures r.deviceId in deviceHash && deviceHash[r.deviceId] == r
      ensures c.deviceNode.At? && c.deviceNode.parent == r ==> !c.finalLeg
    {
      assert RecordOk(r);
    }

    /** A change of call state, which a channel that is hung up no longer takes, reaches the record too. */
    method SetCallState(c: Channel, callstate: CallState)
      requires Valid() && c in channels
      modifies c`callstate, if c.deviceNode.At? then {c.deviceNode.parent} else {}
      ensures Valid() && c.callstate == if old(c.callstate) == HungUp then HungUp else callstate
      ensures c.deviceNode.At? ==> c.deviceNode.parent.nodes[c.deviceNode.slot].callstate == c.callstate
    {
      if c.callstate == callstate || c.callstate == HungUp {
        return;
      }
      if c.deviceNode.At? {
        SetLegState(c, c.deviceNode.parent, c.deviceNode.slot, callstate);
      } else {
        c.callstate := callstate;
      }
    }

    method SetLegState(c: Channel, r: Record, k: nat, callstate: CallState)
      requires Valid() && c in channels && c.deviceNode == At(r, k)
      modifies c`callstate, r`nodes
      ensures Valid() && c.callstate == callstate
    {
      Restate(c, r, k, callstate);
    }

    method FindOrCreate(id: string) returns (r: Record)
      requires Valid()
      modifies this`deviceHash, this`records
      ensures r in records && id in deviceHash && deviceHash[id] == r && deviceHash == old(deviceHash)[id := r]
      ensures id !in old(deviceHash) ==> fresh(r) && r.nodes == [] && r.owners == [] && r.refs == 0
      ensures id in old(deviceHash) ==> RecordOk(r) && r == old(deviceHash[id])
      ensures r.finisher == null && !r.destroyed && ValidBut(r, null)
    {
      if id in deviceHash {
        r := deviceHash[id];
        assert RecordOk(r);
      } else {
        r := new Record(id);
        deviceHash := deviceHash[id := r];
        records := records + {r};
      }
    }

    method Join(r: Record, c: Channel)
      requires ValidBut(r, null) && c in channels && c.deviceNode == NoNode
      requires r in records && r.deviceId in deviceHash && deviceHash[r.deviceId] == r
      requires |r.owners| == |r.nodes| && r.refs == OffHook(r.nodes) && r.finisher == null && !r.destroyed
      modifies c`deviceNode, r`nodes, r`refs, r`owners
      ensures Valid()
      ensures c.deviceNode == At(r, |old(r.nodes)|) && r.nodes == old(r.nodes) + [Node(c.callstate, false)]
    {
      AddUuid(r, c);
    }

    /** Joins the record of the device, which is created if no leg of the device is off-hook. */
    method SetDeviceId(c: Channel, id: string) returns (ok: bool)
      requires Valid() && c in channels
      modifies this`deviceHash, this`records, c`deviceNode, if id in deviceHash then {deviceHash[id]} else {}
      ensures Valid()
      ensures ok == (old(c.deviceNode) == NoNode)
      ensures !ok ==> deviceHash == old(deviceHash) && c.deviceNode == old(c.deviceNode)
      ensures ok ==> id in deviceHash && deviceHash == old(deviceHash)[id := deviceHash[id]]
      ensures ok ==> c.deviceNode == At(deviceHash[id], |deviceHash[id].nodes| - 1)
      ensures ok ==> if id in old(deviceHash)
                     then deviceHash[id] == old(deviceHash[id])
                          && deviceHash[id].nodes == old(deviceHash[id].nodes) + [Node(c.callstate, false)]
                     else fresh(deviceHash[id]) && deviceHash[id].nodes == [Node(c.callstate, false)]
    {
      if c.deviceNode != NoNode {
        return false;
      }
      var r := FindOrCreate(id);
      Join(r, c);
      return true;
    }

    lemma OffHookUnfinished(r: Record, k: nat)
      requires Valid() && r in records && k < |r.nodes| && !r.nodes[k].hup
      ensures r.finisher == null && OffHook(r.nodes) > 0 && r.refs > 0
    {
      NobodyOffHook(r.nodes);
      assert RecordOk(r);
    }

    method HangUpLeg(c: Channel, r: Record, k: nat)
      requires Valid() && c in channels && c.deviceNode == At(r, k) && !r.nodes[k].hup
      modifies r`nodes
      ensures ValidBut(r, c) && r in records && r.finisher == null && !r.destroyed
      ensures r.nodes == old(r.nodes)[k := old(r.nodes)[k].(hup := true)] && |r.owners| == |r.nodes|
      ensures r.refs == OffHook(r.nodes) + 1 && r.deviceId in deviceHash && deviceHash[r.deviceId] == r
    {
      OffHookUnfinished(r, k);
      HangUp(r, k);
    }

    method Unlist(c: Channel, r: Record)
      requires ValidBut(r, c) && r.deviceId in deviceHash && deviceHash[r.deviceId] == r
      modifies this`deviceHash
      ensures ValidBut(r, c) && deviceHash == old(deviceHash) - {r.deviceId}
    {
      deviceHash := deviceHash - {r.deviceId};
    }

    method FinishRecord(c: Channel, r: Record, k: nat)
      requires ValidBut(r, c) && r in records && c in channels && r.finisher == null
      requires r.deviceId in deviceHash && deviceHash[r.deviceId] == r
      requires c.deviceNode == At(r, k) && k < |r.nodes| == |r.owners| && r.owners[k] == c
      requires r.nodes[k] == Node(c.callstate, true)
      modifies this`deviceHash, c`finalLeg, r`finisher
      ensures ValidBut(r, null) && deviceHash == old(deviceHash) - {r.deviceId}
      ensures c.finalLeg && r.finisher != null
    {
      Unlist(c, r);
      MakeFinal(c, r, k);
    }

    method MakeFinal(c: Channel, r: Record, k: nat)
      requires ValidBut(r, c) && r in records && c in channels && r.finisher == null
      requires c.deviceNode == At(r, k) && k < |r.nodes| == |r.owners| && r.owners[k] == c
      requires r.nodes[k] == Node(c.callstate, true)
      modifies c`finalLeg, r`finisher
      ensures ValidBut(r, null) && c.finalLeg && r.finisher != null
    {
      c.finalLeg := true;
      r.finisher := c;
    }

    method LeaveRecord(c: Channel, r: Record)
      requires ValidBut(r, c) && c in channels && !c.finalLeg
      modifies c`deviceNode
      ensures ValidBut(r, null) && c.deviceNode == NoNode
    {
      c.deviceNode := NoNode;
    }

    method Release(r: Record)
      requires ValidBut(r, null) && r in records && r.refs == OffHook(r.nodes) + 1 && |r.owners| == |r.nodes| > 0
      requires OffHook(r.nodes) > 0 ==>
                 r.deviceId in deviceHash && deviceHash[r.deviceId] == r && r.finisher == null && !r.destroyed
      requires OffHook(r.nodes) == 0 ==>
                 (r.deviceId in deviceHash ==> deviceHash[r.deviceId] != r) && r.finisher != null
      modifies r`refs
      ensures Valid() && r.refs == old(r.refs) - 1
    {
      r.refs := r.refs - 1;
    }

    method EndLeg(c: Channel, r: Record, k: nat)
      requires Valid() && c in channels && c.deviceNode == At(r, k) && !r.nodes[k].hup
      modifies this`deviceHash, c`deviceNode, c`finalLeg, r`nodes, r`refs, r`finisher
      ensures Valid()
      ensures r.nodes == old(r.nodes)[k := old(r.nodes)[k].(hup := true)] && r.refs == old(r.refs) - 1
      ensures OffHook(r.nodes) == 0 ==>
                deviceHash == old(deviceHash) - {r.deviceId} && c.deviceNode == old(c.deviceNode) && c.finalLeg
      ensures OffHook(r.nodes) > 0 ==>
                deviceHash == old(deviceHash) && c.deviceNode == NoNode && !c.finalLeg
    {
      HangUpLeg(c, r, k);
      var last := NobodyLeft(r);
      if last {
        FinishRecord(c, r, k);
      } else {
        LeaveRecord(c, r);
      }
      Release(r);
    }

    /**
     The hangup of a leg, once per leg: only a final leg would still have its node the second time.
     The last leg of the device takes its record out of the table.
     */
    method ProcessHangup(c: Channel)
      requires Valid() && c in channels
      requires !c.finalLeg
      modifies this`deviceHash, c`deviceNode, c`finalLeg, if c.deviceNode.At? then {c.deviceNode.parent} else {}
      ensures Valid()
      ensures old(c.deviceNode) == NoNode ==> deviceHash == old(deviceHash) && c.deviceNode == NoNode && !c.finalLeg
      ensures old(c.deviceNode).At? ==>
                var At(r, k) := old(c.deviceNode);
                && r.nodes == old(r.nodes)[k := old(r.nodes)[k].(hup := true)]
                && r.refs == old(r.refs) - 1 && r.destroyed == old(r.destroyed)
                && if OffHook(r.nodes) == 0
                   then deviceHash == old(deviceHash) - {r.deviceId} && c.deviceNode == At(r, k) && c.finalLeg
                   else deviceHash == old(deviceHash) && c.deviceNode == NoNode && !c.finalLeg
    {
      if c.deviceNode == NoNode {
        return;
      }
      EndLeg(c, c.deviceNode.parent, c.deviceNode.slot);
    }

    /**
     Destroys the record of a final leg. Nobody refers to it then, so the bounded wait is never entered,
     and neither the table nor another channel is left with a pointer into it.
     */
    method ClearRecord(c: Channel) returns (waits: nat)
      requires Valid() && c in channels
      requires c.finalLeg ==> !c.deviceNode.parent.destroyed
      modifies if c.deviceNode.At? then {c.deviceNode.parent} else {}
      ensures Valid() && waits == 0
      ensures c.deviceNode.At? ==> c.deviceNode.parent.destroyed == (c.finalLeg || old(c.deviceNode.parent.destroyed))
      ensures c.finalLeg ==> c.deviceNode.parent !in deviceHash.Values
      ensures c.finalLeg ==> forall d :: d in channels && d.deviceNode.At? && d.deviceNode.parent == c.deviceNode.parent
                                         ==> d == c
    {
      if c.deviceNode == NoNode || !c.finalLeg {
        return 0;
      }
      var r := c.deviceNode.parent;
      assert RecordOk(r);
      forall d | d in channels && d.deviceNode.At? && d.deviceNode.parent == r ensures d == c {
        OneFinalLeg(r, d);
      }
      waits := AwaitReferrers(r);
      r.destroyed := true;
    }
  }
}
