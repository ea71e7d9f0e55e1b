/** The write path of a session that regroups frames of any length into packets for the encoder. */
module WritePath {
  import opened Octets
  import opened Buffer
  import opened Division
  import opened Sequences

  const BLOCK_FRAMES: nat := 25
  const START_FRAMES: nat := 50

  /** From one list of packets to a longer one, every new packet being of the given length. */
  ghost predicate OnlyPackets(l: seq<seq<byte>>, m: seq<seq<byte>>, size: nat) {
    l <= m && forall j :: |l| <= j < |m| ==> |m[j]| == size
  }

  datatype Status = Success | MemErr | EncodeError | WriteError

  /** How a round of the loop goes: its packet gets out, or the channel is down, or a step of it fails. */
  datatype Round = Out | Down | EncodeFails | WriteFails

  /** What the call returns when a round like this ends it. Of a channel that is down the caller learns nothing. */
  function StatusOf(r: Round): Status {
    match r
    case Out => Success
    case Down => Success
    case EncodeFails => EncodeError
    case WriteFails => WriteError
  }

  function RoundAt(rounds: nat -> Round, n: nat): Round {
    rounds(n)
  }

  ghost predicate OutFrom(rounds: nat -> Round, n: nat, end: nat) {
    forall i {:trigger RoundAt(rounds, i)} :: n <= i < end ==> RoundAt(rounds, i).Out?
  }

  /** How the loop ends: its last round (Out when no packet is left), the packets encoded, the next round. */
  datatype End = End(last: Round, packets: nat, round: nat)

  function LoopEnd(rounds: nat -> Round, n: nat, bytes: nat, size: nat): End
    requires size > 0
    decreases bytes
  {
    if bytes < size then End(Out, 0, n)
    else match RoundAt(rounds, n)
      case Down => End(Down, 0, n + 1)
      case Out => OneOut(LoopEnd(rounds, n + 1, bytes - size, size))
      case r => End(r, 1, n + 1)
  }

  function OneOut(later: End): End {
    later.(packets := later.packets + 1)
  }

  /** The whole packets in so many bytes. */
  function Whole(bytes: nat, size: nat): nat
    requires size > 0
  {
    if bytes < size then 0 else 1 + Whole(bytes - size, size)
  }

  lemma {:induction false} WholeIsQuotient(bytes: nat, size: nat)
    requires size > 0
    ensures Whole(bytes, size) == bytes / size
  {
    if bytes < size {
      Quotient(bytes, size, 0, bytes);
    } else {
      WholeIsQuotient(bytes - size, size);
      Quotient(bytes, size, (bytes - size) / size + 1, (bytes - size) % size);
    }
  }

  /**
   The loop ends at the first round that does not get out, or when no whole packet is left. Each round takes
   a packet, but for one that finds the channel down.
   */
  lemma {:induction false} LoopEndIs(rounds: nat -> Round, n: nat, bytes: nat, size: nat)
    requires size > 0
    ensures var end := LoopEnd(rounds, n, bytes, size);
            if end.last == Out then
              end.packets == Whole(bytes, size) && end.round == n + end.packets && OutFrom(rounds, n, end.round)
            else
              && end.round > n && OutFrom(rounds, n, end.round - 1) && RoundAt(rounds, end.round - 1) == end.last
              && end.round - n == (if end.last == Down then end.packets + 1 else end.packets) <= Whole(bytes, size)
    decreases bytes
  {
    if bytes >= size && RoundAt(rounds, n).Out? {
      LoopEndIs(rounds, n + 1, bytes - size, size);
    }
  }

  lemma AllRoundsOut(rounds: nat -> Round, n: nat, bytes: nat, size: nat)
    requires size > 0
    requires OutFrom(rounds, n, LoopEnd(rounds, n, bytes, size).round)
    ensures var packets := bytes / size; LoopEnd(rounds, n, bytes, size) == End(Out, packets, n + packets)
  {
    WholeIsQuotient(bytes, size);
    LoopEndIs(rounds, n, bytes, size);
  }

  class Session {
    const rounds: nat -> Round
    /** The rounds begun so far. */
    var round: nat
    var rawWriteBuffer: Buffer?
    /** The raw packets handed to the encoder, in order. */
    var encoded: seq<seq<byte>>

    /** The objects this session may change. */
    ghost function Footprint(): set<object?>
      reads this, rawWriteBuffer
    {
      {this, rawWriteBuffer} + if rawWriteBuffer == null then {} else {rawWriteBuffer.data}
    }

    ghost predicate Valid()
      reads this, rawWriteBuffer
    {
      rawWriteBuffer != null ==>
        && rawWriteBuffer.Valid() && rawWriteBuffer.data != null
        && rawWriteBuffer.dynamic && rawWriteBuffer.maxLen == 0
    }

    /** The bytes received and not yet part of a packet. */
    ghost function Remainder(): seq<byte>
      reads this, rawWriteBuffer, Footprint()
      requires Valid()
    {
      if rawWriteBuffer == null then [] else rawWriteBuffer.Contents()
    }

    /** All the bytes that went in, in order. */
    ghost function Stream(): seq<byte>
      reads this, rawWriteBuffer, Footprint()
      requires Valid()
    {
      Flatten(encoded) + Remainder()
    }

    constructor (rounds: nat -> Round)
      ensures Valid() && Stream() == [] && encoded == [] && rawWriteBuffer == null
      ensures this.rounds == rounds && round == 0
    {
      this.rounds, round, rawWriteBuffer, encoded := rounds, 0, null, [];
    }

    method EngageBuffer(bytesPerPacket: nat)
      requires Valid() && bytesPerPacket > 0
      modifies this`rawWriteBuffer
      ensures Valid() && rawWriteBuffer != null && Remainder() == old(Remainder())
      ensures if old(rawWriteBuffer) == null
              then && fresh(rawWriteBuffer) && fresh(rawWriteBuffer.data)
                   && rawWriteBuffer.datalen == 50 * bytesPerPacket && rawWriteBuffer.blocksize == 25 * bytesPerPacket
              else rawWriteBuffer == old(rawWriteBuffer)
    {
      if rawWriteBuffer == null {
        rawWriteBuffer := new Buffer.Dynamic(bytesPerPacket * BLOCK_FRAMES, bytesPerPacket * START_FRAMES, 0);
      }
    }

    /** One round of the loop: the oldest packet's worth of bytes goes to the encoder. */
    method EncodeOne(bytesPerPacket: nat) returns (packet: seq<byte>)
      requires Valid() && rawWriteBuffer != null && 0 < bytesPerPacket <= rawWriteBuffer.used
      modifies this`encoded, rawWriteBuffer`head, rawWriteBuffer`used
      ensures Valid() && Stream() == old(Stream())
      ensures encoded == old(encoded) + [packet] && |packet| == bytesPerPacket
      ensures rawWriteBuffer.used == old(rawWriteBuffer.used) - bytesPerPacket
    {
      ghost var before := rawWriteBuffer.Contents();
      packet := rawWriteBuffer.Read(bytesPerPacket);
      FlattenSnoc(encoded, packet);
      assert Flatten(encoded) + before == (Flatten(encoded) + packet) + rawWriteBuffer.Contents();
      encoded := encoded + [packet];
    }

    /**
     Takes a frame on the buffered branch. If no round stops the loop, all whole packets go to the encoder and
     less than one stays; success comes with more left only when the channel is down.
     */
    method WriteFrame(frame: seq<byte>, bytesPerPacket: nat) returns (status: Status)
      requires Valid() && bytesPerPacket > 0
      modifies Footprint()
      ensures Valid() && fresh(Footprint() - old(Footprint()))
      ensures Stream() == old(Stream()) + frame
      ensures OnlyPackets(old(encoded), encoded, bytesPerPacket)
      ensures var total := |old(Remainder())| + |frame|;
              var end := LoopEnd(rounds, old(round), total, bytesPerPacket);
              && status == (if total == 0 then MemErr else
                              match end.last
                              case Out => Success
                              case Down => Success
                              case EncodeFails => EncodeError
                              case WriteFails => WriteError)
              && |encoded| == |old(encoded)| + end.packets && round == end.round
              && (|Remainder()| < bytesPerPacket <== end.last == Out)
              && (|Remainder()| >= bytesPerPacket && status == Success <==> end.last == Down)
    {
      EngageBuffer(bytesPerPacket);
      status := BufferFrame(frame, bytesPerPacket);
      assert |Remainder()| == rawWriteBuffer.used;
    }

    method BufferFrame(frame: seq<byte>, bytesPerPacket: nat) returns (status: Status)
      requires Valid() && rawWriteBuffer != null && bytesPerPacket > 0
      modifies this`encoded, this`round, rawWriteBuffer, rawWriteBuffer.data
      ensures Valid() && (rawWriteBuffer.data == old(rawWriteBuffer.data) || fresh(rawWriteBuffer.data))
      ensures Stream() == old(Stream()) + frame
      ensures OnlyPackets(old(encoded), encoded, bytesPerPacket)
      ensures var total := old(rawWriteBuffer.used) + |frame|;
              var end := LoopEnd(rounds, old(round), total, bytesPerPacket);
              && status == (if total == 0 then MemErr else StatusOf(end.last))
              && |encoded| == |old(encoded)| + end.packets && round == end.round
              && (rawWriteBuffer.used < bytesPerPacket <== end.last == Out)
              && (rawWriteBuffer.used >= bytesPerPacket && status == Success <==> end.last == Down)
    {
      ghost var end := LoopEnd(rounds, round, rawWriteBuffer.used + |frame|, bytesPerPacket);
      var w := Accept(frame);
      if w == 0 {
        assert end == End(Out, 0, round);
        return MemErr;
      }
      assert end == LoopEnd(rounds, round, rawWriteBuffer.used, bytesPerPacket);
      status := EncodeAll(bytesPerPacket);
    }

    method Accept(frame: seq<byte>) returns (w: nat)
      requires Valid() && rawWriteBuffer != null
      modifies rawWriteBuffer, rawWriteBuffer.data
      ensures Valid() && (rawWriteBuffer.data == old(rawWriteBuffer.data) || fresh(rawWriteBuffer.data))
      ensures Stream() == old(Stream()) + frame && w == rawWriteBuffer.used == old(rawWriteBuffer.used) + |frame|
    {
      ghost var before := rawWriteBuffer.Contents();
      w := rawWriteBuffer.Write(frame);
      assert rawWriteBuffer.Contents() == before + frame;
      assert Flatten(encoded) + (before + frame) == (Flatten(encoded) + before) + frame;
    }

    /** A round of the loop: unless the channel is down, the oldest packet goes to the encoder. */
    method OneRound(bytesPerPacket: nat) returns (r: Round)
      requires Valid() && rawWriteBuffer != null && 0 < bytesPerPacket <= rawWriteBuffer.used
      modifies this`encoded, this`round, rawWriteBuffer`head, rawWriteBuffer`used
      ensures Valid() && Stream() == old(Stream())
      ensures r == RoundAt(rounds, old(round)) && round == old(round) + 1
      ensures r == Down ==> encoded == old(encoded) && rawWriteBuffer.used == old(rawWriteBuffer.used)
      ensures r != Down ==> OnlyPackets(old(encoded), encoded, bytesPerPacket) && |encoded| == |old(encoded)| + 1
                            && rawWriteBuffer.used == old(rawWriteBuffer.used) - bytesPerPacket
    {
      r := RoundAt(rounds, round);
      round := round + 1;
      if r == Down {
        return;
      }
      var _ := EncodeOne(bytesPerPacket);
    }

    method EncodeAll(bytesPerPacket: nat) returns (status: Status)
      requires Valid() && rawWriteBuffer != null && bytesPerPacket > 0
      modifies this`encoded, this`round, rawWriteBuffer`head, rawWriteBuffer`used
      ensures Valid() && Stream() == old(Stream())
      ensures OnlyPackets(old(encoded), encoded, bytesPerPacket)
      ensures var end := LoopEnd(rounds, old(round), old(rawWriteBuffer.used), bytesPerPacket);
              && status == StatusOf(end.last)
              && |encoded| == |old(encoded)| + end.packets && round == end.round
              && (rawWriteBuffer.used < bytesPerPacket <== end.last == Out)
              && (rawWriteBuffer.used >= bytesPerPacket && status == Success <==> end.last == Down)
    {
      ghost var k := 0;
      ghost var end := LoopEnd(rounds, round, rawWriteBuffer.used, bytesPerPacket);
      ghost var later := end;
      while rawWriteBuffer.used >= bytesPerPacket
        invariant Valid() && Stream() == old(Stream())
        invariant OnlyPackets(old(encoded), encoded, bytesPerPacket) && |encoded| == |old(encoded)| + k
        invariant later == LoopEnd(rounds, round, rawWriteBuffer.used, bytesPerPacket)
        invariant end == End(later.last, later.packets + k, later.round)
        decreases rawWriteBuffer.used
      {
        var r := OneRound(bytesPerPacket);
        if r != Out {
          return StatusOf(r);
        }
        k, later := k + 1, LoopEnd(rounds, round, rawWriteBuffer.used, bytesPerPacket);
      }
      status := Success;
    }
  }

  /** The packets that n bytes make once all whole ones are out. */
  lemma PacketCount(encoded: seq<seq<byte>>, rest: seq<byte>, bytesPerPacket: nat)
    requires 0 < bytesPerPacket && OnlyPackets([], encoded, bytesPerPacket) && |rest| < bytesPerPacket
    ensures |encoded| == |Flatten(encoded) + rest| / bytesPerPacket
  {
    FlattenLength(encoded, bytesPerPacket);
    Quotient(|Flatten(encoded) + rest|, bytesPerPacket, |encoded|, |rest|);
  }

  lemma {:induction false} FlattenLength(packets: seq<seq<byte>>, size: nat)
    requires OnlyPackets([], packets, size)
    ensures |Flatten(packets)| == |packets| * size
  {
    if packets != [] {
      FlattenLength(packets[..|packets| - 1], size);
      assert |packets| * size == (|packets| - 1) * size + size;
    }
  }

  ghost predicate AllOut(s: Session)
    reads s
  {
    OutFrom(s.rounds, 0, s.round)
  }

  /** No round stopped a loop: neither one before it, nor one of its own. */
  lemma OutBefore(rounds: nat -> Round, first: nat, bytes: nat, size: nat)
    requires size > 0 && OutFrom(rounds, 0, LoopEnd(rounds, first, bytes, size).round)
    ensures OutFrom(rounds, 0, first)
    ensures LoopEnd(rounds, first, bytes, size) == End(Out, bytes / size, first + bytes / size)
  {
    LoopEndIs(rounds, first, bytes, size);
    AllRoundsOut(rounds, first, bytes, size);
  }

  method OneMore(s: Session, frame: seq<byte>, bytesPerPacket: nat)
    requires bytesPerPacket > 0 && s.Valid() && OnlyPackets([], s.encoded, bytesPerPacket)
    requires AllOut(s) ==> |s.Remainder()| < bytesPerPacket && |s.encoded| == s.round
    modifies s.Footprint()
    ensures s.Valid() && fresh(s.Footprint() - old(s.Footprint()))
    ensures s.Stream() == old(s.Stream()) + frame && OnlyPackets([], s.encoded, bytesPerPacket)
    ensures AllOut(s) ==> |s.Remainder()| < bytesPerPacket && |s.encoded| == s.round
  {
    ghost var first, total := s.round, |s.Remainder()| + |frame|;
    var _ := s.WriteFrame(frame, bytesPerPacket);
    if AllOut(s) {
      OutBefore(s.rounds, first, total, bytesPerPacket);
    }
  }

  /**
   Any run of frames on a new session: the packets and the remainder are the bytes, in order. If no round
   that was begun stopped a loop, all whole packets are out.
   */
  method Run(frames: seq<seq<byte>>, bytesPerPacket: nat, rounds: nat -> Round) returns (s: Session)
    requires bytesPerPacket > 0
    ensures fresh(s.Footprint() - {null}) && s.Valid() && s.rounds == rounds
    ensures Flatten(s.encoded) + s.Remainder() == Flatten(frames)
    ensures OnlyPackets([], s.encoded, bytesPerPacket)
    ensures AllOut(s) ==> |s.Remainder()| < bytesPerPacket && |s.encoded| == s.round == |Flatten(frames)| / bytesPerPacket
    decreases |frames|
  {
    if |frames| == 0 {
      s := new Session(rounds);
    } else {
      s := Run(frames[..|frames| - 1], bytesPerPacket, rounds);
      OneMore(s, frames[|frames| - 1], bytesPerPacket);
    }
    if AllOut(s) {
      PacketCount(s.encoded, s.Remainder(), bytesPerPacket);
    }
  }

  function AlwaysDown(n: nat): Round {
    Down
  }

  /** Success, although whole packets stay behind: the channel is down. */
  method SuccessWithPackets(bytesPerPacket: nat, frame: seq<byte>) returns (s: Session, status: Status)
    requires 0 < bytesPerPacket <= |frame|
    ensures fresh(s) && s.Valid()
    ensures status == Success && s.encoded == [] && s.Remainder() == frame
  {
    s := new Session(AlwaysDown);
    assert LoopEnd(AlwaysDown, 0, |frame|, bytesPerPacket) == End(Down, 0, 1);
    status := s.WriteFrame(frame, bytesPerPacket);
    assert Flatten(s.encoded) == [];
    assert Flatten(s.encoded) + s.Remainder() == s.Remainder();
  }
}
