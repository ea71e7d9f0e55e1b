/** The sliding byte buffer: a window head[..used] on an array that compacts and grows when written. */
module Buffer {
  import opened Octets

  const SIZE_T: nat := 0x1_0000_0000_0000_0000

  /** Whether a write of n > 0 bytes has room: within the capacity, or within the limit of a dynamic buffer. */
  predicate Fits(used: nat, capacity: nat, dynamic: bool, maxLen: nat, n: nat) {
    used + n <= capacity || (dynamic && (maxLen == 0 || used + n <= maxLen))
  }

  function GrownTo(capacity: nat, blocksize: nat, n: nat): nat {
    if capacity + blocksize > capacity + n then capacity + blocksize else capacity + n
  }

  /** The fill and the capacity of a buffer. */
  datatype Level = Level(used: nat, capacity: nat)

  datatype Op = Write(bytes: seq<byte>) | Read(n: nat)

  /** What a write or a read makes of the level of a dynamic buffer. */
  function After(l: Level, op: Op, blocksize: nat, maxLen: nat): Level {
    match op
    case Write(bytes) =>
      var n := |bytes|;
      if n == 0 || !Fits(l.used, l.capacity, true, maxLen, n) then l
      else Level(l.used + n, if l.used + n > l.capacity then GrownTo(l.capacity, blocksize, n) else l.capacity)
    case Read(n) => Level(if n <= l.used then l.used - n else 0, l.capacity)
  }

  function Run(l: Level, ops: seq<Op>, blocksize: nat, maxLen: nat): Level {
    if ops == [] then l else After(Run(l, ops[..|ops| - 1], blocksize, maxLen), ops[|ops| - 1], blocksize, maxLen)
  }

  ghost predicate LimitHolds(l: Level, blocksize: nat, maxLen: nat) {
    forall ops :: Run(l, ops, blocksize, maxLen).used <= maxLen
  }

  lemma RunTwo(l: Level, a: Op, b: Op, blocksize: nat, maxLen: nat)
    ensures Run(l, [a, b], blocksize, maxLen) == After(After(l, a, blocksize, maxLen), b, blocksize, maxLen)
  {
    assert [a, b][..1] == [a] && [a][..0] == [];
    assert Run(l, [a], blocksize, maxLen) == After(l, a, blocksize, maxLen);
  }

  lemma RunThree(l: Level, a: Op, b: Op, c: Op, blocksize: nat, maxLen: nat)
    ensures Run(l, [a, b, c], blocksize, maxLen) ==
            After(After(After(l, a, blocksize, maxLen), b, blocksize, maxLen), c, blocksize, maxLen)
  {
    assert [a, b, c][..2] == [a, b];
    RunTwo(l, a, b, blocksize, maxLen);
  }

  lemma {:induction false} ExactCapacityHolds(l: Level, ops: seq<Op>, blocksize: nat, maxLen: nat)
    requires l.used <= l.capacity == maxLen && 0 < maxLen
    ensures var r := Run(l, ops, blocksize, maxLen); r.used <= r.capacity == maxLen
  {
    if ops != [] {
      ExactCapacityHolds(l, ops[..|ops| - 1], blocksize, maxLen);
    }
  }

  function Zeros(n: nat): (z: seq<byte>)
    ensures |z| == n
  {
    seq(n, _ => 0)
  }

  /**
   The fill of a dynamic buffer stays within its limit over all runs of writes and reads if and only if the
   capacity equals the limit. A larger capacity is filled up; a smaller one grows past the limit.
   */
  lemma LimitHoldsExactly(l: Level, blocksize: nat, maxLen: nat)
    requires 0 < l.capacity && l.used <= l.capacity && l.used <= maxLen && 0 < maxLen
    ensures LimitHolds(l, blocksize, maxLen) <==> l.capacity == maxLen
  {
    if l.capacity == maxLen {
      forall ops ensures Run(l, ops, blocksize, maxLen).used <= maxLen {
        ExactCapacityHolds(l, ops, blocksize, maxLen);
      }
    } else if l.capacity > maxLen {
      var w := Write(Zeros(l.capacity - l.used));
      RunTwo(l, w, Read(0), blocksize, maxLen);
      assert Run(l, [w, Read(0)], blocksize, maxLen).used > maxLen;
    } else {
      var r, w, x := Read(l.used), Write(Zeros(maxLen)), Write(Zeros(1));
      RunThree(l, r, w, x, blocksize, maxLen);
      assert Run(l, [r, w, x], blocksize, maxLen).used > maxLen;
    }
  }

  class Buffer {
    var data: array?<byte>
    var head: nat
    var used: nat
    var actuallyUsed: nat
    var datalen: nat
    var maxLen: nat
    var blocksize: nat
    var dynamic: bool
    var partition: bool
    var loops: int

    ghost predicate Valid()
      reads this
    {
      && datalen == (if data == null then 0 else data.Length)
      && head + used == actuallyUsed <= datalen
      && !(dynamic && partition)
    }

    /** The unread bytes, oldest first. */
    ghost function Contents(): (c: seq<byte>)
      reads this, data
      requires Valid()
      ensures |c| == used
    {
      if data == null then [] else data[head..head + used]
    }

    /** Everything a rewind makes readable again. */
    ghost function Backing(): (c: seq<byte>)
      reads this, data
      requires Valid()
      ensures |c| == actuallyUsed
    {
      if data == null then [] else data[..actuallyUsed]
    }

    constructor Fixed(maxLen: nat)
      ensures Valid() && data != null && fresh(data) && Contents() == []
      ensures datalen == maxLen && !dynamic && !partition && loops == 0
    {
      data := new byte[maxLen](_ => 0);
      head, used, actuallyUsed, datalen, this.maxLen, blocksize := 0, 0, 0, maxLen, 0, 0;
      dynamic, partition, loops := false, false, 0;
    }

    constructor Dynamic(blocksize: nat, startLen: nat, maxLen: nat)
      ensures Valid() && Contents() == [] && (data == null <==> startLen == 0) && fresh({data} - {null})
      ensures datalen == startLen && dynamic && !partition && loops == 0
      ensures this.maxLen == maxLen && this.blocksize == blocksize
    {
      data := null;
      if startLen > 0 {
        data := new byte[startLen](_ => 0);
      }
      head, used, actuallyUsed, datalen, this.maxLen, this.blocksize := 0, 0, 0, startLen, maxLen, blocksize;
      dynamic, partition, loops := true, false, 0;
    }

    constructor Partition(d: array<byte>)
      ensures Valid() && data == d && Contents() == Backing() == d[..]
      ensures partition && !dynamic && loops == 0
    {
      data, head, used, actuallyUsed, datalen := d, 0, d.Length, d.Length, d.Length;
      maxLen, blocksize := 0, 0;
      dynamic, partition, loops := false, true, 0;
    }

    /** Unsigned arithmetic: above its limit a dynamic buffer reports a huge free space. */
    method FreeSpace() returns (n: nat)
      requires Valid() && maxLen < SIZE_T
      ensures n == if dynamic && maxLen == 0 then 1000000
                   else if dynamic then (maxLen - used) % SIZE_T else datalen - used
      ensures dynamic && 0 < maxLen < used < SIZE_T ==> n > maxLen && n + used == maxLen + 18446744073709551616
      ensures dynamic && used <= maxLen ==> n == if maxLen == 0 then 1000000 else maxLen - used
    {
      if dynamic {
        if maxLen != 0 {
          return (maxLen - used) % SIZE_T;
        }
        return 1000000;
      }
      return datalen - used;
    }

    method Toss(n: nat) returns (left: nat)
      requires Valid()
      modifies this`head, this`used
      ensures Valid() && left == used
      ensures Contents() == old(Contents())[if n <= old(used) then n else old(used)..]
      ensures Backing() == old(Backing())
    {
      if used < 1 {
        used := 0;
        return 0;
      }
      var reading := if used >= n then n else used;
      used := used - reading;
      head := head + reading;
      left := used;
    }

    /** Takes the oldest bytes, at most n. */
    method Read(n: nat) returns (bytes: seq<byte>)
      requires Valid()
      modifies this`head, this`used
      ensures Valid() && |bytes| == (if n <= old(used) then n else old(used))
      ensures old(Contents()) == bytes + Contents()
      ensures Backing() == old(Backing())
    {
      if used < 1 {
        used := 0;
        return [];
      }
      var reading := if used >= n then n else used;
      bytes := data[head..head + reading];
      used := used - reading;
      head := head + reading;
    }

    method Peek(n: nat) returns (bytes: seq<byte>)
      requires Valid()
      modifies this`used
      ensures Valid() && used == old(used) && Contents() == old(Contents())
      ensures bytes == Contents()[..if n <= used then n else used]
    {
      if used < 1 {
        used := 0;
        return [];
      }
      bytes := data[head..head + if used >= n then n else used];
    }

    /** A read that finds nothing uses up a loop and rewinds, unless no loop is left. */
    method ReadLoop(n: nat) returns (bytes: seq<byte>)
      requires Valid()
      modifies this`head, this`used, this`loops
      ensures Valid() && Backing() == old(Backing())
      ensures n > 0 && old(used) > 0 ==>
                loops == old(loops) && bytes != [] && old(Contents()) == bytes + Contents()
      ensures n == 0 || old(used) == 0 ==>
                && loops == (if old(loops) > 0 then old(loops) - 1 else old(loops))
                && (loops == 0 ==> bytes == [] && Contents() == old(Contents()))
                && (loops != 0 ==> Backing() == bytes + Contents()
                                   && |bytes| == (if n <= actuallyUsed then n else actuallyUsed))
    {
      bytes := Read(n);
      if bytes == [] {
        bytes := StartOver(n);
      }
    }

    method StartOver(n: nat) returns (bytes: seq<byte>)
      requires Valid()
      modifies this`head, this`used, this`loops
      ensures Valid() && Backing() == old(Backing())
      ensures loops == if old(loops) > 0 then old(loops) - 1 else old(loops)
      ensures loops == 0 ==> bytes == [] && Contents() == old(Contents())
      ensures loops != 0 ==> Backing() == bytes + Contents()
                             && |bytes| == (if n <= actuallyUsed then n else actuallyUsed)
    {
      if loops > 0 {
        loops := loops - 1;
      }
      if loops == 0 {
        return [];
      }
      bytes := ReadAgain(n);
    }

    method ReadAgain(n: nat) returns (bytes: seq<byte>)
      requires Valid()
      modifies this`head, this`used
      ensures Valid() && Backing() == old(Backing()) == bytes + Contents()
      ensures |bytes| == (if n <= actuallyUsed then n else actuallyUsed)
    {
      Rewind();
      bytes := Read(n);
    }

    method Rewind()
      requires Valid()
      modifies this`head, this`used
      ensures Valid() && Contents() == Backing() == old(Backing())
    {
      head := 0;
      used := actuallyUsed;
    }

    method Zero()
      requires Valid() && data != null
      modifies this`head, this`used, this`actuallyUsed
      ensures Valid() && Contents() == []
    {
      used, actuallyUsed, head := 0, 0, 0;
    }

    /** memmove of the unread bytes to the front. */
    method Compact()
      requires Valid() && data != null
      modifies this`head, this`actuallyUsed, data
      ensures Valid() && Contents() == old(Contents()) && head == 0
    {
      forall i | 0 <= i < used {
        data[i] := data[head + i];
      }
      head := 0;
      actuallyUsed := used;
    }

    method Grow(newSize: nat)
      requires Valid() && data != null && head == 0 && newSize >= datalen
      modifies this`data, this`datalen
      ensures Valid() && Contents() == old(Contents()) && fresh(data) && datalen == newSize
    {
      var tmp := new byte[newSize](_ => 0);
      forall i | 0 <= i < datalen {
        tmp[i] := data[i];
      }
      data, datalen := tmp, newSize;
    }

    method Append(bytes: seq<byte>)
      requires Valid() && data != null && used + |bytes| <= datalen && actuallyUsed + |bytes| <= datalen
      modifies this`used, this`actuallyUsed, data
      ensures Valid() && Contents() == old(Contents()) + bytes
    {
      forall i | 0 <= i < |bytes| {
        data[head + used + i] := bytes[i];
      }
      used := used + |bytes|;
      actuallyUsed := actuallyUsed + |bytes|;
    }

    /** Appends all the bytes when they fit, else none; returns the new fill or 0. */
    method Write(bytes: seq<byte>) returns (r: nat)
      requires Valid() && (partition || data != null)
      modifies this`data, this`head, this`used, this`actuallyUsed, this`datalen, data
      ensures Valid() && (data == old(data) || fresh(data)) && (data == null <==> old(data) == null)
      ensures partition ==> r == 0 && Contents() == old(Contents())
      ensures !partition && bytes == [] ==> r == used && Contents() == old(Contents())
      ensures !partition && bytes != [] ==>
                if old(Fits(used, datalen, dynamic, maxLen, |bytes|))
                then r == used > 0 && Contents() == old(Contents()) + bytes
                else r == 0 && Contents() == old(Contents())
      ensures datalen == if !partition && bytes != [] && old(Fits(used, datalen, dynamic, maxLen, |bytes|))
                            && old(used) + |bytes| > old(datalen)
                         then GrownTo(old(datalen), blocksize, |bytes|) else old(datalen)
    {
      if partition {
        return 0;
      }
      if |bytes| == 0 {
        return used;
      }
      if datalen - actuallyUsed < |bytes| {
        Compact();
      }
      if dynamic {
        if datalen - used < |bytes| && (maxLen == 0 || used + |bytes| <= maxLen) {
          head := 0;
          Grow(GrownTo(datalen, blocksize, |bytes|));
        }
      }
      if datalen - used < |bytes| {
        return 0;
      }
      Append(bytes);
      r := used;
    }

    /** Empties the buffer when the bytes do not fit beside the old ones. */
    method ZeroWrite(bytes: seq<byte>) returns (r: nat)
      requires Valid() && (partition || data != null)
      modifies this`data, this`head, this`used, this`actuallyUsed, this`datalen, data
      ensures Valid() && (data == old(data) || fresh(data)) && (data == null <==> old(data) == null)
      ensures partition ==> r == 0 && Contents() == old(Contents())
      ensures !partition && bytes == [] ==> r == used && Contents() == old(Contents())
      ensures !partition && bytes != [] ==>
                Contents() == if old(Fits(used, datalen, dynamic, maxLen, |bytes|)) then old(Contents()) + bytes
                              else if old(Fits(0, datalen, dynamic, maxLen, |bytes|)) then bytes else []
    {
      if partition {
        return 0;
      }
      r := Write(bytes);
      if r == 0 {
        Zero();
        assert Contents() == [];
        r := Write(bytes);
        assert r > 0 && bytes != [] ==> Contents() == [] + bytes == bytes;
      }
    }

    /** Drops as many old bytes as there are new ones when the new ones do not fit beside them. */
    method SlideWrite(bytes: seq<byte>) returns (r: nat)
      requires Valid() && (partition || data != null)
      modifies this`data, this`head, this`used, this`actuallyUsed, this`datalen, data
      ensures Valid() && (data == old(data) || fresh(data)) && (data == null <==> old(data) == null)
      ensures partition || bytes == [] ==> Contents() == old(Contents())
      ensures !partition && bytes != [] && old(Fits(used, datalen, dynamic, maxLen, |bytes|)) ==>
                Contents() == old(Contents()) + bytes && r == used
      ensures !partition && bytes != [] && !old(Fits(used, datalen, dynamic, maxLen, |bytes|)) ==>
                var kept := old(Contents())[if |bytes| <= old(used) then |bytes| else old(used)..];
                if old(Fits(|kept|, datalen, dynamic, maxLen, |bytes|))
                then Contents() == kept + bytes && r == used
                else Contents() == kept && r == 0
      // so nothing new is lost when the new bytes alone fit the capacity
      ensures !partition && 0 < |bytes| <= old(datalen) ==> r == used && bytes <= Contents()[used - |bytes|..]
    {
      if partition {
        return 0;
      }
      r := Write(bytes);
      if r == 0 {
        var _ := Toss(|bytes|);
        r := Write(bytes);
      }
    }

    /** Reads with ReadLoop, whatever the sizes asked for, until nothing comes. */
    method Drain() returns (out: seq<byte>)
      requires Valid() && loops >= 1
      modifies this`head, this`used, this`loops
      ensures Valid() && out == old(Contents()) + Repeat(old(Backing()), old(loops) - 1)
      decreases loops, used
    {
      var n: nat :| n >= 1;
      ghost var left, all, more := Contents(), Backing(), loops - 1;
      out := ReadLoop(n);
      if out == [] {
        NothingLeft(left, all, more);
      } else {
        NextBytes(left, out, Contents(), all, more, loops - 1);
        var rest := Drain();
        out := out + rest;
      }
    }

    /** A full buffer set to k loops yields exactly k copies of its bytes. */
    method ReadAllLoops(k: nat) returns (out: seq<byte>)
      requires Valid() && k >= 1 && Contents() == Backing()
      modifies this`head, this`used, this`loops
      ensures Valid() && out == Repeat(old(Backing()), k)
    {
      loops := k;
      out := Drain();
    }
  }

  function Repeat(s: seq<byte>, k: nat): seq<byte> {
    if k == 0 then [] else s + Repeat(s, k - 1)
  }

  lemma {:induction false} RepeatEmpty(k: nat)
    ensures Repeat([], k) == []
  {
    if k > 0 {
      RepeatEmpty(k - 1);
    }
  }

  lemma NothingLeft(left: seq<byte>, all: seq<byte>, more: nat)
    requires left == [] && (more == 0 || all == [])
    ensures left + Repeat(all, more) == []
  {
    RepeatEmpty(more);
  }

  lemma NextBytes(left: seq<byte>, bytes: seq<byte>, rest: seq<byte>, all: seq<byte>, more: nat, more': nat)
    requires (left == bytes + rest && more' == more) || (left == [] && all == bytes + rest && more == more' + 1)
    ensures bytes + (rest + Repeat(all, more')) == left + Repeat(all, more)
  {
  }

  /** The buffer follows the levels of such a run. */
  method Perform(b: Buffer, ops: seq<Op>)
    requires b.Valid() && b.data != null && b.dynamic
    modifies b`data, b`head, b`used, b`actuallyUsed, b`datalen, b.data
    ensures b.Valid() && b.data != null && (b.data == old(b.data) || fresh(b.data))
    ensures Level(b.used, b.datalen) == Run(old(Level(b.used, b.datalen)), ops, b.blocksize, b.maxLen)
    decreases |ops|
  {
    if |ops| > 0 {
      Perform(b, ops[..|ops| - 1]);
      match ops[|ops| - 1] {
        case Write(bytes) => var _ := b.Write(bytes);
        case Read(n) => var _ := b.Read(n);
      }
    }
  }

  /** A dynamic buffer with limit 20 that holds 30 bytes. */
  method BeyondTheLimit() returns (b: Buffer)
    ensures fresh(b) && b.Valid() && b.dynamic && b.maxLen == 20 && b.used == 30
  {
    b := new Buffer.Dynamic(100, 10, 20);
    var r := b.Write(Zeros(15));
    r := b.Write(Zeros(15));
  }
}
