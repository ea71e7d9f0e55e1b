/** Writing to a file through its pre-buffer: data leaves in chunks, the rest when the file is closed. */
module FileHandle {
  import opened Octets
  import opened Buffer
  import opened Division
  import opened Sequences

  /** Bytes per sample over all channels. */
  function Unit(native: bool, channels: nat): nat {
    if native then channels else 2 * channels
  }

  /** A chunk's length in samples, as the two divisions compute it. */
  function Samples(n: nat, native: bool, channels: nat): nat
    requires channels > 0
  {
    var b := if native then n else n / 2;
    if channels > 1 then b / channels else b
  }

  /** n bytes without an incomplete sample at their end. */
  function Clipped(n: nat, unit: nat): (c: nat)
    requires unit > 0
    ensures c <= n && (c == n <==> Multiple(n, unit))
  {
    if n < unit then 0 else unit + Clipped(n - unit, unit)
  }

  lemma {:induction false} ClippedIs(n: nat, unit: nat)
    requires unit > 0
    ensures Clipped(n, unit) == n - n % unit
  {
    if n < unit {
      Quotient(n, unit, 0, n);
    } else {
      ClippedIs(n - unit, unit);
      var q, r := (n - unit) / unit, (n - unit) % unit;
      assert n == (q + 1) * unit + r;
      Quotient(n, unit, q + 1, r);
    }
  }

  /** The samples carry every byte of the chunk but an incomplete sample at its end. */
  lemma SamplesCarry(n: nat, native: bool, channels: nat)
    requires channels > 0
    ensures Samples(n, native, channels) * Unit(native, channels) == Clipped(n, Unit(native, channels))
    ensures Clipped(n, Unit(native, channels)) == n - n % Unit(native, channels)
  {
    if !native {
      DivideTwice(n, channels);
    }
    ClippedIs(n, Unit(native, channels));
  }

  datatype Outcome = Ok | NotOpen | BackendError

  /** The bytes of a chunk that its length in whole samples covers. */
  function Carried(chunk: seq<byte>, unit: nat): (c: seq<byte>)
    requires unit > 0
    ensures c <= chunk && (c == chunk <==> Multiple(|chunk|, unit))
  {
    chunk[..Clipped(|chunk|, unit)]
  }

  function Takes(takes: nat -> bool, n: nat): bool {
    takes(n)
  }

  /** What the file holds after the writer was handed these chunks, one a call, and took some of them. */
  function Kept(chunks: seq<seq<byte>>, takes: nat -> bool, unit: nat): seq<byte>
    requires unit > 0
  {
    if chunks == [] then []
    else
      var n := |chunks| - 1;
      Kept(chunks[..n], takes, unit)
      + if Takes(takes, n) then Carried(chunks[n], unit) else []
  }

  lemma KeptOneMore(chunks: seq<seq<byte>>, chunk: seq<byte>, takes: nat -> bool, unit: nat)
    requires unit > 0
    ensures Kept(chunks + [chunk], takes, unit) ==
            Kept(chunks, takes, unit)
            + if Takes(takes, |chunks|) then Carried(chunk, unit) else []
  {
    assert (chunks + [chunk])[..|chunks|] == chunks;
  }

  /** The writer took every chunk of these calls. */
  ghost predicate AllTaken(takes: nat -> bool, a: nat, b: nat)
    decreases b
  {
    a >= b || (Takes(takes, b - 1) && AllTaken(takes, a, b - 1))
  }

  lemma {:induction false} AllTakenIs(takes: nat -> bool, a: nat, b: nat)
    ensures AllTaken(takes, a, b) <==> forall n {:trigger Takes(takes, n)} :: a <= n < b ==> Takes(takes, n)
    decreases b
  {
    if a < b {
      AllTakenIs(takes, a, b - 1);
    }
  }

  /** Whole samples only. */
  ghost predicate AllWhole(chunks: seq<seq<byte>>, unit: nat)
    requires unit > 0
  {
    chunks == [] || (AllWhole(chunks[..|chunks| - 1], unit) && Multiple(|chunks[|chunks| - 1]|, unit))
  }

  ghost predicate AllFilled(chunks: seq<seq<byte>>) {
    chunks == [] || (AllFilled(chunks[..|chunks| - 1]) && chunks[|chunks| - 1] != [])
  }

  /** The length of the first chunk, 0 when there is none. */
  ghost function FirstLength(chunks: seq<seq<byte>>): nat {
    if chunks == [] then 0
    else if |chunks| == 1 then |chunks[0]|
    else FirstLength(chunks[..|chunks| - 1])
  }

  /** The first of so many chunks has the given size, but for a shorter one that was all there was. */
  ghost predicate Chunked(count: nat, first: nat, size: nat, left: nat) {
    count == 0 || first == size || (count == 1 && left == 0 && first < size)
  }

  /** When chunks of a size that is no whole number of samples still are whole: if there is only a shorter one. */
  lemma WholeExactly(chunks: seq<seq<byte>>, size: nat, unit: nat)
    requires unit > 0 && size > 0 && Chunked(|chunks|, FirstLength(chunks), size, 0) && !Multiple(size, unit)
    requires Multiple(|Flatten(chunks)|, unit)
    ensures AllWhole(chunks, unit) <==> |Flatten(chunks)| < size
  {
    if chunks != [] {
      FirstWhole(chunks, unit);
      if |chunks| == 1 {
        assert Flatten(chunks) == Flatten(chunks[..0]) + chunks[0];
      }
    }
  }

  lemma {:induction false} FirstWhole(chunks: seq<seq<byte>>, unit: nat)
    requires unit > 0 && chunks != []
    ensures AllWhole(chunks, unit) ==> Multiple(FirstLength(chunks), unit)
    ensures |Flatten(chunks)| >= FirstLength(chunks)
  {
    if |chunks| > 1 {
      FirstWhole(chunks[..|chunks| - 1], unit);
    }
  }

  /** Chunks that are all taken and all of whole samples are kept as they are. */
  lemma {:induction false} KeptAll(chunks: seq<seq<byte>>, takes: nat -> bool, unit: nat)
    requires unit > 0 && AllTaken(takes, 0, |chunks|)
    requires AllWhole(chunks, unit)
    ensures Kept(chunks, takes, unit) == Flatten(chunks)
  {
    if chunks != [] {
      KeptAll(chunks[..|chunks| - 1], takes, unit);
    }
  }

  /** One refused or clipped chunk is enough: then the file is short of what was handed over. */
  lemma {:induction false} KeptLength(chunks: seq<seq<byte>>, takes: nat -> bool, unit: nat)
    requires unit > 0 && AllFilled(chunks)
    ensures |Kept(chunks, takes, unit)| <= |Flatten(chunks)|
    ensures |Kept(chunks, takes, unit)| == |Flatten(chunks)| <==>
            AllTaken(takes, 0, |chunks|) && AllWhole(chunks, unit)
  {
    if chunks != [] {
      var n := |chunks| - 1;
      KeptLength(chunks[..n], takes, unit);
    }
  }

  lemma AllKept(chunks: seq<seq<byte>>, left: seq<byte>, takes: nat -> bool, unit: nat)
    requires unit > 0 && AllTaken(takes, 0, |chunks|) && AllWhole(chunks, unit) && left == []
    ensures Kept(chunks, takes, unit) == Flatten(chunks) + left
  {
    KeptAll(chunks, takes, unit);
    assert Flatten(chunks) + left == Flatten(chunks);
  }

  /** After the calls from one on: all were taken and nothing is left, or the last one was refused. */
  ghost predicate Ended(takes: nat -> bool, from: nat, calls: nat, left: nat, ok: bool) {
    if ok then from <= calls && AllTaken(takes, from, calls) && left == 0
    else from < calls && AllTaken(takes, from, calls - 1) && !Takes(takes, calls - 1)
  }

  class FileHandle {
    const native: bool
    const channels: nat
    const preBufferDatalen: nat
    const preBuffer: Buffer
    /** SWITCH_FILE_FLAG_WRITE */
    const forWriting: bool
    /** Whether the file's writer takes what its n-th call hands over. */
    const takes: nat -> bool
    var open: bool
    var paused: bool
    var samplesOut: nat
    /** The bytes that the file's writer took. */
    var written: seq<byte>
    /** The calls of the file's writer so far. */
    var calls: nat
    /** The chunks handed to it, one a call. */
    ghost var handed: seq<seq<byte>>
    /** The length of the first of them. */
    ghost var first: nat

    ghost predicate Valid()
      reads this, preBuffer
    {
      && channels > 0 && preBufferDatalen > 0
      && preBuffer.Valid() && preBuffer.data != null && preBuffer.dynamic && preBuffer.maxLen == 0
      && calls == |handed| && written == Kept(handed, takes, Unit(native, channels)) && AllFilled(handed)
      && first == FirstLength(handed)
      && (Aligned() ==> Multiple(preBuffer.used, Unit(native, channels)) && AllWhole(handed, Unit(native, channels)))
    }

    ghost predicate Aligned() {
      channels > 0 && Multiple(preBufferDatalen, Unit(native, channels))
    }

    /** All the bytes accepted so far, in order: those handed over and those still buffered. */
    ghost function Accepted(): seq<byte>
      reads this, preBuffer, preBuffer.data
      requires Valid()
    {
      Flatten(handed) + preBuffer.Contents()
    }

    constructor (native: bool, channels: nat, preBufferDatalen: nat, forWriting: bool, takes: nat -> bool)
      requires channels > 0 && preBufferDatalen > 0
      ensures Valid() && open && !paused && Accepted() == [] && samplesOut == 0 && handed == []
      ensures fresh(preBuffer) && fresh(preBuffer.data)
      ensures this.native == native && this.channels == channels && this.preBufferDatalen == preBufferDatalen
      ensures this.forWriting == forWriting && this.takes == takes
    {
      MulMono(1, channels, preBufferDatalen);
      var b := new Buffer.Dynamic(preBufferDatalen * channels, preBufferDatalen * channels, 0);
      this.native, this.channels, this.preBufferDatalen := native, channels, preBufferDatalen;
      this.forWriting, this.takes := forWriting, takes;
      preBuffer, open, paused, samplesOut, written, calls, handed, first := b, true, false, 0, [], 0, [], 0;
    }

    /** One call of the file's writer, which keeps the chunk's whole samples or refuses the chunk. */
    method HandOver(chunk: seq<byte>) returns (ok: bool)
      requires Valid() && chunk != [] && (Aligned() ==> Multiple(|chunk|, Unit(native, channels)))
      modifies this`written, this`handed, this`first, this`calls
      ensures Valid() && handed == old(handed) + [chunk] && ok == Takes(takes, old(calls)) && calls == old(calls) + 1
    {
      KeptOneMore(handed, chunk, takes, Unit(native, channels));
      assert (handed + [chunk])[..|handed|] == handed;
      ok := Takes(takes, calls);
      first := if calls == 0 then |chunk| else first;
      calls, handed := calls + 1, handed + [chunk];
      if ok {
        var n := Samples(|chunk|, native, channels);
        SamplesCarry(|chunk|, native, channels);
        written := written + chunk[..n * Unit(native, channels)];
      }
    }

    /** The oldest chunk of the pre-buffer goes to the writer. */
    method Flush() returns (ok: bool)
      requires Valid() && preBuffer.used > 0
      modifies this`written, this`handed, this`first, this`calls, preBuffer`head, preBuffer`used
      ensures Valid() && Accepted() == old(Accepted())
      ensures handed == old(handed) + [old(preBuffer.Contents())[..old(ChunkLength())]]
      ensures ok == Takes(takes, old(calls)) && calls == old(calls) + 1
      ensures preBuffer.used == old(preBuffer.used) - old(ChunkLength())
      ensures old(InChunks()) ==> InChunks()
    {
      ghost var before := preBuffer.Contents();
      var chunk := preBuffer.Read(preBufferDatalen);
      if Aligned() {
        MultiplesAdd(|before|, |chunk|, Unit(native, channels));
      }
      ok := HandOver(chunk);
      assert (Flatten(old(handed)) + chunk) + preBuffer.Contents() == Flatten(old(handed)) + before;
    }

    ghost predicate InChunks()
      reads this, preBuffer
    {
      Chunked(calls, first, preBufferDatalen, preBuffer.used)
    }

    ghost predicate FirstFull()
      reads this
    {
      calls == 0 || first == preBufferDatalen
    }

    ghost function ChunkLength(): nat
      reads this, preBuffer
    {
      if preBufferDatalen <= preBuffer.used then preBufferDatalen else preBuffer.used
    }

    /**
     Buffers len samples and hands over one chunk once a chunk is there. Only a refused chunk makes it fail;
     its bytes are lost, all others are kept. The number of samples reported back is then 0.
     */
    method Write(data: seq<byte>, len: nat) returns (r: Outcome, samples: nat)
      requires Valid() && |data| == len * Unit(native, channels)
      modifies this`written, this`handed, this`first, this`calls, this`samplesOut, preBuffer, preBuffer.data
      ensures Valid() && (preBuffer.data == old(preBuffer.data) || fresh(preBuffer.data))
      ensures !open || paused || len == 0 ==>
                && r == (if open then Ok else NotOpen) && samples == len
                && handed == old(handed) && samplesOut == old(samplesOut)
                && preBuffer.Contents() == old(preBuffer.Contents())
      ensures open && !paused && len > 0 ==>
                && Accepted() == old(Accepted()) + data && samplesOut == old(samplesOut) + len
                && if old(preBuffer.used) + |data| < preBufferDatalen
                   then r == Ok && samples == len && handed == old(handed)
                   else && handed == old(handed) + [(old(preBuffer.Contents()) + data)[..preBufferDatalen]]
                        && r == (if Takes(takes, old(calls)) then Ok else BackendError)
                        && samples == (if r == Ok then len else 0)
    {
      r, samples := Ok, len;
      if !open {
        return NotOpen, len;
      }
      if paused || len == 0 {
        return;
      }
      var ok := Pass(data, len);
      if !ok {
        r, samples := BackendError, 0;
      }
      samplesOut := samplesOut + len;
    }

    method Pass(data: seq<byte>, len: nat) returns (ok: bool)
      requires Valid() && |data| == len * Unit(native, channels)
      modifies this`written, this`handed, this`first, this`calls, preBuffer, preBuffer.data
      ensures Valid() && (preBuffer.data == old(preBuffer.data) || fresh(preBuffer.data))
      ensures Accepted() == old(Accepted()) + data
      ensures if old(preBuffer.used) + |data| < preBufferDatalen
              then ok && handed == old(handed)
              else handed == old(handed) + [(old(preBuffer.Contents()) + data)[..preBufferDatalen]]
                   && ok == Takes(takes, old(calls))
    {
      Fill(data, len);
      ok := true;
      if preBuffer.used >= preBufferDatalen {
        ok := Flush();
      }
    }

    method Fill(data: seq<byte>, len: nat)
      requires Valid() && |data| == len * Unit(native, channels)
      modifies preBuffer, preBuffer.data
      ensures Valid() && (preBuffer.data == old(preBuffer.data) || fresh(preBuffer.data))
      ensures Accepted() == old(Accepted()) + data && preBuffer.Contents() == old(preBuffer.Contents()) + data
    {
      if Aligned() {
        MultipleOf(|data|, len, Unit(native, channels));
        MultiplesAdd(preBuffer.used, |data|, Unit(native, channels));
      }
      ghost var before := preBuffer.Contents();
      var _ := preBuffer.Write(data);
      assert preBuffer.Contents() == before + data;
      assert Flatten(handed) + (before + data) == (Flatten(handed) + before) + data;
    }

    /**
     Hands over chunk by chunk until nothing is left or one is refused. What is still buffered then is lost,
     and the caller does not learn of it: the outcome is that of closing the file.
     */
    method Close(closes: bool) returns (r: Outcome, ghost ok: bool)
      requires Valid()
      modifies this`written, this`handed, this`first, this`calls, this`open, preBuffer`head, preBuffer`used
      ensures Valid() && !open && Accepted() == old(Accepted())
      ensures r == if !old(open) then NotOpen else if closes then Ok else BackendError
      ensures !old(open) || !forWriting ==> handed == old(handed)
      ensures old(open) && forWriting ==> Ended(takes, old(calls), calls, preBuffer.used, ok)
      ensures old(InChunks()) ==> InChunks()
    {
      ghost var chunked := InChunks();
      ok := true;
      if !open {
        return NotOpen, ok;
      }
      if forWriting {
        var all := HandOverAll(chunked);
        ok := all;
      }
      open := false;
      r := if closes then Ok else BackendError;
    }

    method HandOverAll(ghost chunked: bool) returns (ok: bool)
      requires Valid() && (chunked ==> InChunks())
      modifies this`written, this`handed, this`first, this`calls, preBuffer`head, preBuffer`used
      ensures Valid() && Accepted() == old(Accepted())
      ensures Ended(takes, old(calls), calls, preBuffer.used, ok) && (chunked ==> InChunks())
    {
      ghost var from := calls;
      while preBuffer.used != 0
        invariant Valid() && Accepted() == old(Accepted())
        invariant calls >= from && AllTaken(takes, from, calls) && (chunked ==> InChunks())
        decreases preBuffer.used
      {
        ok := Flush();
        if !ok {
          return;
        }
      }
      ok := true;
    }

    /** The file holds all the bytes accepted exactly when no call of all was refused and no chunk was clipped. */
    lemma AllWritten(from: nat, ok: bool)
      requires Valid() && Ended(takes, from, calls, preBuffer.used, ok)
      ensures written == Accepted() <==> AllTaken(takes, 0, calls) && AllWhole(handed, Unit(native, channels))
      ensures Aligned() ==> (written == Accepted() <==> AllTaken(takes, 0, calls))
    {
      KeptLength(handed, takes, Unit(native, channels));
      assert |Accepted()| == |Flatten(handed)| + |preBuffer.Contents()|;
      if AllTaken(takes, 0, calls) && AllWhole(handed, Unit(native, channels)) {
        assert ok;
        assert preBuffer.Contents() == [];
        AllKept(handed, preBuffer.Contents(), takes, Unit(native, channels));
      }
    }

    /** The same in terms of what a caller knows, when the bytes accepted are whole samples. */
    lemma KeptExactly(from: nat, ok: bool)
      requires Valid() && Ended(takes, from, calls, preBuffer.used, ok) && InChunks()
      requires Multiple(|Accepted()|, Unit(native, channels))
      ensures written == Accepted() <==>
              AllTaken(takes, 0, calls) && (Aligned() || |Accepted()| < preBufferDatalen)
    {
      AllWritten(from, ok);
      if !Aligned() && AllTaken(takes, 0, calls) {
        assert Accepted() == Flatten(handed);
        WholeExactly(handed, preBufferDatalen, Unit(native, channels));
      }
    }
  }

  /**
   Blocks of any sizes written and the file closed, whatever the writer refuses: the file holds the chunks it
   took, and it took the bytes in order. It holds exactly the blocks if and only if it took every chunk and
   none was clipped, that is, the chunk size is a whole number of samples or there were too few bytes for it.
   */
  method Record(fh: FileHandle, blocks: seq<seq<byte>>)
    requires fh.Valid() && fh.open && !fh.paused && fh.forWriting && fh.Accepted() == []
    requires forall i :: 0 <= i < |blocks| ==> Multiple(|blocks[i]|, Unit(fh.native, fh.channels))
    modifies fh`written, fh`handed, fh`first, fh`calls, fh`samplesOut, fh`open, fh.preBuffer, fh.preBuffer.data
    ensures fh.Valid() && !fh.open && Flatten(fh.handed) + fh.preBuffer.Contents() == Flatten(blocks)
    ensures fh.written == Kept(fh.handed, fh.takes, Unit(fh.native, fh.channels))
    ensures fh.written == Flatten(blocks) <==>
            AllTaken(fh.takes, 0, fh.calls) && (fh.Aligned() || |Flatten(blocks)| < fh.preBufferDatalen)
  {
    NothingHanded(fh.handed, fh.preBuffer.Contents());
    WriteAll(fh, blocks);
    ghost var from := fh.calls;
    var _, ok := fh.Close(true);
    BlocksMultiple(blocks, Unit(fh.native, fh.channels));
    fh.KeptExactly(from, ok);
  }

  lemma {:induction false} BlocksMultiple(blocks: seq<seq<byte>>, unit: nat)
    requires unit > 0 && forall i :: 0 <= i < |blocks| ==> Multiple(|blocks[i]|, unit)
    ensures Multiple(|Flatten(blocks)|, unit)
  {
    if blocks != [] {
      var n := |blocks| - 1;
      BlocksMultiple(blocks[..n], unit);
      MultiplesAdd(|Flatten(blocks[..n])|, |blocks[n]|, unit);
    }
  }

  lemma NothingHanded(chunks: seq<seq<byte>>, left: seq<byte>)
    requires AllFilled(chunks) && Flatten(chunks) + left == []
    ensures chunks == []
  {
    assert Flatten(chunks) == [];
  }

  method WriteAll(fh: FileHandle, blocks: seq<seq<byte>>)
    requires fh.Valid() && fh.open && !fh.paused && fh.Accepted() == []
    requires forall i :: 0 <= i < |blocks| ==> Multiple(|blocks[i]|, Unit(fh.native, fh.channels))
    modifies fh`written, fh`handed, fh`first, fh`calls, fh`samplesOut, fh.preBuffer, fh.preBuffer.data
    ensures fh.Valid() && (fh.preBuffer.data == old(fh.preBuffer.data) || fresh(fh.preBuffer.data))
    ensures fh.Accepted() == Flatten(blocks) && fh.FirstFull()
    decreases |blocks|
  {
    NothingHanded(fh.handed, fh.preBuffer.Contents());
    if |blocks| > 0 {
      WriteAll(fh, blocks[..|blocks| - 1]);
      WriteBlock(fh, blocks[|blocks| - 1]);
    }
  }

  lemma WholeBlock(n: nat, unit: nat)
    requires unit > 0 && Multiple(n, unit)
    ensures n == n / unit * unit && (n / unit == 0 ==> n == 0)
  {
    MultipleIs(n, unit);
  }

  method WriteBlock(fh: FileHandle, data: seq<byte>)
    requires fh.Valid() && fh.open && !fh.paused
    requires Multiple(|data|, Unit(fh.native, fh.channels))
    modifies fh`written, fh`handed, fh`first, fh`calls, fh`samplesOut, fh.preBuffer, fh.preBuffer.data
    ensures fh.Valid() && (fh.preBuffer.data == old(fh.preBuffer.data) || fresh(fh.preBuffer.data))
    ensures fh.Accepted() == old(fh.Accepted()) + data
    ensures old(fh.FirstFull()) ==> fh.FirstFull()
  {
    var len := |data| / Unit(fh.native, fh.channels);
    WholeBlock(|data|, Unit(fh.native, fh.channels));
    var _, _ := fh.Write(data, len);
  }

  function RefusesAll(n: nat): bool {
    false
  }

  /** A writer that refuses its only call, when the file is closed: Close says Ok, and the bytes are not in the file. */
  method LostAtClose() returns (fh: FileHandle, r: Outcome)
    ensures fresh(fh) && fh.Valid() && fh.Aligned() && !fh.open
    ensures r == Ok && fh.calls == 1 && |fh.Accepted()| == 2 && fh.written == []
  {
    fh := new FileHandle(false, 1, 8, true, RefusesAll);
    WholeSample();
    var w, samples := fh.Write([0, 0], 1);
    assert fh.handed == [];
    ghost var ok;
    r, ok := fh.Close(true);
  }

  lemma WholeSample()
    ensures Multiple(2, Unit(false, 1)) && Multiple(8, Unit(false, 1))
  {
    MultipleIs(2, 2);
    MultipleIs(8, 2);
  }
}
