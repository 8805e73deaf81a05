/**
 * Register access over the SPI bridge (libloragw/src/loragw_spi.mpsse.c):
 * open/close of the device handle, simple write and read of one register,
 * and burst write and read of a byte sequence.
 *
 * Each register function checks its arguments, builds its header, and then
 * runs a fixed sequence of bus calls (its "plan") between Start and Stop,
 * returning an error at the first call that fails. The postcondition of each
 * method (Bus.Outcome) says that the calls it made are the plan cut at the
 * first failure, which Bus.ExecutedRun shows is Bus.Executed of the plan,
 * and that it succeeds exactly when every call of the plan succeeds; the
 * lemmas below say what the plans contain.
 */
module Spi {
  import opened Framing
  import opened Chunking
  import opened Bus

  /** LGW_SPI_SUCCESS and LGW_SPI_ERROR. */
  datatype Status = SpiSuccess | SpiError

  /** The C `uint16_t` of the burst size. */
  type Uint16 = x: int | 0 <= x < 0x1_0000

  /** The caller's `void *` slot that lgw_spi_open fills in. */
  class TargetSlot {
    var target: Transport?

    constructor ()
      ensures target == null
    {
      target := null;
    }
  }

  // ---------------------------------------------------------------------
  // Plans: the bus calls of a fully successful run.

  function WritePlan(mode: bv8, target: bv8, address: bv8, data: bv8): seq<Event>
  {
    Bracket([Write(WriteFrame(mode, target, address, data))])
  }

  function ReadPlan(mode: bv8, target: bv8, address: bv8): seq<Event>
  {
    Bracket([Write(Header(mode, target, false, address)), Read(1)])
  }

  /** The payload bytes one chunk covers. */
  function ChunkBytes(payload: seq<bv8>, s: Span): seq<bv8>
    requires s.End() <= |payload|
  {
    payload[s.offset..s.End()]
  }

  /** One FastWrite per chunk, of the payload bytes that chunk covers. */
  function ChunkWrites(payload: seq<bv8>, spans: seq<Span>): seq<Event>
    requires forall k :: 0 <= k < |spans| ==> spans[k].End() <= |payload|
  {
    seq(|spans|, k requires 0 <= k < |spans| => Write(ChunkBytes(payload, spans[k])))
  }

  /** One FastRead per chunk, of that chunk's length. */
  function ChunkReads(spans: seq<Span>): seq<Event>
  {
    seq(|spans|, k requires 0 <= k < |spans| => Read(spans[k].len))
  }

  function BurstWritePlan(mode: bv8, target: bv8, address: bv8, payload: seq<bv8>, chunk: nat): seq<Event>
    requires 0 < chunk
  {
    ChunksFromShape(|payload|, 0, chunk);
    Bracket([Write(Header(mode, target, true, address))] + ChunkWrites(payload, Chunks(|payload|, chunk)))
  }

  function BurstReadPlan(mode: bv8, target: bv8, address: bv8, size: nat, chunk: nat): seq<Event>
    requires 0 < chunk
  {
    Bracket([Write(Header(mode, target, false, address))] + ChunkReads(Chunks(size, chunk)))
  }

  /** The caller's buffer once a burst read has filled its first `upto`
      bytes: byte p is byte p % chunk of chunk read number p / chunk (bus
      call first + p / chunk), and the rest of the buffer is as it was. */
  function Received(buf: seq<bv8>, chunk: nat, first: nat, delivers: (int, int) -> bv8, upto: nat): (r: seq<bv8>)
    requires 0 < chunk
    ensures |r| == |buf|
  {
    seq(|buf|, p requires 0 <= p < |buf| =>
      if p < upto then delivers(first + p / chunk, p % chunk) else buf[p])
  }

  /** How many bytes of the caller's buffer a burst read of `size` bytes has
      filled when it made `executed` bus calls: none before the first chunk
      read, and every chunk read fills its window, even the one that fails. */
  function Filled(executed: nat, size: nat, chunk: nat): nat
  {
    if executed <= 2 then 0 else Min((executed - 2) * chunk, size)
  }

  /** The bytes carried by the writes of a call sequence, in order. */
  function Payload(evs: seq<Event>): seq<bv8>
  {
    if evs == [] then []
    else Payload(evs[..|evs| - 1]) + (match evs[|evs| - 1] case Write(b) => b case _ => [])
  }

  /** The number of bytes the reads of a call sequence ask for. */
  function ReadTotal(evs: seq<Event>): nat
  {
    if evs == [] then 0
    else ReadTotal(evs[..|evs| - 1]) + (match evs[|evs| - 1] case Read(n) => n case _ => 0)
  }

  // ---------------------------------------------------------------------
  // Open and close.

  /** lgw_spi_open: `device` is what the MPSSE library returned. */
  method Open(slot: TargetSlot?, device: Transport?) returns (status: Status)
    modifies slot
    ensures slot == null ==> status == SpiError
    ensures slot != null ==> (status == SpiSuccess <==> device != null && device.isOpen)
    ensures slot != null ==> slot.target == if status == SpiSuccess then device else old(slot.target)
  {
    if slot == null {
      return SpiError;
    }
    if device == null || !device.isOpen {
      return SpiError;
    }
    slot.target := device;
    return SpiSuccess;
  }

  /** lgw_spi_close. */
  method Close(t: Transport?) returns (status: Status)
    modifies t
    ensures t == null ==> status == SpiError
    ensures t != null ==> status == SpiSuccess && !t.isOpen && t.trace == old(t.trace)
  {
    if t == null {
      return SpiError;
    }
    t.isOpen := false;
    return SpiSuccess;
  }

  // ---------------------------------------------------------------------
  // Register functions. Each runs its plan one call at a time; `prev` is
  // the trace before the call being made, and Advance records the step.

  /** lgw_spi_w: write one register. `done` is the list of bus calls made. */
  method WriteRegister(t: Transport?, mode: bv8, target: bv8, address: bv8, data: bv8)
    returns (status: Status, ghost done: seq<Event>)
    modifies t
    ensures t == null ==> status == SpiError && done == []
    ensures t != null ==>
      t.isOpen == old(t.isOpen) && t.trace == old(t.trace) + done &&
      Outcome(WritePlan(mode, target, address, data), |old(t.trace)|, t.accepts, done, status == SpiSuccess)
  {
    done := [];
    if t == null {
      return SpiError, done;
    }
    var frame := WriteFrame(mode, target, address, data);
    ghost var t0 := t.trace;
    ghost var plan := WritePlan(mode, target, address, data);
    Begin(plan, t0, t.accepts);
    ghost var prev := t.trace;
    var ok := t.Start();
    Advance(plan, t0, t.accepts, done, prev, Start, ok, t.trace);
    done, prev := done + [Start], t.trace;
    if !ok {
      return SpiError, done;
    }
    ok := t.FastWrite(frame);
    Advance(plan, t0, t.accepts, done, prev, Write(frame), ok, t.trace);
    done, prev := done + [Write(frame)], t.trace;
    if !ok {
      return SpiError, done;
    }
    ok := t.Stop();
    Advance(plan, t0, t.accepts, done, prev, Stop, ok, t.trace);
    done := done + [Stop];
    if !ok {
      return SpiError, done;
    }
    return SpiSuccess, done;
  }

  /** lgw_spi_r: read one register into data[0]. */
  method ReadRegister(t: Transport?, mode: bv8, target: bv8, address: bv8, data: array?<bv8>)
    returns (status: Status, ghost done: seq<Event>)
    requires data != null ==> 1 <= data.Length
    modifies t, data
    ensures t == null || data == null ==> status == SpiError && done == []
    ensures t != null ==> t.isOpen == old(t.isOpen) && t.trace == old(t.trace) + done
    ensures t != null && data != null ==>
      Outcome(ReadPlan(mode, target, address), |old(t.trace)|, t.accepts, done, status == SpiSuccess)
    ensures data != null && status == SpiError ==> data[..] == old(data[..])
    ensures status == SpiSuccess ==>
      t != null && data != null && data[..] == old(data[..])[0 := t.delivers(|old(t.trace)| + 2, 0)]
  {
    done := [];
    if t == null || data == null {
      return SpiError, done;
    }
    var command := Header(mode, target, false, address);
    var inBuf := new bv8[2];
    ghost var t0 := t.trace;
    ghost var plan := ReadPlan(mode, target, address);
    Begin(plan, t0, t.accepts);
    ghost var prev := t.trace;
    var ok := t.Start();
    Advance(plan, t0, t.accepts, done, prev, Start, ok, t.trace);
    done, prev := done + [Start], t.trace;
    if !ok {
      return SpiError, done;
    }
    ok := t.FastWrite(command);
    Advance(plan, t0, t.accepts, done, prev, Write(command), ok, t.trace);
    done, prev := done + [Write(command)], t.trace;
    if !ok {
      return SpiError, done;
    }
    ok := t.FastRead(inBuf, 0, 1);
    Advance(plan, t0, t.accepts, done, prev, Read(1), ok, t.trace);
    assert |prev| == |t0| + 2;
    done, prev := done + [Read(1)], t.trace;
    if !ok {
      return SpiError, done;
    }
    ok := t.Stop();
    Advance(plan, t0, t.accepts, done, prev, Stop, ok, t.trace);
    done := done + [Stop];
    if !ok {
      return SpiError, done;
    }
    data[0] := inBuf[0];
    return SpiSuccess, done;
  }

  /** lgw_spi_wb: write data[0..size) to one register address, in chunks. */
  method WriteBurst(t: Transport?, mode: bv8, target: bv8, address: bv8,
                    data: array?<bv8>, size: Uint16, chunk: nat)
    returns (status: Status, ghost done: seq<Event>)
    requires 0 < chunk
    requires data != null ==> size <= data.Length
    modifies t
    ensures t == null || data == null || size == 0 ==> status == SpiError && done == []
    ensures t != null ==> t.isOpen == old(t.isOpen) && t.trace == old(t.trace) + done
    ensures t != null && data != null && size > 0 ==>
      Outcome(BurstWritePlan(mode, target, address, old(data[..size]), chunk), |old(t.trace)|,
              t.accepts, done, status == SpiSuccess)
  {
    done := [];
    if t == null || data == null || size == 0 {
      return SpiError, done;
    }
    var command := Header(mode, target, true, address);
    var sizeToDo: nat := size;
    ghost var t0 := t.trace;
    ghost var arr := data[..];
    ghost var payload := arr[..size];
    ghost var spans := Chunks(size, chunk);
    ghost var plan := BurstWritePlan(mode, target, address, payload, chunk);
    Begin(plan, t0, t.accepts);
    ghost var prev := t.trace;
    var ok := t.Start();
    Advance(plan, t0, t.accepts, done, prev, Start, ok, t.trace);
    done, prev := done + [Start], t.trace;
    if !ok {
      return SpiError, done;
    }
    ok := t.FastWrite(command);
    Advance(plan, t0, t.accepts, done, prev, Write(command), ok, t.trace);
    done, prev := done + [Write(command)], t.trace;
    if !ok {
      return SpiError, done;
    }
    var i: nat := 0;
    while sizeToDo > 0
      invariant i <= |spans|
      invariant Min(i * chunk, size) + sizeToDo == size
      invariant |done| == 2 + i && prev == t.trace && t.isOpen == old(t.isOpen)
      invariant Progress(plan, t0, t.accepts, done, t.trace)
      decreases sizeToDo
    {
      var chunkSize := if sizeToDo < chunk then sizeToDo else chunk;
      var offset := i * chunk;
      ChunkAt(size, chunk, i, sizeToDo);
      var buf := data[offset..offset + chunkSize];
      ChunkWriteEvent(mode, target, address, arr, size, chunk, i, offset, chunkSize, buf);
      ok := t.FastWrite(buf);
      Advance(plan, t0, t.accepts, done, prev, Write(buf), ok, t.trace);
      done, prev := done + [Write(buf)], t.trace;
      if !ok {
        return SpiError, done;
      }
      DoneStep(i, chunk, size, sizeToDo, chunkSize);
      sizeToDo := sizeToDo - chunkSize;
      i := i + 1;
    }
    ChunkAt(size, chunk, i, sizeToDo);
    ok := t.Stop();
    Advance(plan, t0, t.accepts, done, prev, Stop, ok, t.trace);
    done := done + [Stop];
    if !ok {
      return SpiError, done;
    }
    return SpiSuccess, done;
  }

  /** lgw_spi_rb: read `size` bytes from one register address into
      data[0..size), in chunks. */
  method ReadBurst(t: Transport?, mode: bv8, target: bv8, address: bv8,
                   data: array?<bv8>, size: Uint16, chunk: nat)
    returns (status: Status, ghost done: seq<Event>)
    requires 0 < chunk
    requires data != null ==> size <= data.Length
    modifies t, data
    ensures t == null || data == null || size == 0 ==> status == SpiError && done == []
    ensures t != null ==> t.isOpen == old(t.isOpen) && t.trace == old(t.trace) + done
    ensures data != null && (t == null || size == 0) ==> unchanged(data)
    ensures t != null && data != null && size > 0 ==>
      Outcome(BurstReadPlan(mode, target, address, size, chunk), |old(t.trace)|,
              t.accepts, done, status == SpiSuccess) &&
      data[..] == Received(old(data[..]), chunk, |old(t.trace)| + 2, t.delivers, Filled(|done|, size, chunk))
    ensures status == SpiSuccess ==>
      t != null && data != null &&
      data[..] == Received(old(data[..]), chunk, |old(t.trace)| + 2, t.delivers, size)
  {
    done := [];
    if t == null || data == null || size == 0 {
      return SpiError, done;
    }
    var command := Header(mode, target, false, address);
    var sizeToDo: nat := size;
    ghost var t0 := t.trace;
    ghost var first := |t0| + 2;
    ghost var spans := Chunks(size, chunk);
    ghost var plan := BurstReadPlan(mode, target, address, size, chunk);
    ghost var before := data[..];
    ReceivedNone(before, chunk, first, t.delivers);
    Begin(plan, t0, t.accepts);
    ghost var prev := t.trace;
    var ok := t.Start();
    Advance(plan, t0, t.accepts, done, prev, Start, ok, t.trace);
    done, prev := done + [Start], t.trace;
    assert Filled(|done|, size, chunk) == 0 && data[..] == before;
    if !ok {
      return SpiError, done;
    }
    ok := t.FastWrite(command);
    Advance(plan, t0, t.accepts, done, prev, Write(command), ok, t.trace);
    done, prev := done + [Write(command)], t.trace;
    assert Filled(|done|, size, chunk) == 0 && data[..] == before;
    if !ok {
      return SpiError, done;
    }
    var i: nat := 0;
    while sizeToDo > 0
      invariant i <= |spans|
      invariant Min(i * chunk, size) + sizeToDo == size
      invariant |done| == 2 + i && prev == t.trace && t.isOpen == old(t.isOpen)
      invariant Progress(plan, t0, t.accepts, done, t.trace)
      invariant data[..] == Received(before, chunk, first, t.delivers, Min(i * chunk, size))
      decreases sizeToDo
    {
      var chunkSize := if sizeToDo < chunk then sizeToDo else chunk;
      var offset := i * chunk;
      ChunkAt(size, chunk, i, sizeToDo);
      ReceivedStep(before, chunk, first, t.delivers, i, size, data[..], offset, |prev|, chunkSize);
      ChunkReadEvent(mode, target, address, size, chunk, i, chunkSize);
      FilledStep(i, size, chunk);
      ok := t.FastRead(data, offset, chunkSize);
      Advance(plan, t0, t.accepts, done, prev, Read(chunkSize), ok, t.trace);
      done, prev := done + [Read(chunkSize)], t.trace;
      assert |done| == 3 + i;
      if !ok {
        return SpiError, done;
      }
      DoneStep(i, chunk, size, sizeToDo, chunkSize);
      sizeToDo := sizeToDo - chunkSize;
      i := i + 1;
    }
    ChunkAt(size, chunk, i, sizeToDo);
    FilledStep(i, size, chunk);
    ok := t.Stop();
    Advance(plan, t0, t.accepts, done, prev, Stop, ok, t.trace);
    done := done + [Stop];
    if !ok {
      return SpiError, done;
    }
    return SpiSuccess, done;
  }

  /** Chunk i of a burst read is a FastRead of that chunk's length. */
  lemma ChunkReadEvent(mode: bv8, target: bv8, address: bv8, size: nat, chunk: nat, i: nat, n: nat)
    requires 0 < chunk && i < |Chunks(size, chunk)| && Chunks(size, chunk)[i].len == n
    ensures BurstReadPlan(mode, target, address, size, chunk)[2 + i] == Read(n)
  {
  }

  /** After chunk read i (bus call 3 + i of the run), the filled part of
      the buffer ends with that chunk's window. */
  lemma FilledStep(i: nat, size: nat, chunk: nat)
    ensures Filled(3 + i, size, chunk) == Min((i + 1) * chunk, size)
    ensures Min(i * chunk, size) == size ==> Filled(3 + i, size, chunk) == size
  {
  }

  /** Chunk i of a burst write is the FastWrite of the payload bytes from
      offset i * chunk, here read straight from the caller's buffer `arr`. */
  lemma ChunkWriteEvent(mode: bv8, target: bv8, address: bv8, arr: seq<bv8>, size: nat, chunk: nat,
                        i: nat, lo: nat, n: nat, bytes: seq<bv8>)
    requires 0 < chunk && size <= |arr| && i < |Chunks(size, chunk)|
    requires Chunks(size, chunk)[i] == Span(lo, n) && lo + n <= size && bytes == arr[lo..lo + n]
    ensures BurstWritePlan(mode, target, address, arr[..size], chunk)[2 + i] == Write(bytes)
  {
  }

  /** Where each byte of a burst read buffer comes from: a filled byte p
      lies in the window of chunk i = p / chunk and is byte p - offset of
      that chunk's read, bus call first + i; every other byte, in particular
      every byte from `size` on, keeps its old value. */
  lemma ReceivedByte(buf: seq<bv8>, chunk: nat, first: nat, delivers: (int, int) -> bv8,
                     size: nat, upto: nat, p: nat)
    requires 0 < chunk && upto <= size <= |buf| && p < |buf|
    ensures p < upto ==>
      var i := p / chunk;
      i < |Chunks(size, chunk)| &&
      Chunks(size, chunk)[i].offset <= p < Chunks(size, chunk)[i].End() &&
      Received(buf, chunk, first, delivers, upto)[p] == delivers(first + i, p - Chunks(size, chunk)[i].offset)
    ensures upto <= p ==> Received(buf, chunk, first, delivers, upto)[p] == buf[p]
  {
    if p < upto {
      ChunkOf(size, chunk, p);
    }
  }

  /** Before any chunk read, the buffer is as it was. */
  lemma ReceivedNone(buf: seq<bv8>, chunk: nat, first: nat, delivers: (int, int) -> bv8)
    requires 0 < chunk
    ensures Received(buf, chunk, first, delivers, 0) == buf
  {
  }

  /** Chunk read j, of the window [j * chunk, min((j + 1) * chunk, size)),
      extends the filled part of the buffer to the end of that window. */
  lemma ReceivedStep(buf: seq<bv8>, chunk: nat, first: nat, delivers: (int, int) -> bv8,
                     j: nat, size: nat, prev: seq<bv8>, lo: nat, n: nat, count: nat)
    requires 0 < chunk && j * chunk < size <= |buf|
    requires prev == Received(buf, chunk, first, delivers, Min(j * chunk, size))
    requires lo == j * chunk && n == first + j && count == Min(size - lo, chunk)
    ensures lo + count <= |prev|
    ensures Overwrite(prev, lo, Response(delivers, n, count))
         == Received(buf, chunk, first, delivers, Min((j + 1) * chunk, size))
  {
    var hi := Min(size, lo + chunk);
    MulSucc(j, chunk);
    var r := Overwrite(prev, lo, Response(delivers, n, hi - lo));
    var want := Received(buf, chunk, first, delivers, hi);
    forall p | 0 <= p < |buf| ensures r[p] == want[p] {
      if lo <= p < hi {
        DivMod(p, chunk, j, p - lo);
      }
    }
  }

  // ---------------------------------------------------------------------
  // What the plans contain.

  /** Spans laid end to end from offset 0, each inside the payload. */
  ghost predicate Contiguous(payload: seq<bv8>, spans: seq<Span>)
  {
    (forall k :: 0 <= k < |spans| ==> spans[k].End() <= |payload|) &&
    (spans != [] ==> spans[0].offset == 0) &&
    (forall k :: 0 < k < |spans| ==> spans[k].offset == spans[k - 1].End())
  }

  /** The writes for the first m of a run of contiguous spans carry the
      payload up to where span m - 1 ends. */
  lemma {:induction false} ChunkWritesPrefix(payload: seq<bv8>, spans: seq<Span>, m: nat)
    requires Contiguous(payload, spans) && m <= |spans|
    ensures Payload(ChunkWrites(payload, spans)[..m])
         == payload[..if m == 0 then 0 else spans[m - 1].End()]
  {
    var evs := ChunkWrites(payload, spans);
    if m == 0 {
      assert evs[..0] == [];
    } else {
      ChunkWritesPrefix(payload, spans, m - 1);
      var lo, hi := spans[m - 1].offset, spans[m - 1].End();
      assert lo == if m == 1 then 0 else spans[m - 2].End();
      PayloadStep(evs, m, payload[lo..hi]);
      assert payload[..lo] + payload[lo..hi] == payload[..hi];
    }
  }

  /** The payload of m calls is that of the first m - 1 followed by the
      bytes of call m when it is a write. */
  lemma PayloadStep(evs: seq<Event>, m: nat, bytes: seq<bv8>)
    requires 0 < m <= |evs| && evs[m - 1] == Write(bytes)
    ensures Payload(evs[..m]) == Payload(evs[..m - 1]) + bytes
  {
    assert evs[..m][..m - 1] == evs[..m - 1];
  }

  /** A burst write transfers the payload exactly: the chunk writes between
      the header and Stop carry, in order, every payload byte once. */
  lemma BurstWriteCarriesPayload(mode: bv8, target: bv8, address: bv8, payload: seq<bv8>, chunk: nat)
    requires 0 < chunk
    ensures var plan := BurstWritePlan(mode, target, address, payload, chunk);
      Payload(plan[2..|plan| - 1]) == payload
  {
    var spans := Chunks(|payload|, chunk);
    ChunksTile(|payload|, chunk);
    var evs := ChunkWrites(payload, spans);
    var plan := BurstWritePlan(mode, target, address, payload, chunk);
    assert plan[2..|plan| - 1] == evs[..|spans|];
    ChunkWritesPrefix(payload, spans, |spans|);
    assert payload[..|payload|] == payload;
  }

  /** Call e is a write of 1 to chunk payload bytes, the ones from offset
      j * chunk on. */
  ghost predicate WritesChunk(payload: seq<bv8>, chunk: nat, j: nat, e: Event)
  {
    e.Write? && 0 < |e.bytes| <= chunk &&
    j * chunk + |e.bytes| <= |payload| &&
    e.bytes == payload[j * chunk..j * chunk + |e.bytes|]
  }

  /** A burst write is Start, the header, ceil(size / chunk) chunk writes of
      1 to chunk bytes each, where chunk k holds the bytes from offset
      k * chunk, and Stop. */
  lemma BurstWriteShape(mode: bv8, target: bv8, address: bv8, payload: seq<bv8>, chunk: nat)
    requires 0 < chunk
    ensures var plan := BurstWritePlan(mode, target, address, payload, chunk);
      |plan| == 3 + (|payload| + chunk - 1) / chunk &&
      plan[..2] == [Start, Write(Header(mode, target, true, address))] &&
      plan[|plan| - 1] == Stop &&
      forall k :: 2 <= k < |plan| - 1 ==> WritesChunk(payload, chunk, k - 2, plan[k])
  {
    ChunkCount(|payload|, chunk);
    ChunksTile(|payload|, chunk);
  }

  /** A burst read is Start, the header, one read per chunk, where read k
      is of chunk k's length (ceil(size / chunk) reads of 1 to chunk bytes),
      and Stop; the reads ask for size bytes in all. */
  lemma BurstReadShape(mode: bv8, target: bv8, address: bv8, size: nat, chunk: nat)
    requires 0 < chunk
    ensures var plan := BurstReadPlan(mode, target, address, size, chunk);
      |plan| == 3 + |Chunks(size, chunk)| &&
      |plan| == 3 + (size + chunk - 1) / chunk &&
      plan[..2] == [Start, Write(Header(mode, target, false, address))] &&
      plan[|plan| - 1] == Stop &&
      (forall k :: 2 <= k < |plan| - 1 ==> plan[k] == Read(Chunks(size, chunk)[k - 2].len)) &&
      (forall k :: 2 <= k < |plan| - 1 ==> 0 < plan[k].count <= chunk) &&
      ReadTotal(plan[2..|plan| - 1]) == size
  {
    var spans := Chunks(size, chunk);
    var plan := BurstReadPlan(mode, target, address, size, chunk);
    ChunkCount(size, chunk);
    ChunksTile(size, chunk);
    assert plan[2..|plan| - 1] == ChunkReads(spans)[..|spans|];
    ChunkReadsTotal(spans, |spans|);
    assert spans[..|spans|] == spans;
    ChunksSum(size, chunk);
  }

  /** The reads for the first m spans ask for as many bytes as those spans hold. */
  lemma {:induction false} ChunkReadsTotal(spans: seq<Span>, m: nat)
    requires m <= |spans|
    ensures ReadTotal(ChunkReads(spans)[..m]) == TotalLen(spans[..m])
  {
    if m > 0 {
      ChunkReadsTotal(spans, m - 1);
      var evs := ChunkReads(spans);
      assert evs[..m][..m - 1] == evs[..m - 1];
      assert spans[..m][..m - 1] == spans[..m - 1];
    }
  }

  /** Every register function runs inside a single Start ... Stop bracket. */
  lemma PlansBracketed(mode: bv8, target: bv8, address: bv8, data: bv8,
                       payload: seq<bv8>, size: nat, chunk: nat)
    requires 0 < chunk
    ensures Bracketed(WritePlan(mode, target, address, data))
    ensures Bracketed(ReadPlan(mode, target, address))
    ensures Bracketed(BurstWritePlan(mode, target, address, payload, chunk))
    ensures Bracketed(BurstReadPlan(mode, target, address, size, chunk))
  {
    var w := Header(mode, target, true, address);
    var r := Header(mode, target, false, address);
    ChunksTile(|payload|, chunk);
    Wrapped([Write(WriteFrame(mode, target, address, data))]);
    Wrapped([Write(r), Read(1)]);
    Wrapped([Write(w)] + ChunkWrites(payload, Chunks(|payload|, chunk)));
    Wrapped([Write(r)] + ChunkReads(Chunks(size, chunk)));
  }

  /** A write of 0xAB to register 0x10 outside MODE1 sends 0x90 0xAB. */
  lemma WriteExample()
    ensures WritePlan(0x00, 0x00, 0x10, 0xAB) == [Start, Write([0x90, 0xAB]), Stop]
  {
    assert Header(0x00, 0x00, true, 0x10) == [0x90];
    assert WriteFrame(0x00, 0x00, 0x10, 0xAB) == [0x90, 0xAB];
  }

  /** A MODE1 read of register 0x05 on target 0x01 sends 0x01 0x05 and reads one byte. */
  lemma ReadExample()
    ensures ReadPlan(LGW_SPI_MUX_MODE1, 0x01, 0x05) == [Start, Write([0x01, 0x05]), Read(1), Stop]
  {
  }

  /** A 65-byte burst to register 0x20 with 64-byte chunks sends 0xA0, then
      the first 64 bytes, then the last one. */
  lemma BurstExample(payload: seq<bv8>)
    requires |payload| == 65
    ensures BurstWritePlan(0x00, 0x00, 0x20, payload, 64)
         == [Start, Write([0xA0]), Write(payload[..64]), Write(payload[64..]), Stop]
  {
    assert Header(0x00, 0x00, true, 0x20) == [0xA0];
    ChunkAt(65, 64, 0, 65);
    ChunkAt(65, 64, 1, 1);
    ChunkAt(65, 64, 2, 0);
    var spans := Chunks(65, 64);
    var writes := ChunkWrites(payload, spans);
    assert writes[0] == Write(payload[..64]);
    assert writes[1] == Write(payload[64..]);
    assert writes == [Write(payload[..64]), Write(payload[64..])];
  }
}
