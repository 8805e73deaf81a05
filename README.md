# SPI register access over an MPSSE bridge, in Dafny

A model of the register-access layer of the LoRa gateway library's SPI
driver for FTDI/MPSSE adapters (`libloragw/src/loragw_spi.mpsse.c`). The
layer offers four register operations:

- `lgw_spi_w`: write one register;
- `lgw_spi_r`: read one register;
- `lgw_spi_wb`: burst write;
- `lgw_spi_rb`: burst read.

It also has `lgw_spi_open` and `lgw_spi_close`. `Spi.Open` fails on a null
slot and on a device that the MPSSE library did not open; otherwise it stores
the device in the slot. `Spi.Close` fails on a null handle; otherwise it marks
the device closed.

Every register operation does the same four things:

1. It checks its arguments.
2. It builds a header. In mux mode `LGW_SPI_MUX_MODE1` the header starts
   with a target byte. It always ends with an access byte: bit 7 is the
   direction, the low 7 bits are the address.
3. It makes its bus calls between one `Start` and one `Stop`. Bursts split
   the payload into chunks of at most `LGW_BURST_CHUNK` bytes.
4. It returns `LGW_SPI_ERROR` at the first bus call that fails.

The project has four modules:

- `Framing` (framing.dfy): header and frame bytes, and a parser the headers
  round-trip through.
- `Chunking` (chunking.dfy): the spans that the burst loop transfers.
- `Bus` (bus.dfy): the adapter, seen as a `Transport` object. Each call
  (`Start`, `FastWrite`, `FastRead`, `Stop`) is appended to a trace.
  Whether the n-th call succeeds, and which bytes a read returns, come from
  an oracle fixed when the object is created. The module also holds the
  facts about running a sequence of calls that stops at the first failure.
- `Spi` (spi.dfy): the status codes, the six operations as methods, and the
  lemmas about what each operation sends.

Each register method is proved against a "plan": the calls a fully
successful run makes. Its postcondition, `Bus.Outcome`, says three things:

- the calls made are the plan up to and including the first call that
  fails;
- the trace is the old trace followed by those calls;
- the status is success exactly when every call of the plan succeeds.

`Bus.ExecutedRun` shows that only one sequence of calls fits that
description, and that it is `Bus.Executed` of the plan. The lemmas on
plans then give the frame bytes, the chunk layout and the single
Start…Stop bracket. The burst read also states the caller's buffer after
any run, as a function of the bytes the adapter delivered.

## Model

| member | source | states |
|---|---|---|
| Framing.AccessByte | libloragw/src/loragw_spi.mpsse.c:96-105 | the access byte keeps the address's low 7 bits, and bit 7 is set exactly for a write; an address with bit 7 set is accepted and that bit is dropped |
| Framing.Header | libloragw/src/loragw_spi.mpsse.c:187-194 | the command is 2 bytes starting with the mux target in MODE1 and 1 byte otherwise; its last byte carries the direction and the 7-bit address |
| Framing.WriteFrame | libloragw/src/loragw_spi.mpsse.c:103-112 | the simple write frame is 3 bytes (target, 0x80 with the 7-bit address, data) in MODE1 and 2 bytes otherwise, ending with 0x80 with the 7-bit address, then data |
| Framing.HeaderRoundTrip | libloragw/src/loragw_spi.mpsse.c:142-149 | the chip reads back from every header the target (MODE1 only), the direction and the address masked to 7 bits |
| Framing.ParseHeaderInverse | libloragw/src/loragw_spi.mpsse.c:239-246 | every header that parses is the one the driver builds for what it parses to, and the parsed address has bit 7 clear |
| Framing.HeaderInjective | libloragw/src/loragw_spi.mpsse.c:187-194 | two headers in the same mode are equal iff they have the same direction, the same 7-bit address and, in MODE1, the same target |
| Chunking.ChunksFrom | libloragw/src/loragw_spi.mpsse.c:200-207 | the transfers the burst loop still makes after i iterations with todo bytes left: min(todo, chunk) bytes at offset i * chunk, then the rest; there are none exactly when todo is 0 |
| Chunking.Chunks | libloragw/src/loragw_spi.mpsse.c:252-259 | the transfers of a whole burst of size bytes: the loop started with i = 0 and size_to_do = size |
| Chunking.ChunksFromShape | libloragw/src/loragw_spi.mpsse.c:200-207 | after i iterations with todo bytes left, the remaining chunks start at consecutive multiples of the chunk size, hold 1 to chunk bytes, each ends at the smaller of its offset plus chunk and the end of the data, and the last ends exactly there |
| Chunking.ChunksTile | libloragw/src/loragw_spi.mpsse.c:252-259 | chunk k starts at k * chunk, holds 1 to chunk bytes, ends at min(offset + chunk, size); each starts where the previous one ends; the first starts at 0 and the last ends at size |
| Chunking.DoneStep | libloragw/src/loragw_spi.mpsse.c:201-206 | the loop keeps size_to_do == size - min(i * chunk, size) across one iteration |
| Chunking.ChunkAt | libloragw/src/loragw_spi.mpsse.c:200-203 | with that invariant the loop goes on exactly while chunks remain, and iteration i transfers min(size_to_do, chunk) bytes at offset i * chunk |
| Chunking.ChunkCount | libloragw/src/loragw_spi.mpsse.c:200-207 | a burst of size bytes takes ceil(size / chunk) transfers |
| Chunking.ChunksPrefixEnd | libloragw/src/loragw_spi.mpsse.c:200-206 | the first m chunks hold min(m * chunk, size) bytes, and chunk m - 1 ends there |
| Chunking.ChunksSum | libloragw/src/loragw_spi.mpsse.c:252-259 | the chunk lengths add up to size |
| Chunking.CoverBound | libloragw/src/loragw_spi.mpsse.c:200-202 | the chunks reach at least to size: size <= number of chunks * chunk |
| Chunking.ChunkIndex | libloragw/src/loragw_spi.mpsse.c:202-203 | byte p lies in chunk number p / chunk, which exists |
| Chunking.ChunkOf | libloragw/src/loragw_spi.mpsse.c:252-256 | byte p of a burst travels in transfer p / chunk at position p % chunk |
| Bus.Transport.Start | libloragw/src/loragw_spi.mpsse.c:115 | Start appends one Start call to the trace, and its success is the oracle's verdict on that call |
| Bus.Transport.FastWrite | libloragw/src/loragw_spi.mpsse.c:116 | FastWrite appends a write of exactly the given bytes, and its success is the oracle's verdict |
| Bus.Transport.FastRead | libloragw/src/loragw_spi.mpsse.c:154 | FastRead appends a read of count bytes and puts the delivered bytes at buf[offset..offset + count), leaving the rest of buf as it was |
| Bus.Transport.Stop | libloragw/src/loragw_spi.mpsse.c:117 | Stop appends one Stop call, and its success is the oracle's verdict |
| Bus.Executed | libloragw/src/loragw_spi.mpsse.c:35 | running a plan makes its calls up to and including the first failure: a non-empty prefix when the plan is non-empty, all calls but the last succeeded, and the last failed unless the whole plan ran |
| Bus.ExecutedRun | libloragw/src/loragw_spi.mpsse.c:35 | the run described by Outcome is unique, and it is Executed of the plan (both directions) |
| Bus.RunSucceeds | libloragw/src/loragw_spi.mpsse.c:35 | every call of the plan succeeds iff the run made the whole plan and its last call succeeded |
| Bus.ExecutedUpTo | libloragw/src/loragw_spi.mpsse.c:115-117 | when call j is the first to fail, the calls made are exactly the first j + 1 calls of the plan |
| Bus.ExecutedAll | libloragw/src/loragw_spi.mpsse.c:115-117 | when no call fails, the whole plan is made |
| Bus.FailedAt | libloragw/src/loragw_spi.mpsse.c:35 | returning right after the first failing call, at call j, is an unsuccessful Outcome of plan[..j + 1] |
| Bus.Completed | libloragw/src/loragw_spi.mpsse.c:35 | a run in which every call succeeded is a successful Outcome of the whole plan |
| Bus.Advance | libloragw/src/loragw_spi.mpsse.c:35 | making the next call of the plan either continues the run, ends it with an error when the call fails, or ends it with success after the last call |
| Bus.Wrapped | libloragw/src/loragw_spi.mpsse.c:198-208 | writes and reads put between Start and Stop form one bracket with no Start or Stop inside |
| Bus.FailureSkipsStop | libloragw/src/loragw_spi.mpsse.c:198-208 | a bracketed plan fails iff its run never reaches Stop, or reaches it and the Stop itself fails |
| Spi.WritePlan | libloragw/src/loragw_spi.mpsse.c:115-117 | the bus calls of a single-register write: Start, one write of the frame, Stop |
| Spi.ReadPlan | libloragw/src/loragw_spi.mpsse.c:152-155 | the bus calls of a single-register read: Start, the read header, a one-byte read, Stop |
| Spi.BurstWritePlan | libloragw/src/loragw_spi.mpsse.c:198-208 | the bus calls of a burst write: Start, the write header, one write per chunk of the payload, Stop |
| Spi.BurstReadPlan | libloragw/src/loragw_spi.mpsse.c:250-260 | the bus calls of a burst read: Start, the read header, one read per chunk, Stop |
| Spi.Received | libloragw/src/loragw_spi.mpsse.c:253-256 | the caller's buffer, the same length as before, once its first upto bytes are received: byte p is byte p % chunk of chunk read p / chunk, the rest as it was |
| Spi.Filled | libloragw/src/loragw_spi.mpsse.c:253-256 | how many buffer bytes a burst read has filled after a given number of bus calls: none before the first chunk read, then min((calls - 2) * chunk, size) |
| Spi.Open | libloragw/src/loragw_spi.mpsse.c:46-69 | a null slot is an error; otherwise success iff the library returned an open device, and only then is it stored in the slot |
| Spi.Close | libloragw/src/loragw_spi.mpsse.c:74-84 | a null handle is an error; otherwise the device is closed, the call succeeds, and no bus call is made |
| Spi.WriteRegister | libloragw/src/loragw_spi.mpsse.c:88-121 | a null handle is an error with no bus call; otherwise the trace grows by the run of Start, the write frame and Stop, cut at the first failure, and success means every one of those calls succeeded |
| Spi.ReadRegister | libloragw/src/loragw_spi.mpsse.c:126-160 | a null handle or data pointer is an error with no bus call; otherwise the run of Start, the read header, a one-byte read and Stop; *data becomes the byte read only on success and is unchanged on any failure |
| Spi.WriteBurst | libloragw/src/loragw_spi.mpsse.c:165-212 | a null handle, a null data pointer or size 0 is an error with no bus call; otherwise the run of Start, the write header, one write per chunk of data[0..size) and Stop, stopping at the first failure |
| Spi.ReadBurst | libloragw/src/loragw_spi.mpsse.c:217-264 | the same error cases, untouched buffer, then the run of Start, the read header, one read per chunk and Stop; after any run, data holds the delivered bytes for exactly the chunks read and is unchanged elsewhere; on success data[0..size) is fully received |
| Spi.ChunkReadEvent | libloragw/src/loragw_spi.mpsse.c:253-256 | call 2 + i of a burst read is a read of chunk i's length |
| Spi.ChunkWriteEvent | libloragw/src/loragw_spi.mpsse.c:201-204 | call 2 + i of a burst write is a write of the buffer bytes from i * chunk for chunk i's length |
| Spi.FilledStep | libloragw/src/loragw_spi.mpsse.c:252-259 | after chunk read i the first min((i + 1) * chunk, size) bytes are filled, and all size bytes once the loop ends |
| Spi.ReceivedNone | libloragw/src/loragw_spi.mpsse.c:250-251 | before any chunk read, the buffer is as it was |
| Spi.ReceivedStep | libloragw/src/loragw_spi.mpsse.c:253-256 | chunk read j, written at offset j * chunk, extends the received part of the buffer to the end of chunk j's window and changes nothing else |
| Spi.ReceivedByte | libloragw/src/loragw_spi.mpsse.c:252-256 | a received byte p comes from the read of the chunk whose window holds p, at position p minus that chunk's offset; every other byte, including all from size on, is unchanged |
| Spi.ChunkWritesPrefix | libloragw/src/loragw_spi.mpsse.c:200-207 | the writes for the first m of a run of contiguous spans carry the payload up to the end of span m - 1, in order |
| Spi.BurstWriteCarriesPayload | libloragw/src/loragw_spi.mpsse.c:198-208 | the chunk writes between the header and Stop carry the payload exactly: every byte once, in order |
| Spi.BurstWriteShape | libloragw/src/loragw_spi.mpsse.c:186-208 | a burst write is Start, the write header, ceil(size / chunk) writes of 1 to chunk bytes where write k holds the bytes from offset k * chunk, then Stop |
| Spi.BurstReadShape | libloragw/src/loragw_spi.mpsse.c:238-260 | a burst read is Start, the read header, one read per chunk (ceil(size / chunk) of them), read k asking for exactly chunk k's length of 1 to chunk bytes, then Stop; the reads between the header and Stop ask for size bytes in all |
| Spi.ChunkReadsTotal | libloragw/src/loragw_spi.mpsse.c:252-259 | the reads for the first m chunks ask for as many bytes as those chunks hold |
| Spi.PlansBracketed | libloragw/src/loragw_spi.mpsse.c:250-260 | all four operations make their calls inside a single Start…Stop bracket with no Start or Stop in between |
| Spi.WriteExample | libloragw/src/loragw_spi.mpsse.c:108-117 | writing 0xAB to register 0x10 outside MODE1 sends Start, [0x90, 0xAB], Stop |
| Spi.ReadExample | libloragw/src/loragw_spi.mpsse.c:142-155 | a MODE1 read of register 0x05 on target 0x01 sends Start, [0x01, 0x05], a one-byte read, Stop |
| Spi.BurstExample | libloragw/src/loragw_spi.mpsse.c:187-208 | a 65-byte burst write to register 0x20 with 64-byte chunks sends [0xA0], then 64 bytes, then the last byte |

## Left out

- The libmpsse calls behind open and close are not modelled: `MPSSE`, `SetCSIdle`, `FlushAfterRead`, `Close`, `GetDescription`, `GetClock`. `Spi.Open` takes the device the library returned as a parameter. `Spi.Close` only clears the device's open flag.
- What Start, FastWrite, FastRead and Stop do on the wire (USB and FTDI I/O) is not modelled. Each call is an entry in the trace; its success and the bytes a read returns come from the `Transport` oracle.
- Spi.ReadBurst: when a chunk read fails, the model puts the oracle's bytes into the whole window of that read. What a failing adapter read leaves in the buffer is not known, so the contract says nothing more precise about that window.
- The debug output is left out, because it does not affect control flow. This covers `DEBUG_MSG`, `DEBUG_PRINTF`, `ErrorString` and the warning for an address above 127.
- The clock speed and bit order (`SPI_SPEED`, `MSB`) are hardware settings with no logic in this file, so they are left out.
- C `char` and `uint8_t` casts are not modelled; every buffer byte is a `bv8`.
- `LGW_BURST_CHUNK` is defined in loragw_spi.h, which is not part of this model. It is a positive parameter `chunk` of the burst operations.
- `LGW_SPI_MUX_MODE1` also comes from loragw_spi.h and is the constant 0x01. Any other mode value gets the one-byte header, as in the code.
- Error kinds are not told apart. The code returns `LGW_SPI_ERROR` on every failure: a null pointer, a zero-length burst and any failing bus call (libloragw/src/loragw_spi.mpsse.c:32, 35, 179-182, 231-234). The model has a single `SpiError`.
- The size of a burst is a `uint16_t` (`Spi.Uint16`). The C `int` arithmetic on offsets cannot overflow for such sizes, so it is not modelled separately.
