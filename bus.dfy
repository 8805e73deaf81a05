/**
 * The SPI bridge as the register functions see it: an open device on which
 * they call Start, FastWrite, FastRead and Stop. The adapter itself (USB and
 * FTDI I/O) is not modelled; each call is recorded in an append-only trace,
 * and whether it succeeds, and which bytes a read returns, come from an
 * oracle fixed when the device is created.
 */
module Bus {

  /** One call made on the bus bridge. */
  datatype Event =
    | Start                     // assert chip select
    | Write(bytes: seq<bv8>)    // FastWrite of these bytes
    | Read(count: nat)          // FastRead of count bytes
    | Stop                      // release chip select

  /** The bytes that the n-th bus call returns when it is a read of `count` bytes. */
  function Response(delivers: (int, int) -> bv8, n: nat, count: nat): (bytes: seq<bv8>)
    ensures |bytes| == count
    ensures forall j :: 0 <= j < count ==> bytes[j] == delivers(n, j)
  {
    seq(count, j requires 0 <= j < count => delivers(n, j))
  }

  /** `buf` with `bytes` copied in at `offset`. */
  function Overwrite(buf: seq<bv8>, offset: nat, bytes: seq<bv8>): (r: seq<bv8>)
    requires offset + |bytes| <= |buf|
    ensures |r| == |buf|
    ensures forall p :: 0 <= p < |buf| ==>
      r[p] == if offset <= p < offset + |bytes| then bytes[p - offset] else buf[p]
  {
    buf[..offset] + bytes + buf[offset + |bytes|..]
  }

  /** An open bridge device (the libmpsse context behind spi_target). */
  class Transport {
    /** Every call made on the device so far, oldest first. */
    var trace: seq<Event>
    /** The context's `open` flag. */
    var isOpen: bool
    /** Whether the n-th call made on the device succeeds. */
    const accepts: nat -> bool
    /** Byte j returned by the n-th call, when that call is a read. */
    const delivers: (int, int) -> bv8

    /** A device as the MPSSE library returns it, with its `open` flag. */
    constructor (open: bool, accepts: nat -> bool, delivers: (int, int) -> bv8)
      ensures trace == [] && isOpen == open
      ensures this.accepts == accepts && this.delivers == delivers
    {
      trace := [];
      isOpen := open;
      this.accepts := accepts;
      this.delivers := delivers;
    }

    method Start() returns (ok: bool)
      modifies this`trace
      ensures trace == old(trace) + [Event.Start]
      ensures ok == accepts(|old(trace)|)
    {
      ok := accepts(|trace|);
      trace := trace + [Event.Start];
    }

    method FastWrite(bytes: seq<bv8>) returns (ok: bool)
      modifies this`trace
      ensures trace == old(trace) + [Write(bytes)]
      ensures ok == accepts(|old(trace)|)
    {
      ok := accepts(|trace|);
      trace := trace + [Write(bytes)];
    }

    /** Reads `count` bytes into buf[offset..offset + count). Whatever the
        adapter delivered lands there even when the call fails. */
    method FastRead(buf: array<bv8>, offset: nat, count: nat) returns (ok: bool)
      requires offset + count <= buf.Length
      modifies this`trace, buf
      ensures trace == old(trace) + [Read(count)]
      ensures ok == accepts(|old(trace)|)
      ensures buf[..] == Overwrite(old(buf[..]), offset, Response(delivers, |old(trace)|, count))
    {
      ok := accepts(|trace|);
      var bytes := Response(delivers, |trace|, count);
      forall p | offset <= p < offset + count {
        buf[p] := bytes[p - offset];
      }
      trace := trace + [Read(count)];
    }

    method Stop() returns (ok: bool)
      modifies this`trace
      ensures trace == old(trace) + [Event.Stop]
      ensures ok == accepts(|old(trace)|)
    {
      ok := accepts(|trace|);
      trace := trace + [Event.Stop];
    }
  }

  /** Every bus call numbered in [lo, hi) succeeds. */
  ghost predicate AcceptedRange(accepts: nat -> bool, lo: nat, hi: int)
  {
    forall n :: lo <= n < hi ==> accepts(n)
  }

  /** The calls actually made when a register function runs the sequence
      `plan` starting at call number `base`: the plan up to and including
      the first call that fails, since every failure returns at once. */
  function Executed(plan: seq<Event>, base: nat, accepts: nat -> bool): (done: seq<Event>)
    ensures |done| <= |plan| && done == plan[..|done|]
    ensures (done == []) == (plan == [])
    ensures AcceptedRange(accepts, base, base + |done| - 1)
    ensures |done| < |plan| ==> !accepts(base + |done| - 1)
    decreases |plan|
  {
    if plan == [] then []
    else if !accepts(base) then [plan[0]]
    else [plan[0]] + Executed(plan[1..], base + 1, accepts)
  }

  /** `done` is what running `plan` from call number `base` leaves on the
      bus: a non-empty prefix of the plan in which every call but the last
      succeeded, and the last failed unless the whole plan ran. */
  ghost predicate RanUntilFailure(plan: seq<Event>, base: nat, accepts: nat -> bool, done: seq<Event>)
  {
    0 < |done| <= |plan| && done == plan[..|done|] &&
    AcceptedRange(accepts, base, base + |done| - 1) &&
    (|done| < |plan| ==> !accepts(base + |done| - 1))
  }

  /** What a register function reports about running `plan`: the calls
      `done` it made, and success exactly when every call of the plan succeeds. */
  ghost predicate Outcome(plan: seq<Event>, base: nat, accepts: nat -> bool, done: seq<Event>, success: bool)
  {
    RanUntilFailure(plan, base, accepts, done) &&
    (success <==> AcceptedRange(accepts, base, base + |plan|))
  }

  /** A run that stops at call j because it failed. */
  lemma FailedAt(plan: seq<Event>, base: nat, accepts: nat -> bool, j: nat)
    requires j < |plan| && AcceptedRange(accepts, base, base + j) && !accepts(base + j)
    ensures Outcome(plan, base, accepts, plan[..j + 1], false)
  {
  }

  /** A run in which every call succeeded. */
  lemma Completed(plan: seq<Event>, base: nat, accepts: nat -> bool)
    requires plan != [] && AcceptedRange(accepts, base, base + |plan|)
    ensures Outcome(plan, base, accepts, plan, true)
  {
  }

  /** A register function part-way through `plan`: the trace is the trace
      `t0` it started from followed by the calls `done`, which are the first
      calls of the plan, and all of them succeeded. */
  ghost predicate Progress(plan: seq<Event>, t0: seq<Event>, accepts: nat -> bool, done: seq<Event>, trace: seq<Event>)
  {
    |done| <= |plan| && done == plan[..|done|] && trace == t0 + done &&
    AcceptedRange(accepts, |t0|, |t0| + |done|)
  }

  lemma Begin(plan: seq<Event>, t0: seq<Event>, accepts: nat -> bool)
    ensures Progress(plan, t0, accepts, [], t0)
  {
  }

  /** Making the next call `e` of the plan: on success the run goes on, on
      failure it ends with an error, and after the last call it ends with
      success. */
  lemma Advance(plan: seq<Event>, t0: seq<Event>, accepts: nat -> bool, done: seq<Event>,
                prev: seq<Event>, e: Event, ok: bool, next: seq<Event>)
    requires Progress(plan, t0, accepts, done, prev) && |done| < |plan| && e == plan[|done|]
    requires next == prev + [e] && ok == accepts(|prev|)
    ensures next == t0 + (done + [e])
    ensures ok ==> Progress(plan, t0, accepts, done + [e], next)
    ensures !ok ==> Outcome(plan, |t0|, accepts, done + [e], false)
    ensures ok && |done| + 1 == |plan| ==> Outcome(plan, |t0|, accepts, done + [e], true)
  {
  }

  /** The run of a non-empty plan is unique and is the one Executed computes. */
  lemma ExecutedRun(plan: seq<Event>, base: nat, accepts: nat -> bool, done: seq<Event>)
    requires plan != []
    ensures RanUntilFailure(plan, base, accepts, done) <==> done == Executed(plan, base, accepts)
  {
  }

  /** The whole plan ran exactly when every call of it succeeded. */
  lemma RunSucceeds(plan: seq<Event>, base: nat, accepts: nat -> bool, done: seq<Event>)
    requires RanUntilFailure(plan, base, accepts, done)
    ensures AcceptedRange(accepts, base, base + |plan|) <==> done == plan && accepts(base + |plan| - 1)
  {
  }

  /** Execution stops exactly at the first failing call... */
  lemma ExecutedUpTo(plan: seq<Event>, base: nat, accepts: nat -> bool, j: nat)
    requires j < |plan| && AcceptedRange(accepts, base, base + j) && !accepts(base + j)
    ensures Executed(plan, base, accepts) == plan[..j + 1]
  {
  }

  /** ...and runs the whole plan when no call fails. */
  lemma ExecutedAll(plan: seq<Event>, base: nat, accepts: nat -> bool)
    requires AcceptedRange(accepts, base, base + |plan|)
    ensures Executed(plan, base, accepts) == plan
  {
  }

  /** A plan is one chip-select bracket: it opens with Start, closes with
      Stop, and has neither in between. */
  ghost predicate Bracketed(plan: seq<Event>)
  {
    |plan| >= 2 && plan[0] == Start && plan[|plan| - 1] == Stop &&
    forall k :: 0 < k < |plan| - 1 ==> plan[k] != Start && plan[k] != Stop
  }

  /** The plan that makes the calls `mid` between Start and Stop. */
  function Bracket(mid: seq<Event>): seq<Event>
  {
    [Start] + mid + [Stop]
  }

  /** Calls that are neither Start nor Stop, put between Start and Stop,
      make one bracket. */
  lemma Wrapped(mid: seq<Event>)
    requires forall k :: 0 <= k < |mid| ==> mid[k].Write? || mid[k].Read?
    ensures Bracketed(Bracket(mid))
  {
  }

  /** When a bracketed plan fails, the bus is left without its Stop (unless
      the Stop itself was the failing call), and a successful run is the
      whole bracket. */
  lemma FailureSkipsStop(plan: seq<Event>, base: nat, accepts: nat -> bool)
    requires Bracketed(plan)
    ensures var done := Executed(plan, base, accepts);
      !AcceptedRange(accepts, base, base + |plan|) <==>
        (Stop !in done || (done == plan && !accepts(base + |plan| - 1)))
  {
  }
}
