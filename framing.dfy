/**
 * Frame construction for register accesses on the concentrator's SPI bus
 * (libloragw/src/loragw_spi.mpsse.c).
 *
 * Every access starts with an optional mux-target byte, followed by an
 * access byte whose bit 7 is the direction (1 = write, 0 = read) and whose
 * low 7 bits are the register address.
 */
module Framing {

  datatype Option<T> = None | Some(value: T)

  /** Direction bit values of the access byte. */
  const READ_ACCESS: bv8 := 0x00
  const WRITE_ACCESS: bv8 := 0x80

  /** Mux mode in which a target-select byte precedes the access byte
      (its value is the one loragw_spi.h gives LGW_SPI_MUX_MODE1). */
  const LGW_SPI_MUX_MODE1: bv8 := 0x01

  /** The access byte: direction bit ORed with the low 7 bits of the address.
      An address with bit 7 set is accepted; that bit is simply dropped. */
  function AccessByte(write: bool, address: bv8): (b: bv8)
    ensures b & 0x7F == address & 0x7F
    ensures (b & 0x80 == 0x80) == write
  {
    (if write then WRITE_ACCESS else READ_ACCESS) | (address & 0x7F)
  }

  /** The command bytes sent before any payload: the mux target in MODE1,
      then the access byte. */
  function Header(mode: bv8, target: bv8, write: bool, address: bv8): (h: seq<bv8>)
    ensures |h| == if mode == LGW_SPI_MUX_MODE1 then 2 else 1
    ensures mode == LGW_SPI_MUX_MODE1 ==> h[0] == target
    ensures h[|h| - 1] & 0x7F == address & 0x7F
    ensures (h[|h| - 1] & 0x80 == 0x80) == write
  {
    if mode == LGW_SPI_MUX_MODE1 then [target, AccessByte(write, address)]
    else [AccessByte(write, address)]
  }

  /** The single frame of a simple write: header followed by the data byte. */
  function WriteFrame(mode: bv8, target: bv8, address: bv8, data: bv8): (f: seq<bv8>)
    ensures |f| == if mode == LGW_SPI_MUX_MODE1 then 3 else 2
    ensures mode == LGW_SPI_MUX_MODE1 ==> f[0] == target
    ensures f[|f| - 2] == 0x80 | (address & 0x7F)
    ensures f[|f| - 1] == data
  {
    Header(mode, target, true, address) + [data]
  }

  /** What the chip reads from a header: the mux target (MODE1 only), the
      direction and the 7-bit register address. */
  datatype Access = Access(target: Option<bv8>, write: bool, address: bv8)

  function ParseHeader(mode: bv8, h: seq<bv8>): Option<Access>
  {
    if mode == LGW_SPI_MUX_MODE1 then
      if |h| == 2 then Some(Access(Some(h[0]), h[1] & 0x80 == 0x80, h[1] & 0x7F)) else None
    else
      if |h| == 1 then Some(Access(None, h[0] & 0x80 == 0x80, h[0] & 0x7F)) else None
  }

  /** The chip recovers the target, the direction and the masked address
      from every header the driver builds. */
  lemma HeaderRoundTrip(mode: bv8, target: bv8, write: bool, address: bv8)
    ensures ParseHeader(mode, Header(mode, target, write, address))
         == Some(Access(if mode == LGW_SPI_MUX_MODE1 then Some(target) else None,
                        write, address & 0x7F))
  {
  }

  /** Conversely every parsable header is the one the driver builds for what
      it parses to, and the address it carries has bit 7 clear. */
  lemma ParseHeaderInverse(mode: bv8, h: seq<bv8>)
    requires ParseHeader(mode, h).Some?
    ensures var a := ParseHeader(mode, h).value;
      a.address & 0x80 == 0 &&
      (mode == LGW_SPI_MUX_MODE1 <==> a.target.Some?) &&
      Header(mode, if a.target.Some? then a.target.value else 0, a.write, a.address) == h
  {
  }

  /** Two headers built in the same mode are equal exactly when they carry
      the same direction, the same 7-bit address and (in MODE1) the same
      target. */
  lemma HeaderInjective(mode: bv8, t1: bv8, w1: bool, a1: bv8, t2: bv8, w2: bool, a2: bv8)
    ensures Header(mode, t1, w1, a1) == Header(mode, t2, w2, a2) <==>
      w1 == w2 && a1 & 0x7F == a2 & 0x7F && (mode == LGW_SPI_MUX_MODE1 ==> t1 == t2)
  {
  }
}
