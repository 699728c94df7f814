/** Byte-level vocabulary of Python's `struct` module as the prober uses it. */
module Bytes {

  type byte = x: int | 0 <= x < 0x100
  type uint16 = x: int | 0 <= x < 0x1_0000
  type int8 = x: int | -0x80 <= x < 0x80
  type int16 = x: int | -0x8000 <= x < 0x8000

  /** The host's native byte order, which `struct` uses when no prefix is given. */
  datatype ByteOrder = LittleEndian | BigEndian

  /** Exchanges the two bytes of a 16-bit value. */
  function Swap16(v: uint16): (r: uint16)
    ensures r / 0x100 == v % 0x100 && r % 0x100 == v / 0x100
  {
    (v % 0x100) * 0x100 + v / 0x100
  }

  lemma SwapInvolution(v: uint16)
    ensures Swap16(Swap16(v)) == v
  {
  }

  /** `socket.htons`: the identity on a big-endian host, a byte swap on a little-endian one. */
  function Htons(v: uint16, host: ByteOrder): (r: uint16)
    ensures host == BigEndian ==> r == v
    ensures host == LittleEndian ==> r / 0x100 == v % 0x100 && r % 0x100 == v / 0x100
  {
    if host == LittleEndian then Swap16(v) else v
  }

  /** Format code `H` in native order. */
  function PackU16(v: uint16, host: ByteOrder): (r: seq<byte>)
    ensures |r| == 2
    ensures UnpackU16(r, host) == v
  {
    match host
    case LittleEndian => [v % 0x100, v / 0x100]
    case BigEndian => [v / 0x100, v % 0x100]
  }

  function UnpackU16(b: seq<byte>, host: ByteOrder): uint16
    requires |b| == 2
  {
    match host
    case LittleEndian => b[0] as int + 0x100 * b[1] as int
    case BigEndian => 0x100 * b[0] as int + b[1] as int
  }

  lemma UnpackPackU16(b: seq<byte>, host: ByteOrder)
    requires |b| == 2
    ensures PackU16(UnpackU16(b, host), host) == b
  {
  }

  /** Two's-complement reading and writing of a signed 16-bit value (format code `h`). */
  function PackI16(v: int16, host: ByteOrder): (r: seq<byte>)
    ensures |r| == 2
    ensures UnpackI16(r, host) == v
  {
    PackU16(if v < 0 then v + 0x1_0000 else v, host)
  }

  function UnpackI16(b: seq<byte>, host: ByteOrder): int16
    requires |b| == 2
  {
    var u := UnpackU16(b, host);
    if u < 0x8000 then u else u - 0x1_0000
  }

  /** Format code `b`: one signed byte, independent of byte order. */
  function PackI8(v: int8): (r: byte)
    ensures UnpackI8(r) == v
  {
    if v < 0 then v + 0x100 else v
  }

  function UnpackI8(b: byte): int8
  {
    if b < 0x80 then b else b - 0x100
  }

  /**
   * The value `in_cksum` reads from a packed 16-bit field: the low byte first.
   * Whatever the host order, packing `htons(v)` in native order puts the
   * swapped value there, which is what the checksum round trip relies on.
   */
  lemma PackedHtonsReadsSwapped(v: uint16, host: ByteOrder)
    ensures var b := PackU16(Htons(v, host), host); b[0] as int + 0x100 * b[1] as int == Swap16(v)
  {
  }
}
