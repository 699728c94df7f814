/**
 * The echo-request encoder of `Pinger.send_icmp` and the reply decoder of
 * `Pinger.receive_icmp` (RFC 792 Echo messages behind a 20-byte IPv4 header).
 *
 * `struct` packs in the host's native order, so the identifier and sequence
 * go on the wire in host order; only the checksum is passed through `htons`.
 * The 8-byte send timestamp (`struct.pack("d", time.time())`) is opaque bytes.
 */
module Icmp {
  import opened Bytes
  import opened Outcomes
  import opened Checksums

  /** `ICMP_ECHO_REQUEST`. */
  const EchoRequestType: int8 := 8
  /** An IPv4 header with IHL 5 (RFC 791 section 3.1), skipped by `recv_packet[20:28]`. */
  const IpHeaderLength: nat := 20
  /** `struct.calcsize("bbHHh")`. */
  const HeaderLength: nat := 8
  /** `struct.calcsize("d")`. */
  const StampLength: nat := 8
  /** `(192 - bytes_In_double) * "Q"`. */
  const FillerLength: nat := 184
  /** The byte of `"Q"`. */
  const FillerByte: byte := 0x51
  /** The sequence number every request carries. */
  const RequestSequence: int16 := 1

  /** The fields of format `"bbHHh"`: type, code, checksum, identifier, sequence. */
  datatype IcmpHeader = IcmpHeader(icmpType: int8, code: int8, checksum: uint16, identifier: uint16, sequence: int16)

  /** `struct.error`: the slice handed to `struct.unpack` has the wrong size. */
  datatype DecodeError = StructError

  /** `struct.pack("bbHHh", ...)` in native order. */
  function PackHeader(h: IcmpHeader, host: ByteOrder): (r: seq<byte>)
    ensures |r| == HeaderLength
    ensures UnpackHeader(r, host) == h
  {
    var ck, id, sq := PackU16(h.checksum, host), PackU16(h.identifier, host), PackI16(h.sequence, host);
    var r := [PackI8(h.icmpType), PackI8(h.code)] + ck + id + sq;
    assert r[2..4] == ck && r[4..6] == id && r[6..8] == sq;
    r
  }

  /** `struct.unpack("bbHHh", ...)` of exactly eight bytes. */
  function UnpackHeader(b: seq<byte>, host: ByteOrder): IcmpHeader
    requires |b| == HeaderLength
  {
    IcmpHeader(UnpackI8(b[0]), UnpackI8(b[1]), UnpackU16(b[2..4], host), UnpackU16(b[4..6], host),
               UnpackI16(b[6..8], host))
  }

  /** Every eight bytes are the packing of exactly one header. */
  lemma PackUnpackHeader(b: seq<byte>, host: ByteOrder)
    requires |b| == HeaderLength
    ensures PackHeader(UnpackHeader(b, host), host) == b
  {
    var h := UnpackHeader(b, host);
    UnpackPackU16(b[2..4], host);
    UnpackPackU16(b[4..6], host);
    UnpackPackU16(b[6..8], host);
    assert PackI16(h.sequence, host) == b[6..8];
    assert PackHeader(h, host) == [b[0], b[1]] + b[2..4] + b[4..6] + b[6..8];
  }

  /** The payload: the send timestamp followed by 184 bytes of `'Q'`. */
  function EchoData(stamp: seq<byte>): (d: seq<byte>)
    requires |stamp| == StampLength
    ensures |d| == StampLength + FillerLength
    ensures d[..StampLength] == stamp
    ensures forall i :: StampLength <= i < |d| ==> d[i] == FillerByte
  {
    stamp + seq(FillerLength, _ => FillerByte)
  }

  /** The header with the checksum placeholder 0 that the checksum is computed over. */
  function ZeroedRequest(id: uint16, stamp: seq<byte>, host: ByteOrder): seq<byte>
    requires |stamp| == StampLength
  {
    PackHeader(IcmpHeader(EchoRequestType, 0, 0, id, RequestSequence), host) + EchoData(stamp)
  }

  /**
   * `send_icmp`'s packet: 200 bytes, type 8, code 0, `do_checksum` of the
   * zeroed packet (even in length, so it does not raise) passed through `htons`, the identifier, sequence 1, the timestamp
   * and the filler.
   */
  function EncodeRequest(id: uint16, stamp: seq<byte>, host: ByteOrder): (pkt: seq<byte>)
    requires |stamp| == StampLength
    ensures |pkt| == HeaderLength + StampLength + FillerLength
    ensures pkt[0] == 8 && pkt[1] == 0
    ensures UnpackU16(pkt[4..6], host) == id && UnpackI16(pkt[6..8], host) == 1
    ensures pkt[HeaderLength..HeaderLength + StampLength] == stamp
    ensures forall i :: HeaderLength + StampLength <= i < |pkt| ==> pkt[i] == FillerByte
  {
    var data := EchoData(stamp);
    var cksum := Checksum(ZeroedRequest(id, stamp, host)).value;
    var header := PackHeader(IcmpHeader(EchoRequestType, 0, Htons(cksum, host), id, RequestSequence), host);
    assert header[4..6] == PackU16(id, host) && header[6..8] == PackI16(RequestSequence, host);
    assert (header + data)[4..6] == header[4..6] && (header + data)[6..8] == header[6..8];
    header + data
  }

  /**
   * Round trip of the checksum: re-running `do_checksum` over the packet
   * `send_icmp` builds gives 0, on either host byte order, and the packet's
   * RFC 1071 Internet checksum is 0 as well.
   */
  lemma EchoChecksumVerifies(id: uint16, stamp: seq<byte>, host: ByteOrder)
    requires |stamp| == StampLength
    ensures Checksum(EncodeRequest(id, stamp, host)) == Ok(0)
    ensures InternetChecksum(EncodeRequest(id, stamp, host)) == 0
  {
    var z := ZeroedRequest(id, stamp, host);
    var p := EncodeRequest(id, stamp, host);
    var cksum := Checksum(z).value;
    PackedHtonsReadsSwapped(cksum, host);
    ChecksumOfCompletedBuffer(z, p, 1);
    ChecksumIsInternetChecksum(p);
  }

  /** `recv_packet[20:28]` unpacked as `"bbHHh"`. */
  function DecodeHeader(pkt: seq<byte>, host: ByteOrder): (r: Result<IcmpHeader, DecodeError>)
    ensures r.Ok? <==> |pkt| >= IpHeaderLength + HeaderLength
    ensures r.Ok? ==> PackHeader(r.value, host) == pkt[IpHeaderLength..IpHeaderLength + HeaderLength]
  {
    if |pkt| < IpHeaderLength + HeaderLength then Err(StructError)
    else
      var b := pkt[IpHeaderLength..IpHeaderLength + HeaderLength];
      PackUnpackHeader(b, host);
      Ok(UnpackHeader(b, host))
  }

  /** `recv_packet[28:36]`, the echoed send timestamp, unpacked as `"d"`. */
  function DecodeStamp(pkt: seq<byte>): (r: Result<seq<byte>, DecodeError>)
    ensures r.Ok? <==> |pkt| >= IpHeaderLength + HeaderLength + StampLength
    ensures r.Ok? ==> r.value == pkt[IpHeaderLength + HeaderLength..IpHeaderLength + HeaderLength + StampLength]
  {
    var start := IpHeaderLength + HeaderLength;
    if |pkt| < start + StampLength then Err(StructError) else Ok(pkt[start..start + StampLength])
  }

  /**
   * Round trip of the codec: behind any 20 bytes, the decoder recovers the
   * request's type, code, identifier, sequence 1 and timestamp bytes.
   */
  lemma RequestRoundTrip(ipHeader: seq<byte>, id: uint16, stamp: seq<byte>, host: ByteOrder)
    requires |ipHeader| == IpHeaderLength && |stamp| == StampLength
    ensures var pkt := ipHeader + EncodeRequest(id, stamp, host);
      && DecodeHeader(pkt, host).Ok?
      && DecodeHeader(pkt, host).value.icmpType == EchoRequestType
      && DecodeHeader(pkt, host).value.code == 0
      && DecodeHeader(pkt, host).value.identifier == id
      && DecodeHeader(pkt, host).value.sequence == RequestSequence
      && DecodeStamp(pkt) == Ok(stamp)
  {
    var req := EncodeRequest(id, stamp, host);
    var pkt := ipHeader + req;
    var b := pkt[20..28];
    assert b == req[..8];
    assert b[0] == 8 && b[1] == 0;
    assert b[4..6] == req[4..6] && b[6..8] == req[6..8];
    var h := UnpackHeader(b, host);
    assert DecodeHeader(pkt, host) == Ok(h);
    assert h.icmpType == 8 && h.code == 0 && h.identifier == id && h.sequence == 1;
    assert pkt[28..36] == req[8..16];
  }
}
