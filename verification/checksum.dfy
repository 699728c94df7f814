/**
 * `Pinger.do_checksum`, the `in_cksum` routine of ping.c, and the Internet
 * checksum of RFC 1071 it is meant to compute.
 *
 * The source reads the buffer as little-endian 16-bit words, keeps a running
 * sum masked to 32 bits, folds the carries back twice, complements the low 16
 * bits and finally swaps the two bytes of the result.  RFC 1071 defines the
 * checksum over network-order (big-endian) words with end-around carry; the
 * byte swap is justified by the byte-order independence of section 2(B).
 */
module Checksums {
  import opened Bytes
  import opened Outcomes

  /** The modulus of `sums & 0xffffffff`. */
  const Mask32: nat := 0x1_0000_0000

  /** The longest buffer whose 32-bit running sum never wraps: 65537 words of at most 0xFFFF. */
  const MaxUnmaskedLength: nat := 131074

  /** Reading `source_string[count + 1]` one past the end of an odd-length buffer. */
  datatype ChecksumError = IndexOutOfRange

  /** The words the source's loop reads: `source_string[count + 1] * 256 + source_string[count]`. */
  function LeWords(b: seq<byte>): (ws: seq<uint16>)
    ensures |ws| == |b| / 2
    ensures forall k :: 0 <= k < |ws| ==> ws[k] == b[2 * k] as int + 0x100 * b[2 * k + 1] as int
  {
    seq(|b| / 2, k requires 0 <= k < |b| / 2 => b[2 * k] as int + 0x100 * b[2 * k + 1] as int)
  }

  /** The words of network byte order, high byte first, as RFC 1071 sums them. */
  function BeWords(b: seq<byte>): (ws: seq<uint16>)
    ensures |ws| == |b| / 2
    ensures forall k :: 0 <= k < |ws| ==> ws[k] == 0x100 * b[2 * k] as int + b[2 * k + 1] as int
  {
    seq(|b| / 2, k requires 0 <= k < |b| / 2 => 0x100 * b[2 * k] as int + b[2 * k + 1] as int)
  }

  /** The exact sum of a word sequence. */
  function Sum(ws: seq<uint16>): nat
  {
    if ws == [] then 0 else Sum(ws[..|ws| - 1]) + ws[|ws| - 1]
  }

  /** The source's running sum: every addition is followed by `& 0xffffffff`. */
  function MaskedSum(ws: seq<uint16>): (s: nat)
    ensures s < Mask32
  {
    if ws == [] then 0 else (MaskedSum(ws[..|ws| - 1]) + ws[|ws| - 1]) % Mask32
  }

  /** The two carry folds of the source followed by truncation to 16 bits. */
  function Fold(s: nat): uint16
  {
    var f1 := s / 0x1_0000 + s % 0x1_0000;
    var f2 := f1 + f1 / 0x1_0000;
    f2 % 0x1_0000
  }

  /**
   * `Pinger.do_checksum` as written for Python 3.  `(len / 2) * 2` is a float
   * equal to the length, so an odd-length buffer makes the loop read one byte
   * past the end and the odd-byte branch is never reached.
   */
  function Checksum(b: seq<byte>): (r: Result<uint16, ChecksumError>)
    ensures r.Ok? <==> |b| % 2 == 0
  {
    if |b| % 2 == 1 then Err(IndexOutOfRange)
    else Ok(Swap16(0xFFFF - Fold(MaskedSum(LeWords(b)))))
  }

  /** `do_checksum` as its comments intend: integer halving, and a trailing odd byte added on its own. */
  function PaddedChecksum(b: seq<byte>): (c: uint16)
    ensures |b| % 2 == 0 ==> Checksum(b) == Ok(c)
    ensures |b| % 2 == 1 ==> Checksum(b + [0]) == Ok(c)
  {
    if |b| % 2 == 1 then
      PaddedSumAgrees(b);
      Swap16(0xFFFF - Fold((MaskedSum(LeWords(b)) + b[|b| - 1]) % Mask32))
    else
      Swap16(0xFFFF - Fold(MaskedSum(LeWords(b))))
  }

  // ---------------------------------------------------------------------------
  // The RFC 1071 reference definition

  /** One's complement addition of 16-bit words: a carry out of bit 15 is added back in. */
  function OnesAdd(a: uint16, w: uint16): uint16
  {
    if a + w > 0xFFFF then a + w - 0xFFFF else a + w
  }

  /** The one's complement sum of a word sequence, accumulated from the front. */
  function OnesSum(ws: seq<uint16>): uint16
  {
    if ws == [] then 0 else OnesAdd(OnesSum(ws[..|ws| - 1]), ws[|ws| - 1])
  }

  /** An odd-length buffer is padded on the right with a zero byte (RFC 1071 section 4.1). */
  function Padded(b: seq<byte>): (p: seq<byte>)
    ensures |p| % 2 == 0
  {
    if |b| % 2 == 1 then b + [0] else b
  }

  /** The Internet checksum: the complement of the one's complement sum of network-order words. */
  function InternetChecksum(b: seq<byte>): uint16
  {
    0xFFFF - OnesSum(BeWords(Padded(b)))
  }

  // ---------------------------------------------------------------------------
  // End-around carry as arithmetic modulo 0xFFFF

  /** The end-around-carry value of a sum: 0 for 0, otherwise its residue modulo 0xFFFF taken in [1, 0xFFFF]. */
  function Eac(s: nat): uint16
  {
    if s == 0 then 0 else (s - 1) % 0xFFFF + 1
  }

  lemma EacUnique(s: nat, e: int, k: int)
    requires s > 0 && 1 <= e <= 0xFFFF && s == e + 0xFFFF * k
    ensures Eac(s) == e
  {
    assert s - 1 == (e - 1) + 0xFFFF * k;
    assert (s - 1) / 0xFFFF == k;
  }

  lemma EacDecompose(s: nat)
    requires s > 0
    ensures 1 <= Eac(s) && s == Eac(s) + 0xFFFF * ((s - 1) / 0xFFFF)
  {
  }

  lemma FoldIsEac(s: nat)
    requires s < Mask32
    ensures Fold(s) == Eac(s)
  {
    var h, l := s / 0x1_0000, s % 0x1_0000;
    var f1 := h + l;
    assert s == 0xFFFF * h + f1;
    if f1 == 0 {
    } else if f1 <= 0xFFFF {
      EacUnique(s, f1, h);
    } else {
      assert f1 / 0x1_0000 == 1;
      EacUnique(s, f1 - 0xFFFF, h + 1);
    }
  }

  lemma EacAdd(s: nat, w: uint16)
    ensures OnesAdd(Eac(s), w) == Eac(s + w)
  {
    if s == 0 {
      if w > 0 {
        EacUnique(w, w, 0);
      }
    } else if w > 0 {
      EacDecompose(s);
      var e, k := Eac(s), (s - 1) / 0xFFFF;
      if e + w <= 0xFFFF {
        EacUnique(s + w, e + w, k);
      } else {
        EacUnique(s + w, e + w - 0xFFFF, k + 1);
      }
    }
  }

  /** Accumulating with end-around carry word by word equals folding the exact sum once. */
  lemma {:induction false} OnesSumIsEac(ws: seq<uint16>)
    ensures OnesSum(ws) == Eac(Sum(ws))
  {
    if ws != [] {
      OnesSumIsEac(ws[..|ws| - 1]);
      EacAdd(Sum(ws[..|ws| - 1]), ws[|ws| - 1]);
    }
  }

  lemma {:induction false} SumBound(ws: seq<uint16>)
    ensures Sum(ws) <= 0xFFFF * |ws|
  {
    if ws != [] {
      SumBound(ws[..|ws| - 1]);
    }
  }

  /** For at most 65537 words the 32-bit mask never changes the running sum. */
  lemma {:induction false} MaskedSumExact(ws: seq<uint16>)
    requires |ws| <= MaxUnmaskedLength / 2
    ensures MaskedSum(ws) == Sum(ws)
  {
    if ws != [] {
      MaskedSumExact(ws[..|ws| - 1]);
      SumBound(ws);
    }
  }

  // ---------------------------------------------------------------------------
  // Byte-order independence (RFC 1071 section 2(B))

  function SwapAll(ws: seq<uint16>): (r: seq<uint16>)
    ensures |r| == |ws|
    ensures forall i :: 0 <= i < |ws| ==> r[i] == Swap16(ws[i])
  {
    seq(|ws|, i requires 0 <= i < |ws| => Swap16(ws[i]))
  }

  /** The sum of the high bytes of the words. */
  function HighSum(ws: seq<uint16>): nat
  {
    if ws == [] then 0 else HighSum(ws[..|ws| - 1]) + ws[|ws| - 1] / 0x100
  }

  /** Shifting a sum left by one byte equals summing the swapped words, up to multiples of 0xFFFF. */
  lemma {:induction false} SwapSum(ws: seq<uint16>)
    ensures 0x100 * Sum(ws) == Sum(SwapAll(ws)) + 0xFFFF * HighSum(ws)
  {
    if ws != [] {
      var init := ws[..|ws| - 1];
      SwapSum(init);
      assert SwapAll(ws)[..|ws| - 1] == SwapAll(init);
    }
  }

  lemma SwapAllTwice(ws: seq<uint16>)
    ensures SwapAll(SwapAll(ws)) == ws
  {
    forall i | 0 <= i < |ws| {
      SwapInvolution(ws[i]);
    }
  }

  lemma BeWordsAreSwapped(b: seq<byte>)
    ensures BeWords(b) == SwapAll(LeWords(b))
  {
  }

  /**
   * RFC 1071 section 2(B): summing little-endian words and swapping the
   * result gives the same one's complement sum as summing network-order words.
   */
  lemma ByteOrderIndependence(b: seq<byte>)
    ensures Swap16(OnesSum(LeWords(b))) == OnesSum(BeWords(b))
  {
    var ws := LeWords(b);
    BeWordsAreSwapped(b);
    OnesSumIsEac(ws);
    OnesSumIsEac(SwapAll(ws));
    SwapSum(ws);
    SwapSum(SwapAll(ws));
    SwapAllTwice(ws);
    EacSwap(Sum(ws), Sum(SwapAll(ws)), HighSum(ws), HighSum(SwapAll(ws)));
  }

  /** Two sums that are each the other shifted by a byte, modulo 0xFFFF, have swapped end-around-carry values. */
  lemma EacSwap(s: nat, t: nat, h: nat, h': nat)
    requires 0x100 * s == t + 0xFFFF * h
    requires 0x100 * t == s + 0xFFFF * h'
    ensures Swap16(Eac(s)) == Eac(t)
  {
    if s > 0 {
      EacDecompose(s);
      var e, k := Eac(s), (s - 1) / 0xFFFF;
      assert 0x100 * e as int == Swap16(e) + 0xFFFF * (e / 0x100);
      EacUnique(t, Swap16(e), e / 0x100 + 0x100 * k - h);
    }
  }

  lemma SwapComplement(x: uint16)
    ensures Swap16(0xFFFF - x) == 0xFFFF - Swap16(x)
  {
  }

  // ---------------------------------------------------------------------------
  // What the source computes

  /**
   * For an even-length buffer of at most 131074 bytes, `do_checksum` is the
   * byte-swapped complement of the end-around-carry sum of its little-endian words.
   */
  lemma ChecksumSwapsLeSum(b: seq<byte>)
    requires |b| % 2 == 0 && |b| <= MaxUnmaskedLength
    ensures Checksum(b) == Ok(Swap16(0xFFFF - OnesSum(LeWords(b))))
  {
    var ws := LeWords(b);
    MaskedSumExact(ws);
    SumBound(ws);
    FoldIsEac(Sum(ws));
    OnesSumIsEac(ws);
  }

  /** For an even-length buffer of at most 131074 bytes, `do_checksum` is the RFC 1071 Internet checksum. */
  lemma ChecksumIsInternetChecksum(b: seq<byte>)
    requires |b| % 2 == 0 && |b| <= MaxUnmaskedLength
    ensures Checksum(b) == Ok(InternetChecksum(b))
  {
    ChecksumSwapsLeSum(b);
    SwapComplement(OnesSum(LeWords(b)));
    ByteOrderIndependence(b);
  }

  /** The empty buffer has checksum 0xFFFF. */
  lemma EmptyChecksum()
    ensures Checksum([]) == Ok(0xFFFF)
  {
    assert LeWords([]) == [];
    assert MaskedSum([]) == 0 && Fold(0) == 0;
    assert 0xFFFF % 0x100 == 0xFF && 0xFFFF / 0x100 == 0xFF;
  }

  lemma {:induction false} SumUpdate(ws: seq<uint16>, i: nat, v: uint16)
    requires i < |ws|
    ensures Sum(ws[i := v]) == Sum(ws) - ws[i] + v
  {
    var n := |ws| - 1;
    if i < n {
      SumUpdate(ws[..n], i, v);
      assert ws[i := v][..n] == ws[..n][i := v];
    } else {
      assert ws[i := v][..n] == ws[..n];
    }
  }

  /** Overwriting the two bytes of word `i` replaces that word and no other. */
  lemma LeWordsUpdate(b: seq<byte>, b': seq<byte>, i: nat, w: uint16)
    requires |b'| == |b| && 2 * i + 1 < |b|
    requires forall j :: 0 <= j < |b| && j != 2 * i && j != 2 * i + 1 ==> b'[j] == b[j]
    requires b'[2 * i] as int + 0x100 * b'[2 * i + 1] as int == w
    ensures LeWords(b') == LeWords(b)[i := w]
  {
    var ws, ws' := LeWords(b), LeWords(b');
    forall k | 0 <= k < |ws'|
      ensures ws'[k] == ws[i := w][k]
    {
      if k != i {
        assert b'[2 * k] == b[2 * k] && b'[2 * k + 1] == b[2 * k + 1];
      }
    }
  }

  /** Adding the complement of a sum's end-around-carry value gives all ones. */
  lemma CompletedSumIsAllOnes(s: nat)
    ensures Eac(s + (0xFFFF - Eac(s))) == 0xFFFF
  {
    if s == 0 {
      EacUnique(0xFFFF, 0xFFFF, 0);
    } else {
      EacDecompose(s);
      EacUnique(s + (0xFFFF - Eac(s)), 0xFFFF, (s - 1) / 0xFFFF);
    }
  }

  /**
   * The checking rule of RFC 1071 section 1: when a zeroed 16-bit field of a
   * buffer is filled with the checksum computed over that buffer, written so
   * that `do_checksum` reads it back byte-swapped, the whole buffer sums to
   * all ones and its checksum is 0.
   */
  lemma ChecksumOfCompletedBuffer(b: seq<byte>, b': seq<byte>, i: nat)
    requires |b| % 2 == 0 && |b| <= MaxUnmaskedLength && |b'| == |b| && 2 * i + 1 < |b|
    requires b[2 * i] == 0 && b[2 * i + 1] == 0
    requires forall j :: 0 <= j < |b| && j != 2 * i && j != 2 * i + 1 ==> b'[j] == b[j]
    requires b'[2 * i] as int + 0x100 * b'[2 * i + 1] as int == Swap16(Checksum(b).value)
    ensures Checksum(b') == Ok(0)
  {
    var ws := LeWords(b);
    var s := Sum(ws);
    var w := 0xFFFF - Eac(s);
    ChecksumIsEacOfSum(b);
    SwapInvolution(w);
    LeWordsUpdate(b, b', i, w);
    SumUpdate(ws, i, w);
    CompletedSumIsAllOnes(s);
    ChecksumIsEacOfSum(b');
    assert Swap16(0) == 0;
  }

  /** Without wrap-around, `do_checksum` swaps the complement of the end-around-carry value of the exact sum. */
  lemma ChecksumIsEacOfSum(b: seq<byte>)
    requires |b| % 2 == 0 && |b| <= MaxUnmaskedLength
    ensures Checksum(b) == Ok(Swap16(0xFFFF - Eac(Sum(LeWords(b)))))
  {
    var ws := LeWords(b);
    MaskedSumExact(ws);
    SumBound(ws);
    FoldIsEac(Sum(ws));
  }

  // ---------------------------------------------------------------------------
  // The odd-length defect and its correction

  /** A one-byte buffer makes `do_checksum` raise, although RFC 1071 defines its checksum. */
  lemma OddLengthRaises()
    ensures Checksum([0x45]) == Err(IndexOutOfRange)
    ensures PaddedChecksum([0x45]) == InternetChecksum([0x45]) == 0xBAFF
  {
    OddBytePadded();
    OddByteInternet();
  }

  /** The corrected checksum of the single byte 0x45: the byte added on its own, complemented and swapped. */
  lemma OddBytePadded()
    ensures PaddedChecksum([0x45]) == 0xBAFF
  {
    var b: seq<byte> := [0x45];
    assert LeWords(b) == [];
    assert MaskedSum([]) == 0;
    assert (0 + 0x45) % Mask32 == 0x45;
    assert 0x45 / 0x1_0000 == 0 && 0x45 % 0x1_0000 == 0x45;
    assert Fold(0x45) == 0x45;
    assert 0xFFBA % 0x100 == 0xBA && 0xFFBA / 0x100 == 0xFF;
    assert Swap16(0xFFBA) == 0xBAFF;
  }

  /** The Internet checksum of the single byte 0x45: the word 0x4500, complemented. */
  lemma OddByteInternet()
    ensures InternetChecksum([0x45]) == 0xBAFF
  {
    assert Padded([0x45]) == [0x45, 0];
    assert BeWords([0x45, 0]) == [0x4500];
    assert OnesSum([0x4500]) == OnesAdd(OnesSum([]), 0x4500) == 0x4500;
  }

  lemma MaskedSumSnoc(ws: seq<uint16>, w: uint16)
    ensures MaskedSum(ws + [w]) == (MaskedSum(ws) + w) % Mask32
  {
    assert (ws + [w])[..|ws|] == ws;
  }

  lemma LeWordsOfPadded(b: seq<byte>)
    requires |b| % 2 == 1
    ensures LeWords(b + [0]) == LeWords(b) + [b[|b| - 1]]
  {
  }

  /** Adding a trailing odd byte on its own is summing the buffer padded with a zero byte. */
  lemma PaddedSumAgrees(b: seq<byte>)
    requires |b| % 2 == 1
    ensures Checksum(b + [0]) == Ok(Swap16(0xFFFF - Fold((MaskedSum(LeWords(b)) + b[|b| - 1]) % Mask32)))
  {
    LeWordsOfPadded(b);
    MaskedSumSnoc(LeWords(b), b[|b| - 1]);
    assert |b + [0]| % 2 == 0;
  }

  /** The corrected checksum is the RFC 1071 Internet checksum of every buffer of at most 131073 bytes. */
  lemma PaddedChecksumIsInternetChecksum(b: seq<byte>)
    requires |b| < MaxUnmaskedLength
    ensures PaddedChecksum(b) == InternetChecksum(b)
  {
    ChecksumIsInternetChecksum(Padded(b));
    assert Padded(Padded(b)) == Padded(b);
  }
}
