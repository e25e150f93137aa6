/**
 * The arithmetic of the USB transport (usb.c): the FT232BM baud-rate
 * divisor, the split of an outgoing buffer into 64-byte bulk packets,
 * and the removal of the two FTDI status bytes from each incoming packet.
 */
module Usb {
  import opened Bytes
  import opened Buffers

  const BaudUirt: bv32 := 312500    // the only rate the USB-UIRT works with
  const BaudBase: bv32 := 48000000  // the FT232BM clock
  const PacketSize: nat := 64       // bytes per bulk write

  /** divfrac: the FT232BM code for each eighth of the divisor's fraction. */
  function DivFrac(eighths: bv32): (code: bv32)
    requires eighths < 8
    ensures code < 8
  {
    match eighths
    case 0 => 0 case 1 => 3 case 2 => 2 case 3 => 4
    case 4 => 1 case 5 => 5 case 6 => 6 case _ => 7
  }

  /** The fraction, in eighths, that each code stands for. */
  function Eighths(code: bv32): (eighths: bv32)
    requires code < 8
    ensures eighths < 8
  {
    match code
    case 0 => 0 case 1 => 4 case 2 => 2 case 3 => 1
    case 4 => 3 case 5 => 5 case 6 => 6 case _ => 7
  }

  /** Eighths undoes DivFrac, and the other way round. */
  lemma FractionCodes(x: bv32)
    requires x < 8
    ensures Eighths(DivFrac(x)) == x && DivFrac(Eighths(x)) == x
  {
  }

  /**
   * ftdi_232bm_baud_base_to_divisor: the divisor in eighths, `base/2/baud`
   * (unsigned, since `baud` is), encoded by Encode. `baud` must not be 0;
   * `base` is a non-negative C int. Whenever that divisor lies between 1
   * and 2^14 and is neither of the two special cases, the device reads
   * the result back as exactly `base/2/baud` eighths.
   */
  function BaudDivisor(baud: bv32, base: bv32): (divisor: bv32)
    requires baud != 0 && base < 0x8000_0000
    ensures ReadsBack(divisor, Divisor3(baud, base))
  {
    EncodeReadsBack(Divisor3(baud, base))
  }

  /** `divisor3`: the divisor in eighths, `base/2/baud` in unsigned arithmetic. */
  function Divisor3(baud: bv32, base: bv32): bv32
    requires baud != 0
  {
    base / 2 / baud
  }

  /**
   * The device reads `divisor` back as `divisor3` eighths, whenever that
   * lies between 1 and 2^14 and is neither of the two special cases.
   */
  predicate ReadsBack(divisor: bv32, divisor3: bv32)
  {
    8 <= divisor3 < 0x20000 && divisor3 != 8 && divisor3 != 12 ==>
      divisor < 0x20000 && Divisor3Of(divisor) == divisor3
  }

  /** Encode, with its read-back stated for the divisors EncodeRoundTrip covers. */
  function EncodeReadsBack(d3: bv32): (divisor: bv32)
    ensures ReadsBack(divisor, d3)
  {
    if 8 <= d3 < 0x20000 && d3 != 8 && d3 != 12 then
      EncodeRoundTrip(d3);
      Encode(d3)
    else
      Encode(d3)
  }

  /**
   * The FT232BM encoding of a divisor given in eighths: its integer part
   * ORed with the fraction's code shifted to bit 14; 1 (exactly 1.0)
   * becomes 0 and 0x4001 (1.5) becomes 1. For a divisor whose integer
   * part fits 14 bits the encoding fits 17 bits, and it is 0 only for
   * 0 and 1.0, 1 only for 1.5.
   */
  function Encode(divisor3: bv32): (d: bv32)
    ensures divisor3 < 0x20000 ==> d < 0x20000
    ensures divisor3 < 0x20000 ==> (d == 0 <==> divisor3 == 0 || divisor3 == 8)
    ensures divisor3 < 0x20000 ==> (d == 1 <==> divisor3 == 12)
  {
    var d := (divisor3 >> 3) | (DivFrac(divisor3 & 7) << 14);
    if d == 1 then 0 else if d == 0x4001 then 1 else d
  }

  /** wValue of the set-baud-rate request: the divisor's low 16 bits. */
  function WValue(divisor: bv32): bv16
  {
    (divisor & 0xFFFF) as bv16
  }

  /** wIndex of the set-baud-rate request: the divisor's high 16 bits. */
  function WIndex(divisor: bv32): bv16
  {
    (divisor >> 16) as bv16
  }

  /** Reading a divisor (integer part below 2^14) back in eighths. */
  function Divisor3Of(divisor: bv32): bv32
    requires divisor < 0x20000
  {
    (divisor & 0x3FFF) * 8 + Eighths(divisor >> 14)
  }

  /**
   * The encoding means what it says: apart from the two rewritten special
   * cases, reading it back gives the divisor in eighths whenever its
   * integer part is between 1 and 2^14 - 1.
   */
  lemma EncodeRoundTrip(divisor3: bv32)
    requires 8 <= divisor3 < 0x20000 && divisor3 != 8 && divisor3 != 12
    ensures Encode(divisor3) < 0x20000
    ensures Divisor3Of(Encode(divisor3)) == divisor3
  {
    FractionCodes(divisor3 & 7);
  }

  /** The special cases: exactly 1.0 is sent as 0, and 1.5 as 1. */
  lemma EncodeSpecialCases()
    ensures Encode(8) == 0 && Encode(12) == 1
  {
  }

  /** 312500 baud from 48 MHz: divisor 9.5, sent as wValue 0x4009 and wIndex 0. */
  lemma UirtBaud()
    ensures BaudDivisor(BaudUirt, BaudBase) == 0x4009
    ensures WValue(BaudDivisor(BaudUirt, BaudBase)) == 0x4009 && WIndex(BaudDivisor(BaudUirt, BaudBase)) == 0
  {
    assert BaudBase / 2 / BaudUirt == 76;
  }

  // ---------------------------------------------------------------------
  // usb_write: 64-byte packets.

  /** The number of packets for `n` bytes. */
  function ChunkCount(n: nat): nat
  {
    (n + PacketSize - 1) / PacketSize
  }

  /** Packet `j`: the 64 bytes from offset 64j, or what is left. */
  function Chunk(data: seq<byte>, j: nat): (c: seq<byte>)
    requires PacketSize * j < |data|
    ensures 0 < |c| <= PacketSize
  {
    var i := PacketSize * j;
    data[i..if i + PacketSize <= |data| then i + PacketSize else |data|]
  }

  /** All packets of `data`, in order. */
  function Chunks(data: seq<byte>): (cs: seq<seq<byte>>)
    ensures |cs| == ChunkCount(|data|)
  {
    seq(ChunkCount(|data|), (j: nat) requires j < ChunkCount(|data|) => Chunk(data, j))
  }

  /** The packets one after another. */
  function Flatten(cs: seq<seq<byte>>): seq<byte>
  {
    if cs == [] then [] else Flatten(cs[..|cs| - 1]) + cs[|cs| - 1]
  }

  /** The first `k` packets are the first `64k` bytes (or all of them). */
  lemma {:induction false} FlattenPrefix(data: seq<byte>, k: nat)
    requires k <= ChunkCount(|data|)
    ensures Flatten(Chunks(data)[..k]) == data[..if PacketSize * k <= |data| then PacketSize * k else |data|]
  {
    if k > 0 {
      var cs := Chunks(data);
      FlattenPrefix(data, k - 1);
      assert cs[..k][..k - 1] == cs[..k - 1];
      var i := PacketSize * (k - 1);
      var e := if i + PacketSize <= |data| then i + PacketSize else |data|;
      assert data[..e] == data[..i] + data[i..e];
    }
  }

  /**
   * The packets cover the buffer exactly: together they are the buffer,
   * in order, and every packet but the last is 64 bytes.
   */
  lemma ChunksCover(data: seq<byte>)
    ensures Flatten(Chunks(data)) == data
    ensures forall j | 0 <= j < |Chunks(data)| :: 0 < |Chunks(data)[j]| <= PacketSize
    ensures forall j | 0 <= j < |Chunks(data)| - 1 :: |Chunks(data)[j]| == PacketSize
  {
    var cs := Chunks(data);
    FlattenPrefix(data, |cs|);
    assert cs[..|cs|] == cs;
  }

  /**
   * usb_write: writes the packets in order, stopping after the first one
   * the pipe refuses; -1 then, 0 when all were written (or there were
   * none). The pipe's answer for packet j is `accepted[j]`; `sent` is
   * what was handed to it.
   */
  method Write(data: seq<byte>, accepted: seq<bool>) returns (r: int, sent: seq<seq<byte>>)
    requires |accepted| >= ChunkCount(|data|)
    ensures |sent| <= ChunkCount(|data|) && sent == Chunks(data)[..|sent|]
    ensures r == 0 || r == -1
    ensures r == 0 <==> forall j | 0 <= j < ChunkCount(|data|) :: accepted[j]
    ensures r == 0 ==> |sent| == ChunkCount(|data|)
    ensures r == -1 ==> 0 < |sent| && !accepted[|sent| - 1] && forall j | 0 <= j < |sent| - 1 :: accepted[j]
  {
    var i: nat := 0;
    sent := [];
    while i < |data|
      invariant i == PacketSize * |sent| && |sent| <= ChunkCount(|data|)
      invariant i < |data| ==> |sent| < ChunkCount(|data|)
      invariant i >= |data| ==> |sent| == ChunkCount(|data|)
      invariant sent == Chunks(data)[..|sent|]
      invariant forall j | 0 <= j < |sent| :: accepted[j]
      decreases |data| - i
    {
      var ie := if i + PacketSize <= |data| then PacketSize else |data| - i;
      var ok := accepted[i / PacketSize];
      sent := sent + [data[i..i + ie]];
      if !ok {
        return -1, sent;
      }
      i := i + PacketSize;
    }
    r := 0;
  }

  // ---------------------------------------------------------------------
  // usb_read_callback: the two status bytes.

  /** What a packet of `size` bytes delivers: everything after the two status bytes. */
  function Payload(packet: seq<byte>): (r: Option<seq<byte>>)
    ensures r.Some? <==> |packet| > 2
    ensures r.Some? ==> packet == packet[..2] + r.value
  {
    if |packet| > 2 then Some(packet[2..]) else None
  }

  /**
   * usb_read_callback: a packet of more than two bytes is shifted down
   * over its status bytes and delivered with `len = size - 2`; a shorter
   * one (status only) is not delivered and the buffer is left as it was.
   */
  method StripStatus(b: Buffer, size: nat) returns (delivered: bool)
    requires size <= b.data.Length
    modifies b, b.data
    ensures delivered <==> Payload(old(b.data[..size])).Some?
    ensures delivered ==> b.Valid() && b.Contents() == Payload(old(b.data[..size])).value
    ensures delivered ==> forall q | size - 2 <= q < b.data.Length :: b.data[q] == old(b.data[q])
    ensures !delivered ==> b.len == old(b.len) && b.data[..] == old(b.data[..])
  {
    if size <= 2 {
      return false;
    }
    var i := 0;
    while i < size - 2
      invariant 0 <= i <= size - 2
      invariant b.data[..i] == old(b.data[2..2 + i])
      invariant forall q | i <= q < b.data.Length :: b.data[q] == old(b.data[q])
    {
      b.data[i] := b.data[i + 2];
      i := i + 1;
    }
    b.len := size - 2;
    return true;
  }
}
