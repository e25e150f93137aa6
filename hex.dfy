/**
 * Hex text conversion of ribsu-util: `u_hex2val` (one character to its
 * nibble), `u_buf2hex` (bytes to upper-case hex text, NUL-terminated) and
 * `u_hex2buf` (hex text, with spaces allowed before a pair, back to bytes).
 * Characters are the bytes of the C strings.
 */
module Hex {
  import opened Bytes
  import opened Buffers

  type nibble = x: int | 0 <= x < 16

  const Nul: byte := 0
  const Space: byte := ' ' as int

  /** u_hex2val: '0'-'9' and both cases of 'A'-'F' to their value, anything else to 0. */
  function Hex2Val(c: byte): (r: nibble)
    ensures '0' as int <= c <= '9' as int ==> r == c - '0' as int
    ensures 'A' as int <= c <= 'F' as int ==> r == c - 'A' as int + 10
    ensures 'a' as int <= c <= 'f' as int ==> r == c - 'a' as int + 10
    ensures !IsHexDigit(c) ==> r == 0
  {
    if '0' as int <= c <= '9' as int then c - '0' as int
    else if 'A' as int <= c <= 'F' as int then c - 'A' as int + 10
    else if 'a' as int <= c <= 'f' as int then c - 'a' as int + 10
    else 0
  }

  predicate IsHexDigit(c: byte)
  {
    '0' as int <= c <= '9' as int || 'A' as int <= c <= 'F' as int || 'a' as int <= c <= 'f' as int
  }

  /** The upper-case digit `%X` prints for a nibble. */
  function HexDigit(v: nibble): (c: byte)
    ensures IsHexDigit(c) && c != Nul && c != Space
    ensures Hex2Val(c) == v
  {
    if v < 10 then '0' as int + v else 'A' as int + v - 10
  }

  /** The text `u_buf2hex` writes before its NUL: two digits per byte, high nibble first. */
  function HexEncode(b: seq<byte>): (t: seq<byte>)
    ensures |t| == 2 * |b|
  {
    if b == [] then [] else [HexDigit(b[0] / 16), HexDigit(b[0] % 16)] + HexEncode(b[1..])
  }

  /**
   * What `u_hex2buf` produces reading the store `h` from position `i`: a
   * space is skipped, a NUL ends the text, and any other byte is the high
   * nibble of a pair whose low nibble is the byte after it, even when that
   * byte is the NUL (read as 0), after which reading goes on. None when
   * reading runs off the end of the store.
   */
  function Decode(h: seq<byte>, i: nat): (r: Option<seq<byte>>)
    ensures r.Some? ==> i < |h| && 2 * |r.value| < |h| - i
    decreases |h| - i
  {
    if i >= |h| then None
    else if h[i] == Nul then Some([])
    else if h[i] == Space then Decode(h, i + 1)
    else if i + 1 == |h| then None
    else
      match Decode(h, i + 2)
      case None => None
      case Some(rest) => Some([Hex2Val(h[i]) * 16 + Hex2Val(h[i + 1])] + rest)
  }

  /** Reading after a prefix `p` is reading the rest on its own. */
  lemma {:induction false} DecodeShift(p: seq<byte>, h: seq<byte>, i: nat)
    ensures Decode(p + h, |p| + i) == Decode(h, i)
    decreases |h| - i
  {
    var q := p + h;
    if i < |h| {
      assert q[|p| + i] == h[i];
      if h[i] != Nul {
        if h[i] == Space {
          DecodeShift(p, h, i + 1);
        } else if i + 1 < |h| {
          assert q[|p| + i + 1] == h[i + 1];
          DecodeShift(p, h, i + 2);
        }
      }
    }
  }

  /** Encoded text, NUL-terminated, decodes to the original bytes. */
  lemma {:induction false} HexRoundTrip(b: seq<byte>)
    ensures Decode(HexEncode(b) + [Nul], 0) == Some(b)
  {
    if b != [] {
      HexRoundTrip(b[1..]);
      var rest := HexEncode(b[1..]) + [Nul];
      var d := [HexDigit(b[0] / 16), HexDigit(b[0] % 16)];
      assert HexEncode(b) + [Nul] == d + rest;
      DecodeShift(d, rest, 0);
      assert b[0] / 16 * 16 + b[0] % 16 == b[0];
      assert [b[0]] + b[1..] == b;
    } else {
      assert HexEncode(b) + [Nul] == [Nul];
    }
  }

  /**
   * An odd digit is paired with the NUL after it, and reading goes on past
   * that NUL: "A", NUL, "51", NUL decodes to A0 51, and "A", NUL at the end
   * of the store runs off it.
   */
  lemma OddDigitReadsOn()
    ensures Decode([0x41, Nul, 0x35, 0x31, Nul], 0) == Some([0xA0, 0x51])
    ensures Decode([0x41, Nul], 0) == None
  {
    var h: seq<byte> := [0x41, Nul, 0x35, 0x31, Nul];
    assert Hex2Val(0x41) == 10 && Hex2Val(Nul) == 0 && Hex2Val(0x35) == 5 && Hex2Val(0x31) == 1;
    assert Decode(h, 4) == Some([]);
    assert Decode(h, 2) == Some([0x51] + []);
    assert [0x51] + [] == [0x51];
    assert Decode(h, 0) == Some([0xA0] + [0x51]);
    assert [0xA0] + [0x51] == [0xA0, 0x51];
  }

  /**
   * u_buf2hex: writes the hex text of `b` and a NUL into the store of
   * `hex`; the length field of `hex` is left as it was.
   */
  method Buf2Hex(b: seq<byte>, hex: Buffer)
    requires hex.data.Length >= 2 * |b| + 1
    modifies hex.data
    ensures hex.data[..2 * |b| + 1] == HexEncode(b) + [Nul]
    ensures hex.data[2 * |b| + 1..] == old(hex.data[2 * |b| + 1..])
  {
    var n := 0;
    while n < |b|
      invariant 0 <= n <= |b|
      invariant hex.data[..2 * n] == HexEncode(b[..n])
      invariant hex.data[2 * n..] == old(hex.data[2 * n..])
    {
      hex.data[2 * n] := HexDigit(b[n] / 16);
      hex.data[2 * n + 1] := HexDigit(b[n] % 16);
      EncodeSnoc(b[..n], b[n]);
      assert b[..n + 1] == b[..n] + [b[n]];
      n := n + 1;
    }
    hex.data[2 * n] := Nul;
    assert b[..n] == b;
  }

  lemma {:induction false} EncodeSnoc(b: seq<byte>, x: byte)
    ensures HexEncode(b + [x]) == HexEncode(b) + [HexDigit(x / 16), HexDigit(x % 16)]
  {
    if b != [] {
      EncodeSnoc(b[1..], x);
      assert (b + [x])[1..] == b[1..] + [x];
    }
  }

  /**
   * u_hex2buf: decodes the store `h` of the hex buffer into the store of
   * `buf` and sets its length to the number of pairs read; the rest of the
   * store is untouched. The hex buffer's length is not consulted.
   */
  method Hex2Buf(h: seq<byte>, buf: Buffer)
    requires Decode(h, 0).Some?
    requires |Decode(h, 0).value| <= buf.data.Length
    modifies buf, buf.data
    ensures buf.Valid() && buf.Contents() == Decode(h, 0).value
    ensures forall q | buf.len <= q < buf.data.Length :: buf.data[q] == old(buf.data[q])
  {
    var n, l := 0, 0;
    while h[n] != Nul
      invariant n < |h| && Decode(h, n).Some?
      invariant l <= buf.data.Length && buf.data[..l] + Decode(h, n).value == Decode(h, 0).value
      invariant buf.data[l..] == old(buf.data[l..])
      decreases |h| - n
    {
      if h[n] == Space {
        n := n + 1;
      } else {
        var v: byte := Hex2Val(h[n]) * 16 + Hex2Val(h[n + 1]);
        ghost var before := buf.data[..l];
        assert before + Decode(h, n).value == (before + [v]) + Decode(h, n + 2).value;
        buf.data[l] := v;
        assert buf.data[..l + 1] == before + [v];
        l := l + 1;
        n := n + 2;
      }
    }
    buf.len := l;
  }
}
