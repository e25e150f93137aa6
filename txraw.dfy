/**
 * The TX_RAW command frame that the RAW, RAW2 and Pronto encoders all
 * build: a 7-byte header (opcode, length, frequency byte, repeat count,
 * big-endian interspace, data length), then the pulse/space values
 * interleaved pulse-first, each value of 0x80 or more escaped as two
 * bytes, and finally the escape count added to both length bytes.
 * `DecodeTxRaw` is an independent reading of such a frame, used to state
 * what the encoder preserves.
 */
module TxRaw {
  import opened Bytes

  const CmdTxRaw: byte := 0x36
  const LengthOffset: nat := 1      // UIRT_CMD_O_LENGTH
  const DataLengthOffset: nat := 6  // UIRT_CMD_TX_RAW_O_LENGTH
  const HeaderLen: nat := 7
  const FreqByteBase: nat := 2500000

  /** The frequency byte of TX_RAW: `2500000 / freq`, truncated. */
  function FreqByte(freq: nat): nat
    requires freq > 0
  {
    FreqByteBase / freq
  }

  /** A tick conversion `mul * x / div`, with C's truncating division. */
  datatype Scale = Scale(mul: nat, div: nat)

  const Unscaled := Scale(1, 1)

  function Apply(sc: Scale, x: nat): nat
    requires sc.div > 0
  {
    sc.mul * x / sc.div
  }

  function Scaled(xs: seq<nat>, sc: Scale): (ys: seq<nat>)
    requires sc.div > 0
    ensures |ys| == |xs|
    ensures forall i | 0 <= i < |xs| :: ys[i] == Apply(sc, xs[i])
  {
    seq(|xs|, i requires 0 <= i < |xs| => Apply(sc, xs[i]))
  }

  lemma UnscaledIsIdentity(xs: seq<nat>)
    ensures Scaled(xs, Unscaled) == xs
  {
  }

  /** The byte `0x80 | (t >> 8)` as stored into a UInt8. */
  function EscHi(t: nat): byte
  {
    var h := (t / 256) % 256;
    if h >= 0x80 then h else h + 0x80
  }

  /** One value on the wire: itself below 0x80, otherwise `0x80|hi, lo`. */
  function Escape(t: nat): (e: seq<byte>)
    ensures t < 0x80 ==> e == [t]
    ensures 0x80 <= t < 0x8000 ==> e == [0x80 + t / 256, t % 256]
    ensures t >= 0x80 ==> |e| == 2 && e[0] >= 0x80
  {
    if t >= 0x80 then [EscHi(t), t % 256] else [t]
  }

  /** Two values from 0x8000 up collide with smaller ones: the escape keeps only 15 bits. */
  lemma EscapeCollision()
    ensures Escape(0x8180) == Escape(0x0180)
  {
  }

  /** The number of escaped values ("fudge"). */
  function Fudge(vs: seq<nat>): (f: nat)
    ensures f <= |vs|
  {
    if vs == [] then 0 else (if vs[0] >= 0x80 then 1 else 0) + Fudge(vs[1..])
  }

  /** The escaped data bytes of a sequence of values. */
  function Escaped(vs: seq<nat>): (b: seq<byte>)
    ensures |b| == |vs| + Fudge(vs)
  {
    if vs == [] then [] else Escape(vs[0]) + Escaped(vs[1..])
  }

  lemma {:induction false} EscapedAppend(a: seq<nat>, b: seq<nat>)
    ensures Escaped(a + b) == Escaped(a) + Escaped(b)
    ensures Fudge(a + b) == Fudge(a) + Fudge(b)
  {
    if a != [] {
      EscapedAppend(a[1..], b);
      assert (a + b)[1..] == a[1..] + b;
    } else {
      assert a + b == b;
    }
  }

  /** Pulses and spaces alternated pulse-first; the longer one's tail comes last. */
  function Interleave(p: seq<nat>, s: seq<nat>): (r: seq<nat>)
    ensures |r| == |p| + |s|
  {
    if p == [] then s
    else if s == [] then p
    else [p[0], s[0]] + Interleave(p[1..], s[1..])
  }

  /** Position 2i holds the i-th pulse and 2i+1 the i-th space while both last. */
  lemma {:induction false} InterleaveAt(p: seq<nat>, s: seq<nat>, i: nat)
    requires i < |p| && i < |s|
    ensures Interleave(p, s)[2 * i] == p[i]
    ensures Interleave(p, s)[2 * i + 1] == s[i]
  {
    if i > 0 {
      InterleaveAt(p[1..], s[1..], i - 1);
    }
  }

  /** After the paired part, the left-over pulses or spaces follow in order. */
  lemma {:induction false} InterleaveTail(p: seq<nat>, s: seq<nat>)
    ensures |p| >= |s| ==> Interleave(p, s)[2 * |s|..] == p[|s|..]
    ensures |s| >= |p| ==> Interleave(p, s)[2 * |p|..] == s[|p|..]
  {
    if p != [] && s != [] {
      InterleaveTail(p[1..], s[1..]);
      var t := Interleave(p[1..], s[1..]);
      assert Interleave(p, s) == [p[0], s[0]] + t;
      if |p| >= |s| {
        assert Interleave(p, s)[2 * |s|..] == t[2 * |s[1..]|..];
      }
      if |s| >= |p| {
        assert Interleave(p, s)[2 * |p|..] == t[2 * |p[1..]|..];
      }
    }
  }

  function Min(a: nat, b: nat): nat
  {
    if a < b then a else b
  }

  lemma {:induction false} InterleaveSnocBoth(p: seq<nat>, s: seq<nat>, x: nat, y: nat)
    requires |p| == |s|
    ensures Interleave(p + [x], s + [y]) == Interleave(p, s) + [x, y]
  {
    if p != [] {
      InterleaveSnocBoth(p[1..], s[1..], x, y);
      assert (p + [x])[1..] == p[1..] + [x];
      assert (s + [y])[1..] == s[1..] + [y];
    }
  }

  lemma {:induction false} InterleaveSnocPulse(p: seq<nat>, s: seq<nat>, x: nat)
    requires |p| >= |s|
    ensures Interleave(p + [x], s) == Interleave(p, s) + [x]
  {
    if s != [] {
      InterleaveSnocPulse(p[1..], s[1..], x);
      assert (p + [x])[1..] == p[1..] + [x];
    }
  }

  lemma {:induction false} InterleaveSnocSpace(p: seq<nat>, s: seq<nat>, y: nat)
    requires |s| >= |p|
    ensures Interleave(p, s + [y]) == Interleave(p, s) + [y]
  {
    if p != [] {
      InterleaveSnocSpace(p[1..], s[1..], y);
      assert (s + [y])[1..] == s[1..] + [y];
    }
  }

  /**
   * What the encoders' loop has emitted after `k` rounds: each round adds
   * the next pulse, then the next space, whichever are left.
   */
  function Rounds(p: seq<nat>, s: seq<nat>, k: nat): seq<nat>
  {
    if k == 0 then [] else Rounds(p, s, k - 1) + ValueAt(p, k - 1) + ValueAt(s, k - 1)
  }

  /** `xs[k]` as a one-element sequence, or nothing once `xs` is used up. */
  function ValueAt(xs: seq<nat>, k: nat): seq<nat>
  {
    if k < |xs| then [xs[k]] else []
  }

  /** Once both are used up, the rounds have produced exactly the interleaving. */
  lemma RoundsInterleave(p: seq<nat>, s: seq<nat>, k: nat)
    requires k >= |p| && k >= |s|
    ensures Rounds(p, s, k) == Interleave(p, s)
  {
    RoundsPrefix(p, s, k);
    assert p[..Min(k, |p|)] == p && s[..Min(k, |s|)] == s;
  }

  lemma {:induction false} RoundsPrefix(p: seq<nat>, s: seq<nat>, k: nat)
    ensures Rounds(p, s, k) == Interleave(p[..Min(k, |p|)], s[..Min(k, |s|)])
  {
    if k == 0 {
      assert p[..0] == [] && s[..0] == [];
    } else {
      RoundsPrefix(p, s, k - 1);
      InterleaveRound(p, s, Min(k - 1, |p|), Min(k - 1, |s|), Min(k, |p|), Min(k, |s|));
    }
  }

  /**
   * One round of the encoders' loop: with `i` pulses and `j` spaces already
   * written (equal counts, or one side exhausted), the next pulse and the
   * next space, where they exist, extend the interleaving.
   */
  lemma InterleaveRound(p: seq<nat>, s: seq<nat>, i: nat, j: nat, i': nat, j': nat)
    requires i <= |p| && j <= |s|
    requires i == j || (i == |p| && i < j) || (j == |s| && j < i)
    requires i' == (if i < |p| then i + 1 else i) && j' == (if j < |s| then j + 1 else j)
    ensures Interleave(p[..i'], s[..j'])
         == Interleave(p[..i], s[..j]) + (if i < |p| then [p[i]] else []) + (if j < |s| then [s[j]] else [])
  {
    if i < |p| {
      assert p[..i + 1] == p[..i] + [p[i]];
    }
    if j < |s| {
      assert s[..j + 1] == s[..j] + [s[j]];
    }
    if i < |p| && j < |s| {
      InterleaveSnocBoth(p[..i], s[..j], p[i], s[j]);
    } else if i < |p| {
      InterleaveSnocPulse(p[..i], s[..j], p[i]);
    } else if j < |s| {
      InterleaveSnocSpace(p[..i], s[..j], s[j]);
    }
  }

  /** The 7 header bytes before the escape count is added to bytes 1 and 6. */
  function Header(freqByte: nat, repeat: byte, interspace: nat, count: nat): (h: seq<byte>)
    ensures |h| == HeaderLen
  {
    [CmdTxRaw, (6 + count % 256) % 256, freqByte % 256, repeat,
     (interspace / 256) % 256, interspace % 256, count % 256]
  }

  /**
   * The complete frame: header with the fudge count added to the length
   * byte and the data-length byte (both 8-bit, so they wrap), then data.
   */
  function TxRawFrame(freqByte: nat, repeat: byte, interspace: nat, vs: seq<nat>): (f: seq<byte>)
    ensures |f| == HeaderLen + |vs| + Fudge(vs)
    ensures f[0] == CmdTxRaw
    ensures f[LengthOffset] == (|f| - 1) % 256
    ensures f[DataLengthOffset] == (|f| - HeaderLen) % 256
    ensures f[HeaderLen..] == Escaped(vs)
  {
    WrapAdd(|vs|, 6);
    WrapAdd(6 + |vs|, Fudge(vs));
    WrapAdd(|vs|, Fudge(vs));
    Patched(Header(freqByte, repeat, interspace, |vs|), Fudge(vs)) + Escaped(vs)
  }

  /** The escape count added, modulo 256, to the length byte and the data-length byte. */
  function Patched(h: seq<byte>, fudge: nat): (r: seq<byte>)
    requires |h| == HeaderLen
    ensures |r| == HeaderLen
  {
    h[LengthOffset := (h[LengthOffset] + fudge) % 256][DataLengthOffset := (h[DataLengthOffset] + fudge) % 256]
  }

  /** Patching bytes 1 and 6 of a frame touches only its header. */
  lemma PatchHeader(h: seq<byte>, rest: seq<byte>, b1: byte, b6: byte)
    requires |h| == HeaderLen
    ensures (h + rest)[LengthOffset := b1][DataLengthOffset := b6]
         == h[LengthOffset := b1][DataLengthOffset := b6] + rest
  {
  }

  /** Adding to a byte that already wrapped is adding before the wrap. */
  lemma WrapAdd(a: nat, b: nat)
    ensures ((a % 256) + b) % 256 == (a + b) % 256
  {
  }

  /** A decoded TX_RAW command. */
  datatype TxRawCmd = TxRawCmd(freq: byte, repeat: byte, interspace: nat, values: seq<nat>)

  /** Reads escaped values back: a first byte with its top bit set starts a 15-bit value. */
  function Unescape(b: seq<byte>): Option<seq<nat>>
  {
    if b == [] then Some([])
    else if b[0] < 0x80 then
      match Unescape(b[1..])
      case None => None
      case Some(rest) => Some([b[0] as nat] + rest)
    else if |b| < 2 then None
    else
      match Unescape(b[2..])
      case None => None
      case Some(rest) => Some([(b[0] as int - 0x80) * 256 + b[1] as int] + rest)
  }

  /** Reads a TX_RAW frame, checking the opcode and both length bytes. */
  function DecodeTxRaw(f: seq<byte>): Option<TxRawCmd>
  {
    if |f| < HeaderLen || f[0] != CmdTxRaw
       || f[LengthOffset] != (|f| - 1) % 256 || f[DataLengthOffset] != (|f| - HeaderLen) % 256
    then None
    else
      match Unescape(f[HeaderLen..])
      case None => None
      case Some(vs) => Some(TxRawCmd(f[2], f[3], Be16(f, 4), vs))
  }

  /** Reading one escaped value below 0x8000 gives it back, and reading goes on after it. */
  lemma UnescapeCons(t: nat, rest: seq<byte>, vs: seq<nat>)
    requires t < 0x8000 && Unescape(rest) == Some(vs)
    ensures Unescape(Escape(t) + rest) == Some([t] + vs)
  {
    var b := Escape(t) + rest;
    if t < 0x80 {
      assert b[0] == t && b[1..] == rest;
    } else {
      assert b[0] == 0x80 + t / 256 && b[1] == t % 256 && b[2..] == rest;
    }
  }

  lemma {:induction false} UnescapeEscaped(vs: seq<nat>)
    requires forall i | 0 <= i < |vs| :: vs[i] < 0x8000
    ensures Unescape(Escaped(vs)) == Some(vs)
  {
    if vs != [] {
      UnescapeEscaped(vs[1..]);
      UnescapeCons(vs[0], Escaped(vs[1..]), vs[1..]);
      assert [vs[0]] + vs[1..] == vs;
    }
  }

  /**
   * Every frame the encoders write reads back as the values, frequency
   * byte, repeat count and interspace it was built from, provided each
   * value is below 0x8000 (15 bits survive the escape).
   */
  lemma TxRawRoundTrip(freqByte: nat, repeat: byte, interspace: nat, vs: seq<nat>)
    requires interspace < 0x10000
    requires forall i | 0 <= i < |vs| :: vs[i] < 0x8000
    ensures DecodeTxRaw(TxRawFrame(freqByte, repeat, interspace, vs))
         == Some(TxRawCmd(freqByte % 256, repeat, interspace, vs))
  {
    var f := TxRawFrame(freqByte, repeat, interspace, vs);
    var h := Header(freqByte, repeat, interspace, |vs|);
    assert f[..HeaderLen] == Patched(h, Fudge(vs));
    assert f[2] == freqByte % 256 && f[3] == repeat;
    assert Be16(f, 4) == interspace by {
      assert f[4] == h[4] && f[5] == h[5];
    }
    UnescapeEscaped(vs);
  }

  /**
   * The header of TX_RAW as the encoders write it, before the escape count
   * is known: `6 + count` in the length byte and `count` in byte 6.
   */
  method WriteHeader(d: array<byte>, freqByte: nat, repeat: byte, interspace: nat, count: nat)
    requires d.Length >= HeaderLen
    modifies d
    ensures d[..HeaderLen] == Header(freqByte, repeat, interspace, count)
    ensures d[HeaderLen..] == old(d[HeaderLen..])
  {
    d[0] := CmdTxRaw;
    d[1] := (6 + count % 256) % 256;
    d[2] := freqByte % 256;
    d[3] := repeat;
    d[4] := (interspace / 256) % 256;
    d[5] := interspace % 256;
    d[6] := count % 256;
  }

  /** The escaped bytes of `xs[k]`, or nothing once `xs` is used up. */
  function EscapeAt(xs: seq<nat>, k: nat): seq<byte>
  {
    if k < |xs| then Escape(xs[k]) else []
  }

  /** Whether `xs[k]` exists and takes the two-byte form. */
  function FudgeAt(xs: seq<nat>, k: nat): nat
  {
    if k < |xs| && xs[k] >= 0x80 then 1 else 0
  }

  /** The data bytes after `k` rounds, built round by round. */
  function EncodedRounds(init: seq<byte>, p: seq<nat>, s: seq<nat>, k: nat): seq<byte>
  {
    if k == 0 then init else EncodedRounds(init, p, s, k - 1) + EscapeAt(p, k - 1) + EscapeAt(s, k - 1)
  }

  /** The escape count after `k` rounds. */
  function FudgeRounds(p: seq<nat>, s: seq<nat>, k: nat): nat
  {
    if k == 0 then 0 else FudgeRounds(p, s, k - 1) + FudgeAt(p, k - 1) + FudgeAt(s, k - 1)
  }

  /** One round appends the pulse, then the space, where they exist. */
  lemma RoundsStep(p: seq<nat>, s: seq<nat>, k: nat)
    requires k > 0
    ensures Rounds(p, s, k) == Rounds(p, s, k - 1) + ValueAt(p, k - 1) + ValueAt(s, k - 1)
  {
  }

  lemma EscapedValueAt(xs: seq<nat>, k: nat)
    ensures Escaped(ValueAt(xs, k)) == EscapeAt(xs, k)
    ensures Fudge(ValueAt(xs, k)) == FudgeAt(xs, k)
  {
    if k < |xs| {
      assert ValueAt(xs, k)[1..] == [];
    }
  }

  /** Escaping a round's values appends that round's escapes. */
  lemma EscapedRound(r: seq<nat>, p: seq<nat>, s: seq<nat>, k: nat)
    ensures Escaped(r + ValueAt(p, k) + ValueAt(s, k)) == Escaped(r) + EscapeAt(p, k) + EscapeAt(s, k)
    ensures Fudge(r + ValueAt(p, k) + ValueAt(s, k)) == Fudge(r) + FudgeAt(p, k) + FudgeAt(s, k)
  {
    var a, b := ValueAt(p, k), ValueAt(s, k);
    EscapedAppend(r, a);
    EscapedAppend(r + a, b);
    EscapedValueAt(p, k);
    EscapedValueAt(s, k);
  }

  lemma AppendAssoc(a: seq<byte>, b: seq<byte>, c: seq<byte>, d: seq<byte>)
    ensures a + (b + c + d) == (a + b) + c + d
  {
  }

  lemma {:induction false} FudgeRoundsCount(p: seq<nat>, s: seq<nat>, k: nat)
    ensures FudgeRounds(p, s, k) == Fudge(Rounds(p, s, k))
  {
    if k > 0 {
      var r, a, b := Rounds(p, s, k - 1), ValueAt(p, k - 1), ValueAt(s, k - 1);
      calc {
        FudgeRounds(p, s, k);
        FudgeRounds(p, s, k - 1) + FudgeAt(p, k - 1) + FudgeAt(s, k - 1);
        { FudgeRoundsCount(p, s, k - 1); }
        Fudge(r) + FudgeAt(p, k - 1) + FudgeAt(s, k - 1);
        { EscapedRound(r, p, s, k - 1); }
        Fudge(r + a + b);
        { RoundsStep(p, s, k); }
        Fudge(Rounds(p, s, k));
      }
    }
  }

  lemma {:induction false} EncodedRoundsEscaped(init: seq<byte>, p: seq<nat>, s: seq<nat>, k: nat)
    ensures EncodedRounds(init, p, s, k) == init + Escaped(Rounds(p, s, k))
  {
    if k == 0 {
      assert init + [] == init;
    } else {
      var r := Rounds(p, s, k - 1);
      calc {
        EncodedRounds(init, p, s, k);
        EncodedRounds(init, p, s, k - 1) + EscapeAt(p, k - 1) + EscapeAt(s, k - 1);
        { EncodedRoundsEscaped(init, p, s, k - 1); }
        (init + Escaped(r)) + EscapeAt(p, k - 1) + EscapeAt(s, k - 1);
        { AppendAssoc(init, Escaped(r), EscapeAt(p, k - 1), EscapeAt(s, k - 1)); }
        init + (Escaped(r) + EscapeAt(p, k - 1) + EscapeAt(s, k - 1));
        { EscapedRound(r, p, s, k - 1); }
        init + Escaped(r + ValueAt(p, k - 1) + ValueAt(s, k - 1));
        { RoundsStep(p, s, k); }
        init + Escaped(Rounds(p, s, k));
      }
    }
  }

  /** Writes one value at `d[n..]`, escaped, and counts an escape. */
  method EmitValue(d: array<byte>, n: nat, nofFudge: nat, t: nat) returns (n': nat, nofFudge': nat)
    requires n + |Escape(t)| <= d.Length
    modifies d
    ensures n' == n + |Escape(t)|
    ensures d[..n'] == old(d[..n]) + Escape(t)
    ensures nofFudge' == nofFudge + (if t >= 0x80 then 1 else 0)
    ensures forall q | n' <= q < d.Length :: d[q] == old(d[q])
  {
    if t >= 0x80 {
      d[n] := EscHi(t);
      d[n + 1] := t % 256;
      n', nofFudge' := n + 2, nofFudge + 1;
    } else {
      d[n] := t;
      n', nofFudge' := n + 1, nofFudge;
    }
  }

  /** The escape count never falls from one round to a later one. */
  lemma {:induction false} FudgeRoundsGrow(p: seq<nat>, s: seq<nat>, j: nat, k: nat)
    requires j <= k
    ensures FudgeRounds(p, s, j) <= FudgeRounds(p, s, k)
  {
    if j < k {
      FudgeRoundsGrow(p, s, j, k - 1);
    }
  }

  lemma RoundFits(P: seq<nat>, S: seq<nat>, k: nat, last: nat, lp: nat, ls: nat, nofP: nat, nofS: nat, fudge: nat)
    requires lp == |P| && ls == |S| && k < last
    requires nofP == Left(lp, k) && nofS == Left(ls, k) && fudge == FudgeRounds(P, S, k)
    ensures (lp - nofP) + (ls - nofS) + fudge + (nofP - Left(lp, k + 1)) + (nofS - Left(ls, k + 1)) + FudgeAt(P, k) + FudgeAt(S, k)
         <= lp + ls + FudgeRounds(P, S, last)
  {
    FudgeRoundsGrow(P, S, k + 1, last);
  }

  /** Round `k + 1` extends the bytes and the escape count of round `k`. */
  lemma RoundStep(prefix: seq<byte>, P: seq<nat>, S: seq<nat>, k: nat, before: seq<byte>, fudge: nat)
    requires before == EncodedRounds(prefix, P, S, k) && fudge == FudgeRounds(P, S, k)
    ensures EncodedRounds(prefix, P, S, k + 1) == before + EscapeAt(P, k) + EscapeAt(S, k)
    ensures FudgeRounds(P, S, k + 1) == fudge + FudgeAt(P, k) + FudgeAt(S, k)
  {
  }

  /** How many of `len` values are left after `k` rounds. */
  function Left(len: nat, k: nat): nat
  {
    if k < len then len - k else 0
  }

  /** Values are left exactly while fewer rounds than the longer sequence's length have run. */
  lemma Remaining(lp: nat, ls: nat, k: nat)
    requires k <= if lp < ls then ls else lp
    ensures Left(lp, k) > 0 || Left(ls, k) > 0 <==> k < if lp < ls then ls else lp
  {
  }

  /** One round of the encoders' loop: the next pulse, then the next space, where left. */
  method EmitRound(d: array<byte>, n: nat, nofFudge: nat, pulses: seq<nat>, spaces: seq<nat>,
                   ps: Scale, ss: Scale, nofPulses: nat, nofSpaces: nat, ghost k: nat)
    returns (n': nat, nofFudge': nat, nofPulses': nat, nofSpaces': nat)
    requires ps.div > 0 && ss.div > 0
    requires nofPulses == Left(|pulses|, k) && nofSpaces == Left(|spaces|, k)
    requires n + (nofPulses - Left(|pulses|, k + 1)) + (nofSpaces - Left(|spaces|, k + 1))
           + FudgeAt(Scaled(pulses, ps), k) + FudgeAt(Scaled(spaces, ss), k) <= d.Length
    modifies d
    ensures nofPulses' == Left(|pulses|, k + 1) && nofSpaces' == Left(|spaces|, k + 1)
    ensures nofFudge' == nofFudge + FudgeAt(Scaled(pulses, ps), k) + FudgeAt(Scaled(spaces, ss), k)
    ensures n' == n + (nofPulses - nofPulses') + (nofSpaces - nofSpaces') + (nofFudge' - nofFudge)
    ensures d[..n'] == old(d[..n]) + EscapeAt(Scaled(pulses, ps), k) + EscapeAt(Scaled(spaces, ss), k)
    ensures forall q | n' <= q < d.Length :: d[q] == old(d[q])
  {
    n', nofFudge', nofPulses', nofSpaces' := n, nofFudge, nofPulses, nofSpaces;
    if nofPulses > 0 {
      n', nofFudge' := EmitValue(d, n', nofFudge', Apply(ps, pulses[|pulses| - nofPulses]));
      nofPulses' := nofPulses - 1;
    }
    if nofSpaces > 0 {
      n', nofFudge' := EmitValue(d, n', nofFudge', Apply(ss, spaces[|spaces| - nofSpaces]));
      nofSpaces' := nofSpaces - 1;
    }
  }

  /**
   * The data loop of the encoders: on each round the next pulse, then the
   * next space, each scaled and escaped, until both are used up. Returns
   * the end of the data and the number of escaped values.
   */
  /**
   * The state of the write loop after `k` rounds: the counters, the bytes
   * written so far (`done`, ending at `n`) and the escape count.
   */
  ghost predicate Progress(done: seq<byte>, n: nat, nofFudge: nat, nofPulses: nat, nofSpaces: nat,
                           prefix: seq<byte>, start: nat, pulses: seq<nat>, spaces: seq<nat>, ps: Scale, ss: Scale, k: nat)
    requires ps.div > 0 && ss.div > 0
  {
    && nofPulses == Left(|pulses|, k) && nofSpaces == Left(|spaces|, k)
    && n == start + (|pulses| - nofPulses) + (|spaces| - nofSpaces) + nofFudge
    && done == EncodedRounds(prefix, Scaled(pulses, ps), Scaled(spaces, ss), k)
    && nofFudge == FudgeRounds(Scaled(pulses, ps), Scaled(spaces, ss), k)
  }

  /** One round of the write loop, from `Progress` at round `k` to round `k + 1`. */
  method WriteRound(d: array<byte>, n: nat, nofFudge: nat, pulses: seq<nat>, spaces: seq<nat>,
                    ps: Scale, ss: Scale, nofPulses: nat, nofSpaces: nat,
                    ghost prefix: seq<byte>, ghost start: nat, ghost k: nat, ghost last: nat)
    returns (n': nat, nofFudge': nat, nofPulses': nat, nofSpaces': nat)
    requires ps.div > 0 && ss.div > 0
    requires k < last && |pulses| <= last && |spaces| <= last
    requires start + |pulses| + |spaces| + FudgeRounds(Scaled(pulses, ps), Scaled(spaces, ss), last) <= d.Length
    requires n <= d.Length && Progress(d[..n], n, nofFudge, nofPulses, nofSpaces, prefix, start, pulses, spaces, ps, ss, k)
    modifies d
    ensures n' <= d.Length && Progress(d[..n'], n', nofFudge', nofPulses', nofSpaces', prefix, start, pulses, spaces, ps, ss, k + 1)
    ensures forall q | n' <= q < d.Length :: d[q] == old(d[q])
  {
    ghost var P, S := Scaled(pulses, ps), Scaled(spaces, ss);
    RoundStep(prefix, P, S, k, d[..n], nofFudge);
    RoundFits(P, S, k, last, |pulses|, |spaces|, nofPulses, nofSpaces, nofFudge);
    n', nofFudge', nofPulses', nofSpaces' := EmitRound(d, n, nofFudge, pulses, spaces, ps, ss, nofPulses, nofSpaces, k);
  }

  method WriteValues(d: array<byte>, start: nat, pulses: seq<nat>, spaces: seq<nat>, ps: Scale, ss: Scale)
    returns (n: nat, nofFudge: nat)
    requires ps.div > 0 && ss.div > 0
    requires start + |pulses| + |spaces|
           + FudgeRounds(Scaled(pulses, ps), Scaled(spaces, ss), if |pulses| < |spaces| then |spaces| else |pulses|) <= d.Length
    modifies d
    ensures start <= n <= d.Length
    ensures var k := if |pulses| < |spaces| then |spaces| else |pulses|;
      && d[..n] == EncodedRounds(old(d[..start]), Scaled(pulses, ps), Scaled(spaces, ss), k)
      && nofFudge == FudgeRounds(Scaled(pulses, ps), Scaled(spaces, ss), k)
    ensures forall q | n <= q < d.Length :: d[q] == old(d[q])
  {
    ghost var P, S := Scaled(pulses, ps), Scaled(spaces, ss);
    ghost var prefix: seq<byte> := d[..start];
    var nofPulses: nat, nofSpaces: nat := |pulses|, |spaces|;
    n, nofFudge := start, 0;
    ghost var k := 0;
    ghost var last := if |pulses| < |spaces| then |spaces| else |pulses|;
    while nofPulses > 0 || nofSpaces > 0
      invariant k <= last
      invariant n <= d.Length && Progress(d[..n], n, nofFudge, nofPulses, nofSpaces, prefix, start, pulses, spaces, ps, ss, k)
      invariant forall q | n <= q < d.Length :: d[q] == old(d[q])
      decreases last - k
    {
      Remaining(|pulses|, |spaces|, k);
      n, nofFudge, nofPulses, nofSpaces := WriteRound(d, n, nofFudge, pulses, spaces, ps, ss, nofPulses, nofSpaces, prefix, start, k, last);
      k := k + 1;
    }
    Remaining(|pulses|, |spaces|, k);
  }

  /** Adds the escape count to the length byte and the data-length byte, modulo 256. */
  method AddFudge(d: array<byte>, n: nat, nofFudge: nat, ghost header: seq<byte>, ghost rest: seq<byte>)
    requires |header| == HeaderLen && n <= d.Length
    requires d[..n] == header + rest
    modifies d
    ensures d[..n] == Patched(header, nofFudge) + rest
    ensures forall q | n <= q < d.Length :: d[q] == old(d[q])
  {
    d[1] := (d[1] + nofFudge) % 256;
    d[6] := (d[6] + nofFudge) % 256;
    var b1, b6: byte := d[1], d[6];
    assert d[..n] == old(d[..n])[LengthOffset := b1][DataLengthOffset := b6];
    PatchHeader(header, rest, b1, b6);
  }

  /**
   * The encoder shared by rr_output, rr2_output and rp_output: header,
   * data, then the escape count added to bytes 1 and 6.
   */
  method WriteTxRaw(d: array<byte>, freqByte: nat, repeat: byte, interspace: nat,
                    pulses: seq<nat>, spaces: seq<nat>, ps: Scale, ss: Scale) returns (n: nat)
    requires ps.div > 0 && ss.div > 0
    requires |TxRawFrame(freqByte, repeat, interspace, Interleave(Scaled(pulses, ps), Scaled(spaces, ss)))| <= d.Length
    modifies d
    ensures n <= d.Length
    ensures d[..n] == TxRawFrame(freqByte, repeat, interspace, Interleave(Scaled(pulses, ps), Scaled(spaces, ss)))
    ensures forall q | n <= q < d.Length :: d[q] == old(d[q])
  {
    ghost var P, S := Scaled(pulses, ps), Scaled(spaces, ss);
    ghost var vs := Interleave(P, S);
    var count := |pulses| + |spaces|;
    WriteHeader(d, freqByte, repeat, interspace, count);
    ghost var header: seq<byte> := d[..HeaderLen];
    ghost var k := if |pulses| < |spaces| then |spaces| else |pulses|;
    EncodedRoundsEscaped(header, P, S, k);
    RoundsInterleave(P, S, k);
    FudgeRoundsCount(P, S, k);
    var nofFudge;
    n, nofFudge := WriteValues(d, HeaderLen, pulses, spaces, ps, ss);
    ghost var body: seq<byte> := d[..n];
    assert body == header + Escaped(vs) && nofFudge == Fudge(vs);
    AddFudge(d, n, nofFudge, header, Escaped(vs));
    assert |vs| == count && header == Header(freqByte, repeat, interspace, |vs|);
  }
}
