/**
 * The Pronto codec (uirt-pronto.c). A Pronto code, as bytes, is an
 * 8-byte preamble (a format word, the carrier divisor, two burst counts)
 * and then big-endian 16-bit pulse and space times in carrier cycles.
 * The parser records the times; the encoder copies them, unscaled, into
 * a TX_RAW command.
 */
module ProntoCodec {
  import opened Bytes
  import opened TxRaw

  const MaxPulses: nat := 128        // RP_MAX_PULSES
  const PreambleLen: nat := 8        // what rp_init consumes
  const DivisorOffset: nat := 2      // the divisor word inside the preamble
  const CarrierBase: nat := 4145146  // carrier frequency times divisor

  /** The helper the parse loop calls next. */
  datatype Phase = AtInit | AtPulse | AtSpace

  /** The fields of rp_ctx. */
  datatype ProntoState = ProntoState(repeat: byte, interspace: nat, freq: nat,
                                     pulses: seq<nat>, spaces: seq<nat>)

  /** A context whose bytes are all zero. */
  const Zero := ProntoState(0, 0, 0, [], [])

  /** The parse loop's variables: offset, next helper, context. */
  datatype Config = Config(n: nat, phase: Phase, st: ProntoState)

  /** The context rp_init leaves for the divisor `div`. */
  function Initial(div: nat): (st: ProntoState)
    requires div > 0
    ensures st.freq * div <= CarrierBase < (st.freq + 1) * div
    ensures st.repeat == 1 && st.interspace == 0 && st.pulses == [] && st.spaces == []
  {
    ProntoState(1, 0, CarrierBase / div, [], [])
  }

  /**
   * One call of the helper for `c.phase` at offset `c.n` of the store `d`.
   * None where C has no defined behaviour: a read running off the store,
   * a zero divisor, or a 129th pulse or space.
   */
  function Step(d: seq<byte>, c: Config): (r: Option<Config>)
    requires c.n < |d|
    ensures r.Some? ==> r.value.n > c.n
    ensures r.Some? ==> r.value.phase == (if c.phase == AtPulse then AtSpace else AtPulse)
  {
    match c.phase
    case AtInit =>
      if c.n + DivisorOffset + 1 < |d| && Be16(d, c.n + DivisorOffset) > 0
      then Some(Config(c.n + PreambleLen, AtPulse, Initial(Be16(d, c.n + DivisorOffset))))
      else None
    case AtPulse =>
      if c.n + 1 < |d| && |c.st.pulses| < MaxPulses
      then Some(Config(c.n + 2, AtSpace, c.st.(pulses := c.st.pulses + [Be16(d, c.n)])))
      else None
    case AtSpace =>
      if c.n + 1 < |d| && |c.st.spaces| < MaxPulses
      then Some(Config(c.n + 2, AtPulse, c.st.(spaces := c.st.spaces + [Be16(d, c.n)])))
      else None
  }

  /** The parse loop from configuration `c` on the first `len` bytes of the store `d`. */
  function Run(d: seq<byte>, len: nat, c: Config): (r: Option<Config>)
    requires len <= |d|
    ensures r.Some? ==> r.value.n >= c.n && r.value.n >= len
    decreases len - c.n
  {
    if c.n >= len then Some(c)
    else
      match Step(d, c)
      case None => None
      case Some(c') => Run(d, len, c')
  }

  /** The context rp_parse leaves on the first `len` bytes of `d`, starting from `st0`. */
  function Parsed(d: seq<byte>, len: nat, st0: ProntoState): Option<ProntoState>
    requires len <= |d|
  {
    match Run(d, len, Config(0, AtInit, st0))
    case None => None
    case Some(c) => Some(c.st)
  }

  /** The `k` pulses of a Pronto code: the words at 8, 12, 16, ... */
  function PulsesOf(d: seq<byte>, k: nat): (p: seq<nat>)
    requires PreambleLen + 4 * k <= |d| + 2
    ensures |p| == k && forall i | 0 <= i < k :: p[i] == Be16(d, PreambleLen + 4 * i)
  {
    seq(k, (i: nat) requires i < k => Be16(d, PreambleLen + 4 * i))
  }

  /** The `k` spaces of a Pronto code: the words at 10, 14, 18, ... */
  function SpacesOf(d: seq<byte>, k: nat): (s: seq<nat>)
    requires PreambleLen + 4 * k <= |d|
    ensures |s| == k && forall i | 0 <= i < k :: s[i] == Be16(d, PreambleLen + 2 + 4 * i)
  {
    seq(k, (i: nat) requires i < k => Be16(d, PreambleLen + 2 + 4 * i))
  }

  /**
   * After the preamble, `i` rounds of pulse-then-space consume four bytes
   * each and append the words in order, as long as they stay within
   * `len` and the 128-entry arrays.
   */
  lemma {:induction false} RunPairs(d: seq<byte>, len: nat, k: nat, i: nat, st: ProntoState)
    requires len <= |d| && PreambleLen + 4 * k <= len && k <= MaxPulses && i <= k
    requires st.pulses == PulsesOf(d, i) && st.spaces == SpacesOf(d, i)
    ensures Run(d, len, Config(PreambleLen + 4 * i, AtPulse, st))
         == Run(d, len, Config(PreambleLen + 4 * k, AtPulse, st.(pulses := PulsesOf(d, k), spaces := SpacesOf(d, k))))
    decreases k - i
  {
    if i < k {
      var n := PreambleLen + 4 * i;
      var st1 := st.(pulses := PulsesOf(d, i + 1));
      assert PulsesOf(d, i) + [Be16(d, n)] == PulsesOf(d, i + 1);
      assert Run(d, len, Config(n, AtPulse, st)) == Run(d, len, Config(n + 2, AtSpace, st1));
      var st2 := st1.(spaces := SpacesOf(d, i + 1));
      assert SpacesOf(d, i) + [Be16(d, n + 2)] == SpacesOf(d, i + 1);
      assert Run(d, len, Config(n + 2, AtSpace, st1)) == Run(d, len, Config(n + 4, AtPulse, st2));
      RunPairs(d, len, k, i + 1, st2);
    } else {
      assert st.(pulses := PulsesOf(d, k), spaces := SpacesOf(d, k)) == st;
    }
  }

  /** The preamble: one init call that moves past all eight bytes. */
  lemma RunPreamble(d: seq<byte>, len: nat, st0: ProntoState)
    requires PreambleLen <= len <= |d| && Be16(d, DivisorOffset) > 0
    ensures Run(d, len, Config(0, AtInit, st0))
         == Run(d, len, Config(PreambleLen, AtPulse, Initial(Be16(d, DivisorOffset))))
  {
  }

  /**
   * A whole code of `8 + 4k` bytes (k at most 128) with a non-zero
   * divisor parses into repeat 1, interspace 0, the carrier frequency
   * `4145146 / divisor`, and the k pulse words and k space words.
   */
  lemma ParseFrame(d: seq<byte>, len: nat, st0: ProntoState, k: nat)
    requires len <= |d| && len == PreambleLen + 4 * k && k <= MaxPulses
    requires Be16(d, DivisorOffset) > 0
    ensures Parsed(d, len, st0)
         == Some(ProntoState(1, 0, CarrierBase / Be16(d, DivisorOffset), PulsesOf(d, k), SpacesOf(d, k)))
  {
    var st := Initial(Be16(d, DivisorOffset));
    RunPreamble(d, len, st0);
    assert PulsesOf(d, 0) == [] && SpacesOf(d, 0) == [];
    RunPairs(d, len, k, 0, st);
  }

  /**
   * A code that ends after a pulse word, `8 + 4k + 2` bytes (k below
   * 128), records one pulse more than spaces.
   */
  lemma ParseTrailingPulse(d: seq<byte>, len: nat, st0: ProntoState, k: nat)
    requires len <= |d| && len == PreambleLen + 4 * k + 2 && k < MaxPulses
    requires Be16(d, DivisorOffset) > 0
    ensures Parsed(d, len, st0)
         == Some(ProntoState(1, 0, CarrierBase / Be16(d, DivisorOffset), PulsesOf(d, k + 1), SpacesOf(d, k)))
  {
    var st := Initial(Be16(d, DivisorOffset));
    RunPreamble(d, len, st0);
    assert PulsesOf(d, 0) == [] && SpacesOf(d, 0) == [];
    RunPairs(d, len, k, 0, st);
    var n := PreambleLen + 4 * k;
    assert PulsesOf(d, k) + [Be16(d, n)] == PulsesOf(d, k + 1);
  }

  /**
   * A code cut inside its preamble (1 to 8 bytes, the divisor still in
   * the store) records no times, only the preamble's context.
   */
  lemma ParseShort(d: seq<byte>, len: nat, st0: ProntoState)
    requires 0 < len <= PreambleLen && len <= |d| && DivisorOffset + 1 < |d|
    requires Be16(d, DivisorOffset) > 0
    ensures Parsed(d, len, st0) == Some(Initial(Be16(d, DivisorOffset)))
  {
    var c := Config(PreambleLen, AtPulse, Initial(Be16(d, DivisorOffset)));
    assert Step(d, Config(0, AtInit, st0)) == Some(c);
    assert Run(d, len, c) == Some(c);
  }

  /** Divisor 118, the usual Pronto 0x0076, means a 35128 Hz carrier and frequency byte 71. */
  lemma Divisor118(d: seq<byte>)
    requires |d| == PreambleLen && d[DivisorOffset] == 0x00 && d[DivisorOffset + 1] == 0x76
    ensures Parsed(d, |d|, Initial(1)) == Some(ProntoState(1, 0, 35128, [], []))
    ensures FreqByte(35128) == 71
  {
    ParseFrame(d, |d|, Initial(1), 0);
  }

  /** A context rp_output can encode: a carrier, and the arrays not overrun. */
  ghost predicate Sane(st: ProntoState)
  {
    st.freq > 0 && |st.pulses| <= MaxPulses && |st.spaces| <= MaxPulses
  }

  /**
   * The init helper yields a sane context (a 16-bit divisor leaves a
   * carrier of at least 63 Hz), and the other helpers keep it sane.
   */
  lemma {:induction false} RunSane(d: seq<byte>, len: nat, c: Config)
    requires len <= |d| && (Sane(c.st) || (c.phase == AtInit && c.n < len))
    ensures Run(d, len, c).Some? ==> Sane(Run(d, len, c).value.st)
    decreases len - c.n
  {
    if c.n < len {
      match Step(d, c)
      case None =>
      case Some(c') =>
        if c.phase == AtInit {
          var div := Be16(d, c.n + DivisorOffset);
          assert c'.st.freq * div <= CarrierBase < (c'.st.freq + 1) * div;
        }
        RunSane(d, len, c');
    }
  }

  /** Whatever the context held, a non-empty parse leaves one rp_output can encode. */
  lemma ParsedSane(d: seq<byte>, len: nat, st0: ProntoState)
    requires 0 < len <= |d| && Parsed(d, len, st0).Some?
    ensures Sane(Parsed(d, len, st0).value)
  {
    RunSane(d, len, Config(0, AtInit, st0));
  }

  /** The TX_RAW command rp_output builds: times unscaled, interleaved pulse-first. */
  function OutputFrame(st: ProntoState): seq<byte>
    requires st.freq > 0
  {
    TxRawFrame(FreqByte(st.freq), st.repeat, st.interspace, Interleave(st.pulses, st.spaces))
  }

  /** Times the escape carries intact: below 0x8000. */
  ghost predicate Fits(xs: seq<nat>)
  {
    forall i | 0 <= i < |xs| :: xs[i] < 0x8000
  }

  /**
   * The command reads back as the frequency byte (truncated to 8 bits,
   * as rp_output stores it), the repeat count, the interspace and the
   * times, interleaved, when every time is below 0x8000.
   */
  lemma OutputDecodes(st: ProntoState)
    requires st.freq > 0 && st.interspace < 0x10000 && Fits(st.pulses) && Fits(st.spaces)
    ensures DecodeTxRaw(OutputFrame(st))
         == Some(TxRawCmd(FreqByte(st.freq) % 256, st.repeat, st.interspace, Interleave(st.pulses, st.spaces)))
  {
    var vs := Interleave(st.pulses, st.spaces);
    forall j | 0 <= j < |vs|
      ensures vs[j] < 0x8000
    {
      InterleaveFits(st.pulses, st.spaces, j);
    }
    TxRawRoundTrip(FreqByte(st.freq), st.repeat, st.interspace, vs);
  }

  lemma {:induction false} InterleaveFits(p: seq<nat>, s: seq<nat>, j: nat)
    requires Fits(p) && Fits(s) && j < |p| + |s|
    ensures Interleave(p, s)[j] < 0x8000
  {
    if p != [] && s != [] && j >= 2 {
      InterleaveFits(p[1..], s[1..], j - 2);
    }
  }

  /**
   * Transcoding a whole Pronto code of k pairs whose times are below
   * 0x8000: the TX_RAW command reads back as repeat 1, interspace 0, the
   * frequency byte of `4145146 / divisor`, and the Pronto words in their
   * original order.
   */
  lemma Transcode(d: seq<byte>, k: nat)
    requires |d| == PreambleLen + 4 * k && k <= MaxPulses && Be16(d, DivisorOffset) > 0
    requires forall i | 0 <= i < k :: d[PreambleLen + 4 * i] < 0x80 && d[PreambleLen + 2 + 4 * i] < 0x80
    ensures Parsed(d, |d|, Initial(1)).Some?
    ensures var st := Parsed(d, |d|, Initial(1)).value;
      st.freq > 0
      && DecodeTxRaw(OutputFrame(st))
         == Some(TxRawCmd(FreqByte(st.freq) % 256, 1, 0, Interleave(PulsesOf(d, k), SpacesOf(d, k))))
  {
    ParseFrame(d, |d|, Initial(1), k);
    var st := Parsed(d, |d|, Initial(1)).value;
    assert st.freq > 0 by {
      var div := Be16(d, DivisorOffset);
      assert div < 0x10000;
      assert st.freq * div <= CarrierBase < (st.freq + 1) * div;
    }
    forall i | 0 <= i < k
      ensures st.pulses[i] < 0x8000 && st.spaces[i] < 0x8000
    {
      Be16Below(d, PreambleLen + 4 * i);
      Be16Below(d, PreambleLen + 2 + 4 * i);
    }
    OutputDecodes(st);
  }

  /** A word whose first byte is below 0x80 is below 0x8000. */
  lemma Be16Below(d: seq<byte>, i: nat)
    requires i + 1 < |d| && d[i] < 0x80
    ensures Be16(d, i) < 0x8000
  {
  }

  /** rp_ctx: the context the parser fills and the encoder reads. */
  class ProntoCtx {
    var repeat: byte
    var interspace: nat
    var freq: nat
    var pulses: seq<nat>
    var spaces: seq<nat>

    function State(): ProntoState
      reads this
    {
      ProntoState(repeat, interspace, freq, pulses, spaces)
    }

    /** A context whose bytes are all zero. */
    constructor Zeroed()
      ensures State() == Zero
    {
      repeat, interspace, freq, pulses, spaces := 0, 0, 0, [], [];
    }

    /**
     * rp_init: zeroes the context, one repeat, interspace 0, the carrier
     * `4145146 / divisor` from the word at offset 2; consumes 8 bytes.
     */
    method Init(d: array<byte>, n: nat) returns (k: nat)
      requires n + DivisorOffset + 1 < d.Length && Be16(d[..], n + DivisorOffset) > 0
      modifies this
      ensures k == PreambleLen && State() == Initial(Be16(d[..], n + DivisorOffset))
    {
      var div := d[n + DivisorOffset] as nat * 256 + d[n + DivisorOffset + 1] as nat;
      repeat, interspace, freq, pulses, spaces := 1, 0, CarrierBase / div, [], [];
      k := PreambleLen;
    }

    /** rp_pulse: one big-endian word, appended to the pulses. */
    method ReadPulse(d: array<byte>, n: nat) returns (k: nat)
      requires n + 1 < d.Length && |pulses| < MaxPulses
      modifies this
      ensures k == 2 && State() == old(State()).(pulses := old(pulses) + [Be16(d[..], n)])
    {
      pulses := pulses + [d[n] as nat * 256 + d[n + 1] as nat];
      k := 2;
    }

    /** rp_space: one big-endian word, appended to the spaces. */
    method ReadSpace(d: array<byte>, n: nat) returns (k: nat)
      requires n + 1 < d.Length && |spaces| < MaxPulses
      modifies this
      ensures k == 2 && State() == old(State()).(spaces := old(spaces) + [Be16(d[..], n)])
    {
      spaces := spaces + [d[n] as nat * 256 + d[n + 1] as nat];
      k := 2;
    }

    /**
     * rp_parse: init, then pulse and space alternately, until the first
     * `len` bytes of the store `d` are used up; always returns 0.
     */
    method Parse(d: array<byte>, len: nat) returns (r: int)
      requires len <= d.Length
      requires Parsed(d[..], len, State()).Some?
      modifies this
      ensures r == 0 && Parsed(d[..], len, old(State())) == Some(State())
    {
      ghost var goal := Run(d[..], len, Config(0, AtInit, State()));
      var n: nat, phase := 0, AtInit;
      while n < len
        invariant goal.Some? && Run(d[..], len, Config(n, phase, State())) == goal
        decreases len - n
      {
        var k;
        match phase {
          case AtInit =>
            k := Init(d, n);
            phase := AtPulse;
          case AtPulse =>
            k := ReadPulse(d, n);
            phase := AtSpace;
          case AtSpace =>
            k := ReadSpace(d, n);
            phase := AtPulse;
        }
        n := n + k;
      }
      r := 0;
    }

    /**
     * rp_output: the TX_RAW command for the recorded code, times copied
     * unscaled, written at the start of `d`.
     */
    method Output(d: array<byte>) returns (n: nat)
      requires freq > 0
      requires |OutputFrame(State())| <= d.Length
      modifies d
      ensures n <= d.Length && d[..n] == OutputFrame(State())
      ensures forall q | n <= q < d.Length :: d[q] == old(d[q])
    {
      UnscaledIsIdentity(pulses);
      UnscaledIsIdentity(spaces);
      n := WriteTxRaw(d, FreqByte(freq), repeat, interspace, pulses, spaces, Unscaled, Unscaled);
    }
  }
}
