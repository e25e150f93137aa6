/**
 * The RAW receive mode codec (uirt-raw.c). The device sends, per code, a
 * big-endian 16-bit interspace and then alternating one-byte pulse and
 * space times in 50 us units; a space byte above 0x80 ends the code (0xFF
 * ends the stream). The parser records the times in a context; the
 * encoder turns the context into a TX_RAW command.
 */
module RawCodec {
  import opened Bytes
  import opened TxRaw

  const MaxPulses: nat := 128        // RR_MAX_PULSES
  const DefaultFreq: nat := 38461    // rr_init's carrier frequency
  const EndOfStream: byte := 0xFF
  const MaxSpace: byte := 0x80       // the longest space that is recorded
  const PulseScale: nat := 78000
  const SpaceScale: nat := 80000

  /** The helper the parse loop calls next. */
  datatype Phase = AtInit | AtInterspace | AtPulse | AtSpace

  /** The fields of rr_ctx that the codec reads and writes. */
  datatype RawState = RawState(done: nat, repeat: byte, interspace: nat, freq: nat,
                               pulses: seq<nat>, spaces: seq<nat>)

  /** The context as `rr_init` leaves it. */
  const Initial := RawState(0, 1, 0, DefaultFreq, [], [])

  /** The parse loop's variables: offset, next helper, context. */
  datatype Config = Config(n: nat, phase: Phase, st: RawState)

  /** rr_ret: bytes consumed, bytes to drop, and the two bytes put back in front. */
  datatype RawRet = RawRet(n: nat, m: nat, delay: seq<byte>)

  /**
   * One call of the helper for `c.phase` at offset `c.n` of the store `d`.
   * None where C has no defined behaviour: the interspace read running
   * off the store, or a 129th pulse or space.
   */
  function Step(d: seq<byte>, c: Config): (r: Option<Config>)
    requires c.n < |d|
    ensures r.Some? ==> r.value.n > c.n || (c.phase == AtInit && r.value.n == c.n && r.value.phase == AtInterspace)
  {
    match c.phase
    case AtInit => Some(Config(c.n, AtInterspace, Initial))
    case AtInterspace =>
      if c.n + 1 < |d| then Some(Config(c.n + 2, AtPulse, c.st.(interspace := Be16(d, c.n)))) else None
    case AtPulse =>
      if |c.st.pulses| < MaxPulses then Some(Config(c.n + 1, AtSpace, c.st.(pulses := c.st.pulses + [d[c.n]])))
      else None
    case AtSpace =>
      if d[c.n] == EndOfStream then Some(Config(c.n + 1, AtPulse, c.st.(done := 2)))
      else if d[c.n] > MaxSpace then Some(Config(c.n + 1, AtPulse, c.st.(done := 1)))
      else if |c.st.spaces| < MaxPulses then Some(Config(c.n + 1, AtPulse, c.st.(spaces := c.st.spaces + [d[c.n]])))
      else None
  }

  /** The parse loop from configuration `c` on the first `len` bytes of the store `d`. */
  function Run(d: seq<byte>, len: nat, c: Config): (r: Option<Config>)
    requires len <= |d|
    ensures r.Some? ==> r.value.n >= c.n
    decreases len - c.n, if c.phase == AtInit then 1 else 0
  {
    if c.n >= len || c.st.done != 0 then Some(c)
    else
      match Step(d, c)
      case None => None
      case Some(c') => Run(d, len, c')
  }

  /** What rr_parse returns once its loop has stopped at `c`. */
  function Result(c: Config): RawRet
  {
    if c.st.done != 0 then
      RawRet(c.n % 0x10000, (if c.st.done == 1 then c.n - 2 else c.n) % 0x10000, [0, 0])
    else RawRet(0, 0, [0, 0])
  }

  /** rr_parse on the first `len` bytes of `d`, starting from context `st0`. */
  function Parsed(d: seq<byte>, len: nat, st0: RawState): Option<(RawRet, RawState)>
    requires len <= |d|
  {
    match Run(d, len, Config(0, AtInit, st0))
    case None => None
    case Some(c) => Some((Result(c), c.st))
  }

  /** The `k` pulses of a RAW code: the bytes at 2, 4, 6, ... */
  function PulsesOf(d: seq<byte>, k: nat): (p: seq<nat>)
    requires 2 * k + 1 <= |d|
    ensures |p| == k && forall i | 0 <= i < k :: p[i] == d[2 + 2 * i]
  {
    seq(k, (i: nat) requires i < k => d[2 + 2 * i] as nat)
  }

  /** The first `k` spaces of a RAW code: the bytes at 3, 5, 7, ... */
  function SpacesOf(d: seq<byte>, k: nat): (s: seq<nat>)
    requires 2 * k + 2 <= |d|
    ensures |s| == k && forall i | 0 <= i < k :: s[i] == d[3 + 2 * i]
  {
    seq(k, (i: nat) requires i < k => d[3 + 2 * i] as nat)
  }

  /** How a code ends: 2 for the end-of-stream byte, 1 for a long space. */
  function DoneCode(term: byte): nat
  {
    if term == EndOfStream then 2 else 1
  }

  /**
   * A complete code: when the first space slot above 0x80 follows the
   * k-th pulse (k at most 128), the parse consumes `2k + 2` bytes and
   * drops all of them (0xFF) or all but the last two, the k-th pulse and
   * the terminator, whose place two zero bytes take (long space). It
   * records the interspace, the k pulses and the k - 1 spaces before the
   * terminator. Bytes after it are not looked at.
   */
  lemma ParseFrame(d: seq<byte>, len: nat, st0: RawState, k: nat)
    requires len <= |d| && st0.done == 0
    requires 1 <= k <= MaxPulses && 2 * k + 2 <= len
    requires forall i | 0 <= i < k - 1 :: d[3 + 2 * i] <= MaxSpace
    requires d[2 * k + 1] > MaxSpace
    ensures var term := d[2 * k + 1];
      Parsed(d, len, st0)
      == Some((RawRet(2 * k + 2, if term == EndOfStream then 2 * k + 2 else 2 * k, [0, 0]),
               RawState(DoneCode(term), 1, Be16(d, 0), DefaultFreq, PulsesOf(d, k), SpacesOf(d, k - 1))))
  {
    var st := Initial.(interspace := Be16(d, 0));
    assert Run(d, len, Config(0, AtInit, st0)) == Run(d, len, Config(2, AtPulse, st));
    assert PulsesOf(d, 0) == [] && SpacesOf(d, 0) == [];
    RunFrame(d, len, k, 0, st);
  }

  /** The pulse/space part of ParseFrame, from the i-th pulse on. */
  lemma {:induction false} RunFrame(d: seq<byte>, len: nat, k: nat, i: nat, st: RawState)
    requires len <= |d| && 1 <= k <= MaxPulses && 2 * k + 2 <= len && i < k
    requires forall j | 0 <= j < k - 1 :: d[3 + 2 * j] <= MaxSpace
    requires d[2 * k + 1] > MaxSpace
    requires st.done == 0 && st.pulses == PulsesOf(d, i) && st.spaces == SpacesOf(d, i)
    ensures Run(d, len, Config(2 + 2 * i, AtPulse, st))
         == Some(Config(2 * k + 2, AtPulse, st.(done := DoneCode(d[2 * k + 1]), pulses := PulsesOf(d, k),
                                              spaces := SpacesOf(d, k - 1))))
    decreases k - i
  {
    var st1 := st.(pulses := PulsesOf(d, i + 1));
    assert PulsesOf(d, i) + [d[2 + 2 * i]] == PulsesOf(d, i + 1);
    assert Run(d, len, Config(2 + 2 * i, AtPulse, st)) == Run(d, len, Config(3 + 2 * i, AtSpace, st1));
    if i + 1 < k {
      assert SpacesOf(d, i) + [d[3 + 2 * i]] == SpacesOf(d, i + 1);
      assert Run(d, len, Config(3 + 2 * i, AtSpace, st1))
          == Run(d, len, Config(2 + 2 * (i + 1), AtPulse, st1.(spaces := SpacesOf(d, i + 1))));
      RunFrame(d, len, k, i + 1, st1.(spaces := SpacesOf(d, i + 1)));
    }
  }

  /**
   * An incomplete code: when no space slot within the first `len` bytes
   * holds a byte above 0x80, the parse reports nothing found (`n` is 0),
   * provided the pulses fit the 128-entry arrays and the interspace read
   * stays inside the store.
   */
  lemma ParseIncomplete(d: seq<byte>, len: nat, st0: RawState)
    requires len <= |d| && st0.done == 0
    requires len > 0 ==> |d| >= 2
    requires len <= 2 + 2 * MaxPulses
    requires forall i | 0 <= i && 3 + 2 * i < len :: d[3 + 2 * i] <= MaxSpace
    ensures Parsed(d, len, st0).Some? && Parsed(d, len, st0).value.0 == RawRet(0, 0, [0, 0])
  {
    if len > 0 {
      var st := Initial.(interspace := Be16(d, 0));
      assert Run(d, len, Config(0, AtInit, st0)) == Run(d, len, Config(2, AtPulse, st));
      if len > 2 {
        RunIncomplete(d, len, 0, st);
      }
    }
  }

  /** The pulse/space part of ParseIncomplete, from the i-th pulse on. */
  lemma {:induction false} RunIncomplete(d: seq<byte>, len: nat, i: nat, st: RawState)
    requires len <= |d| && len <= 2 + 2 * MaxPulses && 2 + 2 * i < len
    requires forall j | 0 <= j && 3 + 2 * j < len :: d[3 + 2 * j] <= MaxSpace
    requires st.done == 0 && |st.pulses| == i && |st.spaces| == i
    ensures Run(d, len, Config(2 + 2 * i, AtPulse, st)).Some?
    ensures Run(d, len, Config(2 + 2 * i, AtPulse, st)).value.st.done == 0
    decreases len - i
  {
    var st1 := st.(pulses := st.pulses + [d[2 + 2 * i]]);
    assert Run(d, len, Config(2 + 2 * i, AtPulse, st)) == Run(d, len, Config(3 + 2 * i, AtSpace, st1));
    if 3 + 2 * i < len {
      var st2 := st1.(spaces := st1.spaces + [d[3 + 2 * i]]);
      assert Run(d, len, Config(3 + 2 * i, AtSpace, st1)) == Run(d, len, Config(2 + 2 * (i + 1), AtPulse, st2));
      if 2 + 2 * (i + 1) < len {
        RunIncomplete(d, len, i + 1, st2);
      }
    }
  }

  /** The context a caller supplies: every field zero. */
  const Zero := RawState(0, 0, 0, 0, [], [])

  /** What the init helper guarantees and every later helper keeps. */
  ghost predicate Sane(st: RawState)
  {
    st.freq == DefaultFreq && |st.pulses| <= MaxPulses && |st.spaces| <= MaxPulses
  }

  /**
   * Where the loop can be, coming from offset 0 with no code finished:
   * the interspace is read at 0, so a pulse is read at 2 or later and a
   * space at 3 or later.
   */
  ghost predicate Reached(c: Config)
  {
    c.st.done == 0 &&
    match c.phase
    case AtInit => c.n == 0
    case AtInterspace => c.n == 0 && Sane(c.st)
    case AtPulse => c.n >= 2 && Sane(c.st)
    case AtSpace => c.n >= 3 && Sane(c.st)
  }

  /** A finished code ends inside the input, after at least four bytes, with a sane context. */
  lemma {:induction false} RunDone(d: seq<byte>, len: nat, c: Config)
    requires len <= |d| && Reached(c)
    ensures var r := Run(d, len, c);
      r.Some? && r.value.st.done != 0 ==> Sane(r.value.st) && 4 <= r.value.n <= len
    decreases len - c.n, if c.phase == AtInit then 1 else 0
  {
    if c.n < len {
      match Step(d, c)
      case None =>
      case Some(c') =>
        if c'.st.done == 0 {
          RunDone(d, len, c');
        }
    }
  }

  /**
   * What the aggregation logic relies on: when rr_parse, from a zeroed
   * context, reports a code (`n` not 0), the code ended within the input,
   * `m` is `n` or `n - 2`, the bytes to put back are two zeros, and the
   * context holds the default frequency and at most 128 times each.
   */
  lemma ParsedFound(d: seq<byte>, len: nat)
    requires len <= |d| && len < 0x10000
    requires Parsed(d, len, Zero).Some? && Parsed(d, len, Zero).value.0.n != 0
    ensures var (ret, st) := Parsed(d, len, Zero).value;
      Sane(st) && st.done != 0 && ret.m <= ret.n <= len && ret.n - ret.m <= 2 && ret.delay == [0, 0]
  {
    RunDone(d, len, Config(0, AtInit, Zero));
  }

  /** The data values of rr_output: scaled pulses and spaces, interleaved pulse-first. */
  function RawValues(st: RawState): seq<nat>
    requires st.freq > 0
  {
    Interleave(Scaled(st.pulses, Scale(PulseScale, st.freq)), Scaled(st.spaces, Scale(SpaceScale, st.freq)))
  }

  /** The TX_RAW command rr_output builds from a context. */
  function OutputFrame(st: RawState): seq<byte>
    requires st.freq > 0
  {
    TxRawFrame(FreqByte(st.freq), st.repeat, st.interspace, RawValues(st))
  }

  /** Times a parse can record: at most 128 byte-sized pulses, spaces up to 0x80. */
  ghost predicate Recorded(st: RawState)
  {
    && |st.pulses| <= MaxPulses && |st.spaces| <= MaxPulses && st.interspace < 0x10000
    && (forall i | 0 <= i < |st.pulses| :: st.pulses[i] < 256)
    && (forall i | 0 <= i < |st.spaces| :: st.spaces[i] <= MaxSpace)
  }

  /**
   * With a carrier frequency whose frequency byte is valid (below 0x80,
   * the range rr_output accepts without complaint), every scaled time is
   * below 0x8000, so the command reads back as the frequency byte, the
   * repeat count, the interspace and the scaled times, interleaved.
   */
  lemma OutputDecodes(st: RawState)
    requires Recorded(st) && st.freq > 0 && FreqByte(st.freq) < 0x80
    ensures DecodeTxRaw(OutputFrame(st)) == Some(TxRawCmd(FreqByte(st.freq), st.repeat, st.interspace, RawValues(st)))
  {
    var P, S := Scaled(st.pulses, Scale(PulseScale, st.freq)), Scaled(st.spaces, Scale(SpaceScale, st.freq));
    FreqBound(st.freq);
    forall i | 0 <= i < |P|
      ensures P[i] < 0x8000
    {
      ScaledBound(PulseScale, st.pulses[i], st.freq);
    }
    forall i | 0 <= i < |S|
      ensures S[i] < 0x8000
    {
      ScaledBound(SpaceScale, st.spaces[i], st.freq);
    }
    var vs := Interleave(P, S);
    forall j | 0 <= j < |vs|
      ensures vs[j] < 0x8000
    {
      InterleaveBound(P, S, 0x8000, j);
    }
    TxRawRoundTrip(FreqByte(st.freq), st.repeat, st.interspace, vs);
  }

  /** A valid frequency byte means a carrier above 19531 Hz. */
  lemma FreqBound(freq: nat)
    requires freq > 0 && FreqByte(freq) < 0x80
    ensures freq > 19531
  {
  }

  lemma ScaledBound(mul: nat, x: nat, freq: nat)
    requires mul <= SpaceScale && x < 256 && freq > 19531
    ensures mul * x / freq < 0x8000
  {
    assert mul * x <= SpaceScale * 255;
    assert mul * x < 0x8000 * freq;
  }

  lemma {:induction false} InterleaveBound(p: seq<nat>, s: seq<nat>, bound: nat, j: nat)
    requires forall i | 0 <= i < |p| :: p[i] < bound
    requires forall i | 0 <= i < |s| :: s[i] < bound
    requires j < |p| + |s|
    ensures Interleave(p, s)[j] < bound
  {
    if p != [] && s != [] && j >= 2 {
      InterleaveBound(p[1..], s[1..], bound, j - 2);
    }
  }

  /** The default carrier frequency gives frequency byte 0x41. */
  lemma DefaultFreqByte()
    ensures OutputFrame(Initial)[2] == 0x41
  {
    assert FreqByte(DefaultFreq) == 0x41;
  }

  /** rr_ctx: the context the parser fills and the encoder reads. */
  class RawCtx {
    var done: nat
    var repeat: byte
    var interspace: nat
    var freq: nat
    var pulses: seq<nat>
    var spaces: seq<nat>

    function State(): RawState
      reads this
    {
      RawState(done, repeat, interspace, freq, pulses, spaces)
    }

    /** A context whose bytes are all zero, as rr_parse's callers are taken to supply. */
    constructor Zeroed()
      ensures State() == Zero
    {
      done, repeat, interspace, freq, pulses, spaces := 0, 0, 0, 0, [], [];
    }

    /** rr_init: zeroes the context, then the default frequency and one repeat; reads nothing. */
    method Init() returns (k: nat)
      modifies this
      ensures k == 0 && State() == Initial
    {
      done, repeat, interspace, freq, pulses, spaces := 0, 1, 0, DefaultFreq, [], [];
      k := 0;
    }

    /** rr_interspace: two bytes, big-endian, unscaled. */
    method ReadInterspace(d: array<byte>, n: nat) returns (k: nat)
      requires n + 1 < d.Length
      modifies this
      ensures k == 2 && State() == old(State()).(interspace := Be16(d[..], n))
    {
      interspace := d[n] as nat * 256 + d[n + 1] as nat;
      k := 2;
    }

    /** rr_pulse: one byte, appended to the pulses. */
    method ReadPulse(d: array<byte>, n: nat) returns (k: nat)
      requires n < d.Length && |pulses| < MaxPulses
      modifies this
      ensures k == 1 && State() == old(State()).(pulses := old(pulses) + [d[n] as nat])
    {
      pulses := pulses + [d[n] as nat];
      k := 1;
    }

    /**
     * rr_space: one byte; 0xFF ends the stream (done 2), anything else
     * above 0x80 ends the code (done 1), otherwise it is a space.
     */
    method ReadSpace(d: array<byte>, n: nat) returns (k: nat)
      requires n < d.Length && (d[n] <= MaxSpace ==> |spaces| < MaxPulses)
      modifies this
      ensures k == 1
      ensures d[n] == EndOfStream ==> State() == old(State()).(done := 2)
      ensures MaxSpace < d[n] < EndOfStream ==> State() == old(State()).(done := 1)
      ensures d[n] <= MaxSpace ==> State() == old(State()).(spaces := old(spaces) + [d[n] as nat])
    {
      var s := d[n];
      k := 1;
      if s == EndOfStream {
        done := 2;
        return;
      }
      if s > MaxSpace {
        done := 1;
        return;
      }
      spaces := spaces + [s as nat];
    }

    /**
     * rr_parse: runs the helpers in the order init, interspace, then
     * pulse and space alternately, over the first `len` bytes of the store
     * `d`, until they are used up or a terminator is seen.
     */
    method Parse(d: array<byte>, len: nat) returns (ret: RawRet)
      requires len <= d.Length
      requires Parsed(d[..], len, State()).Some?
      modifies this
      ensures Parsed(d[..], len, old(State())) == Some((ret, State()))
    {
      ghost var goal := Run(d[..], len, Config(0, AtInit, State()));
      var n: nat, phase := 0, AtInit;
      while n < len && done == 0
        invariant goal.Some? && Run(d[..], len, Config(n, phase, State())) == goal
        decreases len - n, if phase == AtInit then 1 else 0
      {
        var k;
        match phase {
          case AtInit =>
            k := Init();
            phase := AtInterspace;
          case AtInterspace =>
            k := ReadInterspace(d, n);
            phase := AtPulse;
          case AtPulse =>
            k := ReadPulse(d, n);
            phase := AtSpace;
          case AtSpace =>
            k := ReadSpace(d, n);
            phase := AtPulse;
        }
        n := n + k;
      }
      ret := Result(Config(n, phase, State()));
    }

    /** rr_set_frequency: overwrites only the frequency. */
    method SetFrequency(f: nat)
      modifies this
      ensures State() == old(State()).(freq := f)
    {
      freq := f;
    }

    /**
     * rr_output: the TX_RAW command for the recorded code, pulses scaled
     * by 78000/freq and spaces by 80000/freq, written at the start of `d`.
     */
    method Output(d: array<byte>) returns (n: nat)
      requires freq > 0
      requires |OutputFrame(State())| <= d.Length
      modifies d
      ensures n <= d.Length && d[..n] == OutputFrame(State())
      ensures forall q | n <= q < d.Length :: d[q] == old(d[q])
    {
      n := WriteTxRaw(d, FreqByte(freq), repeat, interspace, pulses, spaces,
                      Scale(PulseScale, freq), Scale(SpaceScale, freq));
    }
  }
}
