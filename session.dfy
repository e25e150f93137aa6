/**
 * The session state machine (uirt-sm.c): it sits between the user and
 * the device. Commands from the user switch the receive mode and the
 * wait state and go to the device (a Pronto code transcoded to TX_RAW),
 * with a checksum byte appended. Bytes from the device are answers
 * passed through, or IR codes gathered in an aggregation buffer and
 * handed to the codec of the current mode.
 */
module Session {
  import opened Bytes
  import opened Buffers
  import TxRaw
  import RawCodec
  import Raw2Codec
  import ProntoCodec

  const AggMax: nat := 4096       // USM_AGG_MAX
  const UirCodeLen: nat := 6      // UIRT_UIR_CODE_LEN

  const CmdTxPronto: byte := 0x00  // the pseudo command for a Pronto code
  const CmdModeUir: byte := 0x20
  const CmdModeRaw: byte := 0x21
  const CmdGetVersion: byte := 0x23
  const CmdModeRaw2: byte := 0x24
  /** The GPIO, configuration and transmit commands, and the Pronto pseudo command. */
  const OtherCommands: set<byte> := {0x30, 0x31, 0x32, 0x33, 0x34, 0x35, 0x36, 0x37, 0x38, CmdTxPronto}

  /** What the device is sending codes in (USM_M_*). */
  datatype Mode = Echo | Uir | Raw | Raw2

  /** What the session expects from the device next (USM_W_*). */
  datatype Wait = WaitStatus | WaitCode | WaitVersion

  /**
   * The session as values: mode, wait state, default frequency, and the
   * aggregation buffer as its whole 4096-byte store and its length (the
   * RAW parser may read the store beyond the length).
   */
  datatype Sess = Sess(mode: Mode, wait: Wait, defaultFreq: nat, store: seq<byte>, len: nat)

  ghost predicate Good(s: Sess)
  {
    s.len <= |s.store| == AggMax
  }

  function Contents(s: Sess): seq<byte>
    requires s.len <= |s.store|
  {
    s.store[..s.len]
  }

  /** The store with its first `|src|` bytes replaced by `src`. */
  function Put(store: seq<byte>, src: seq<byte>): (r: seq<byte>)
    requires |src| <= |store|
    ensures |r| == |store| && r[..|src|] == src
  {
    src + store[|src|..]
  }

  // ---------------------------------------------------------------------
  // Aggregation buffer operations.

  /** A chunk from the device is appended when it fits the 4096 bytes, else dropped. */
  function Accept(s: Sess, chunk: seq<byte>): (r: Sess)
    requires Good(s)
    ensures Good(r) && r.mode == s.mode && r.wait == s.wait && r.defaultFreq == s.defaultFreq
    ensures s.len + |chunk| <= AggMax ==> Contents(r) == Contents(s) + chunk
    ensures s.len + |chunk| > AggMax ==> r == s
  {
    if s.len + |chunk| <= |s.store| then s.(store := Put(s.store, Contents(s) + chunk), len := s.len + |chunk|)
    else s
  }

  /** No bytes from the device (the NULL input of the "more" calls) change nothing. */
  lemma AcceptNothing(s: Sess)
    requires Good(s)
    ensures Accept(s, []) == s
  {
    assert Put(s.store, Contents(s)) == s.store;
  }

  /** buf_slide: drop `k` bytes from the front. */
  function Slid(s: Sess, k: nat): (r: Sess)
    requires Good(s)
    ensures Good(r) && Contents(r) == if k >= s.len then [] else Contents(s)[k..]
  {
    if k >= s.len then s.(len := 0)
    else s.(store := Put(s.store, s.store[k..s.len]), len := s.len - k)
  }

  /**
   * The fix-up after a code: emptied when `m == n`, otherwise slid by `m`
   * with the `n - m` bytes of `delay` copied over the front, so that the
   * buffer holds those bytes and then whatever followed the code.
   */
  function Refill(s: Sess, n: nat, m: nat, delay: seq<byte>): (r: Sess)
    requires Good(s) && m <= n <= s.len && n - m <= |delay|
    ensures Good(r) && r.mode == s.mode && r.wait == s.wait && r.defaultFreq == s.defaultFreq
  {
    if m != n then
      var t := Slid(s, m);
      t.(store := Put(t.store, delay[..n - m]))
    else s.(len := 0)
  }

  /** What Refill leaves: the put-back bytes, then the bytes after the code, in order. */
  lemma RefillContents(s: Sess, n: nat, m: nat, delay: seq<byte>)
    requires Good(s) && m <= n <= s.len && n - m <= |delay|
    ensures Contents(Refill(s, n, m, delay)) == if m == n then [] else delay[..n - m] + Contents(s)[n..]
  {
    if m != n {
      var t := Slid(s, m);
      var r := Refill(s, n, m, delay);
      assert Contents(t) == Contents(s)[m..];
      assert Contents(r) == delay[..n - m] + Contents(t)[n - m..];
    }
  }

  // ---------------------------------------------------------------------
  // The steps for bytes from the device, per mode. `outMax` is the output
  // buffer's capacity: the handlers write a code into it unchecked, so a
  // code longer than that is a step without defined behaviour (None).

  /**
   * usm_process_uir: gather the chunk; once six bytes are there, they are
   * the output and leave the buffer, the rest staying in order.
   */
  function UirStep(s: Sess, chunk: seq<byte>): (r: (Sess, seq<byte>))
    requires Good(s)
  {
    var a := Accept(s, chunk);
    if a.len >= UirCodeLen then (Slid(a, UirCodeLen), Contents(a)[..UirCodeLen]) else (a, [])
  }

  /**
   * The output of a UIR step and what it leaves in the buffer are, in
   * this order, exactly the bytes gathered; the output is one whole
   * six-byte code, or nothing while fewer than six bytes are there.
   */
  lemma UirSplits(s: Sess, chunk: seq<byte>)
    requires Good(s)
    ensures var (t, out) := UirStep(s, chunk); var a := Accept(s, chunk);
      Good(t) && out + Contents(t) == Contents(a)
      && (if a.len >= UirCodeLen then |out| == UirCodeLen else out == [])
  {
    var a := Accept(s, chunk);
    if a.len >= UirCodeLen {
      assert Contents(a)[..UirCodeLen] + Contents(a)[UirCodeLen..] == Contents(a);
    }
  }

  /** The UIR step where the code it outputs fits the output buffer. */
  function UirFits(s: Sess, chunk: seq<byte>, outMax: nat): Option<(Sess, seq<byte>)>
    requires Good(s)
  {
    var r := UirStep(s, chunk);
    if |r.1| > outMax then None else Some(r)
  }

  /**
   * usm_process_raw on a zeroed codec context: gather, parse the
   * buffer; when a code was found, the output is its TX_RAW command (at
   * the session's default frequency when one is set) and the buffer is
   * fixed up. None where C has no defined behaviour.
   */
  function RawStep(s: Sess, chunk: seq<byte>, outMax: nat): Option<(Sess, seq<byte>)>
    requires Good(s)
  {
    RawFound(Accept(s, chunk), outMax)
  }

  /** The part of RawStep after the chunk was gathered. */
  function RawFound(a: Sess, outMax: nat): Option<(Sess, seq<byte>)>
    requires Good(a)
  {
    match RawCodec.Parsed(a.store, a.len, RawCodec.Zero)
    case None => None
    case Some((ret, st)) =>
      if ret.n == 0 then Some((a, []))
      else
        RawCodec.ParsedFound(a.store, a.len);
        var st' := if a.defaultFreq != 0 then st.(freq := a.defaultFreq) else st;
        if |RawCodec.OutputFrame(st')| > outMax then None
        else Some((Refill(a, ret.n, ret.m, ret.delay), RawCodec.OutputFrame(st')))
  }

  /**
   * usm_process_raw2 on a zeroed codec context, with a code counted as
   * found when the parser says it finished one (`ret.done`); see
   * Raw2StepAsWritten for the test uirt-sm.c makes.
   */
  function Raw2Step(s: Sess, chunk: seq<byte>, outMax: nat): Option<(Sess, seq<byte>)>
    requires Good(s)
  {
    Raw2Found(Accept(s, chunk), outMax)
  }

  /** The part of Raw2Step after the chunk was gathered. */
  function Raw2Found(a: Sess, outMax: nat): Option<(Sess, seq<byte>)>
    requires Good(a)
  {
    match Raw2Codec.Parsed2(Contents(a), Raw2Codec.ZeroCtx)
    case None => None
    case Some((ret, st)) =>
      if !ret.done then Some((a, []))
      else if st.calcFreq == 0 then None
      else
        Raw2Codec.ParsedBounds(Contents(a));
        if |Raw2Codec.OutputFrame2(st)| > outMax then None
        else Some((Refill(a, ret.n, ret.m, ret.delay), Raw2Codec.OutputFrame2(st)))
  }

  /**
   * usm_process_raw2 as written: a code counts as found when `ret.n` is
   * not 0. rr2_output then divides by a frequency that only rr2_final
   * sets, which runs only when a code was finished. It agrees with the
   * corrected Raw2Step wherever the two tests agree, that is, wherever
   * the parser reads bytes exactly when it finishes a code.
   */
  function Raw2StepAsWritten(s: Sess, chunk: seq<byte>, outMax: nat): (r: Option<(Sess, seq<byte>)>)
    requires Good(s)
    ensures var p := Raw2Codec.Parsed2(Contents(Accept(s, chunk)), Raw2Codec.ZeroCtx);
      p.None? ==> r.None?
    ensures var p := Raw2Codec.Parsed2(Contents(Accept(s, chunk)), Raw2Codec.ZeroCtx);
      p.Some? && (p.value.0.done <==> p.value.0.n != 0) ==> r == Raw2Step(s, chunk, outMax)
  {
    var a := Accept(s, chunk);
    match Raw2Codec.Parsed2(Contents(a), Raw2Codec.ZeroCtx)
    case None => None
    case Some((ret, st)) =>
      if ret.n == 0 then Some((a, []))
      else if st.calcFreq == 0 then None
      else
        Raw2Codec.ParsedBounds(Contents(a));
        if |Raw2Codec.OutputFrame2(st)| > outMax then None
        else Some((Refill(a, ret.n, ret.m, ret.delay), Raw2Codec.OutputFrame2(st)))
  }

  /**
   * The two bytes of a RAW2 interspace and nothing more: the test as
   * written takes them for a code and reaches rr2_output with a zero
   * frequency (a division by zero); with the parser's own flag the
   * session emits nothing and keeps both bytes for the rest of the code.
   */
  lemma Raw2PartialCode(s: Sess, outMax: nat)
    requires Good(s) && s.len == 0
    ensures Raw2StepAsWritten(s, [0x00, 0x10], outMax) == None
    ensures Raw2Step(s, [0x00, 0x10], outMax).Some?
    ensures var (t, out) := Raw2Step(s, [0x00, 0x10], outMax).value; out == [] && Contents(t) == [0x00, 0x10]
  {
    Raw2Codec.IncompleteReportsBytes();
    assert Contents(Accept(s, [0x00, 0x10])) == [0x00, 0x10];
  }

  /**
   * With the parser's flag, an unfinished RAW2 code is never lost: the
   * session emits nothing and the buffer holds every byte gathered.
   */
  lemma Raw2KeepsPartial(s: Sess, chunk: seq<byte>, outMax: nat)
    requires Good(s) && Raw2Step(s, chunk, outMax).Some?
    requires !Raw2Codec.Parsed2(Contents(Accept(s, chunk)), Raw2Codec.ZeroCtx).value.0.done
    ensures Raw2Step(s, chunk, outMax).value.1 == []
    ensures Contents(Raw2Step(s, chunk, outMax).value.0) == if s.len + |chunk| <= AggMax then Contents(s) + chunk else Contents(s)
  {
  }

  /**
   * A complete RAW code at the front of the buffer (as in
   * RawCodec.ParseFrame), with no default frequency set: the session
   * outputs the code's TX_RAW command and keeps two zero bytes and what
   * followed the code after a long space, nothing after 0xFF. The step
   * is defined exactly when that command fits the output buffer.
   */
  lemma RawCodeConsumed(s: Sess, k: nat, outMax: nat)
    requires Good(s) && s.defaultFreq == 0
    requires 1 <= k <= RawCodec.MaxPulses && 2 * k + 2 <= s.len
    requires forall i | 0 <= i < k - 1 :: s.store[3 + 2 * i] <= RawCodec.MaxSpace
    requires s.store[2 * k + 1] > RawCodec.MaxSpace
    ensures var term := s.store[2 * k + 1];
      var frame := RawCodec.OutputFrame(RawCodec.RawState(RawCodec.DoneCode(term), 1, Be16(s.store, 0),
                     RawCodec.DefaultFreq, RawCodec.PulsesOf(s.store, k), RawCodec.SpacesOf(s.store, k - 1)));
      var m := if term == RawCodec.EndOfStream then 2 * k + 2 else 2 * k;
      && RawStep(s, [], outMax) == (if |frame| <= outMax then Some((Refill(s, 2 * k + 2, m, [0, 0]), frame)) else None)
      && Contents(Refill(s, 2 * k + 2, m, [0, 0])) == if term == RawCodec.EndOfStream then [] else [0, 0] + Contents(s)[2 * k + 2..]
  {
    RawCodec.ParseFrame(s.store, s.len, RawCodec.Zero, k);
    RawFoundCode(s, outMax);
    RawCodeRest(s, k, s.store[2 * k + 1] == RawCodec.EndOfStream);
  }

  /** What the fix-up after a RAW code of `k` pulses leaves: nothing after 0xFF, else two zero bytes and the rest. */
  lemma RawCodeRest(s: Sess, k: nat, eos: bool)
    requires Good(s) && 2 * k + 2 <= s.len
    ensures Contents(Refill(s, 2 * k + 2, if eos then 2 * k + 2 else 2 * k, [0, 0]))
         == if eos then [] else [0, 0] + Contents(s)[2 * k + 2..]
  {
    RefillContents(s, 2 * k + 2, if eos then 2 * k + 2 else 2 * k, [0, 0]);
  }

  /**
   * A RAW step without input that finds a code, with no default frequency
   * set, outputs the code's command when that fits and fixes the buffer up.
   */
  lemma RawFoundCode(a: Sess, outMax: nat)
    requires Good(a) && a.defaultFreq == 0
    requires RawCodec.Parsed(a.store, a.len, RawCodec.Zero).Some?
    requires var (ret, st) := RawCodec.Parsed(a.store, a.len, RawCodec.Zero).value;
      0 < ret.n && ret.m <= ret.n <= a.len && ret.n - ret.m <= |ret.delay| && RawCodec.Sane(st)
    ensures var (ret, st) := RawCodec.Parsed(a.store, a.len, RawCodec.Zero).value;
      RawStep(a, [], outMax)
      == if |RawCodec.OutputFrame(st)| > outMax then None
         else Some((Refill(a, ret.n, ret.m, ret.delay), RawCodec.OutputFrame(st)))
  {
    AcceptNothing(a);
  }

  /** usm_process_thru: the chunk is the output; the device has answered. */
  function ThruStep(s: Sess, chunk: seq<byte>): (Sess, seq<byte>)
  {
    (s.(wait := WaitCode), chunk)
  }

  /**
   * usm_process_uirt: nothing for an empty chunk; an awaited answer
   * passes through; a code goes to the current mode's handler.
   */
  function UirtStep(s: Sess, chunk: seq<byte>, outMax: nat): (r: Option<(Sess, seq<byte>)>)
    requires Good(s)
  {
    if chunk == [] then Some((s, []))
    else
      match s.wait
      case WaitStatus => Some(ThruStep(s, chunk))
      case WaitVersion => Some(ThruStep(s, chunk))
      case WaitCode =>
        match s.mode
        case Uir => UirFits(s, chunk, outMax)
        case Echo => Some(ThruStep(s, chunk))
        case Raw => RawStep(s, chunk, outMax)
        case Raw2 => Raw2Step(s, chunk, outMax)
  }

  /** usm_process_uirt_more: the UIR and RAW handlers without input; nothing otherwise. */
  function MoreStep(s: Sess, outMax: nat): (r: Option<(Sess, seq<byte>)>)
    requires Good(s)
  {
    match s.mode
    case Uir => UirFits(s, [], outMax)
    case Raw => RawStep(s, [], outMax)
    case _ => Some((s, []))
  }

  /**
   * An empty chunk from the device changes nothing and outputs nothing;
   * so does a "more" call in RAW2 or echo mode.
   */
  lemma EmptyChunkIdle(s: Sess, outMax: nat)
    requires Good(s)
    ensures UirtStep(s, [], outMax) == Some((s, []))
    ensures s.mode == Raw2 || s.mode == Echo ==> MoreStep(s, outMax) == Some((s, []))
  {
  }

  // ---------------------------------------------------------------------
  // The user side.

  /** The switch of usm_process_user over the command byte. */
  function Transition(mode: Mode, wait: Wait, cmd: byte): (r: (Mode, Wait))
    ensures r.1 == if cmd == CmdGetVersion then WaitVersion else WaitStatus
    ensures cmd == CmdModeUir ==> r.0 == Uir
    ensures cmd == CmdModeRaw ==> r.0 == Raw
    ensures cmd == CmdModeRaw2 ==> r.0 == Raw2
    ensures cmd == CmdGetVersion || cmd in OtherCommands ==> r.0 == mode
    ensures cmd !in {CmdModeUir, CmdModeRaw, CmdModeRaw2, CmdGetVersion} + OtherCommands ==> r.0 == Echo
  {
    if cmd == CmdModeUir then (Uir, WaitStatus)
    else if cmd == CmdModeRaw then (Raw, WaitStatus)
    else if cmd == CmdGetVersion then (mode, WaitVersion)
    else if cmd == CmdModeRaw2 then (Raw2, WaitStatus)
    else if cmd in OtherCommands then (mode, WaitStatus)
    else (Echo, WaitStatus)
  }

  /** The sum of the bytes, as usm_checksum accumulates it. */
  function Sum(bs: seq<byte>): int
  {
    if bs == [] then 0 else Sum(bs[..|bs| - 1]) + bs[|bs| - 1]
  }

  /** The checksum byte: the low 8 bits of minus the sum. */
  function CheckByte(bs: seq<byte>): byte
  {
    (-Sum(bs)) % 256
  }

  /** A buffer's bytes after usm_checksum: one byte more unless it was full. */
  function Checked(bs: seq<byte>, max: nat): seq<byte>
    requires |bs| <= max
  {
    if |bs| == max then bs else bs + [CheckByte(bs)]
  }

  /** With the checksum byte appended, all bytes sum to 0 modulo 256. */
  lemma ChecksumZero(bs: seq<byte>)
    ensures Sum(bs + [CheckByte(bs)]) % 256 == 0
  {
    assert (bs + [CheckByte(bs)])[..|bs|] == bs;
  }

  /** The checksum of the TX_RAW header 36 06 41 01 00 00 00 is 82. */
  lemma ChecksumExample()
    ensures CheckByte([0x36, 0x06, 0x41, 0x01, 0x00, 0x00, 0x00]) == 0x82
  {
    var s0: seq<byte> := [];
    var s1, s2, s3 := s0 + [0x36], s0 + [0x36] + [0x06], s0 + [0x36] + [0x06] + [0x41];
    var s4 := s3 + [0x01];
    var s5, s6, s7 := s4 + [0x00], s4 + [0x00] + [0x00], s4 + [0x00] + [0x00] + [0x00];
    SumSnoc(s0, 0x36);
    SumSnoc(s1, 0x06);
    SumSnoc(s2, 0x41);
    SumSnoc(s3, 0x01);
    SumSnoc(s4, 0x00);
    SumSnoc(s5, 0x00);
    SumSnoc(s6, 0x00);
    assert s7 == [0x36, 0x06, 0x41, 0x01, 0x00, 0x00, 0x00];
  }

  lemma SumSnoc(bs: seq<byte>, b: byte)
    ensures Sum(bs + [b]) == Sum(bs) + b
  {
    assert (bs + [b])[..|bs|] == bs;
  }

  /**
   * usm_process_user: the command byte sets mode and wait state, the
   * aggregation buffer is emptied, and the output is the Pronto code as
   * TX_RAW (first byte 0x00) or the command itself, then a checksum
   * byte. `input` is the user buffer's store, of which `len` bytes are
   * the command; `outMax` is the output buffer's capacity. None where C
   * has no defined behaviour: a Pronto code that does not parse, or a
   * command longer than the output buffer. Of the session, only the
   * mode, the wait state and the buffer's length change.
   */
  function UserStep(s: Sess, input: seq<byte>, len: nat, outMax: nat): (r: Option<(Sess, seq<byte>)>)
    requires Good(s) && 0 < len <= |input|
    ensures r.Some? <==> UserBytes(input, len, outMax).Some?
    ensures r.Some? ==> var t := r.value.0;
      Good(t) && Contents(t) == [] && (t.mode, t.wait) == Transition(s.mode, s.wait, input[0])
      && t.defaultFreq == s.defaultFreq && t.store == s.store
  {
    var (mode, wait) := Transition(s.mode, s.wait, input[0]);
    match UserBytes(input, len, outMax)
    case None => None
    case Some(out) => Some((s.(mode := mode, wait := wait, len := 0), out))
  }

  /**
   * The bytes usm_process_user sends before its checksum: the Pronto
   * code's TX_RAW command, or the command itself. None when a Pronto code
   * does not parse.
   */
  function UserCommand(input: seq<byte>, len: nat): Option<seq<byte>>
    requires 0 < len <= |input|
  {
    if input[0] == CmdTxPronto then
      match ProntoCodec.Parsed(input, len, ProntoCodec.Zero)
      case None => None
      case Some(st) =>
        ProntoCodec.ParsedSane(input, len, ProntoCodec.Zero);
        Some(ProntoCodec.OutputFrame(st))
    else Some(input[..len])
  }

  /** The bytes usm_process_user sends: the command and its checksum, when the command fits. */
  function UserBytes(input: seq<byte>, len: nat, outMax: nat): Option<seq<byte>>
    requires 0 < len <= |input|
  {
    match UserCommand(input, len)
    case None => None
    case Some(bs) => if |bs| > outMax then None else Some(Checked(bs, outMax))
  }

  /**
   * The user side's promises: the buffer is emptied, the mode and wait
   * state follow the command byte, a command other than the Pronto
   * pseudo command goes out unchanged, and the bytes sent are the
   * command (or the Pronto code's TX_RAW command) followed by the byte
   * that makes them sum to 0 modulo 256, unless the command alone fills
   * the output buffer.
   */
  lemma UserOutput(s: Sess, input: seq<byte>, len: nat, outMax: nat)
    requires Good(s) && 0 < len <= |input|
    requires UserStep(s, input, len, outMax).Some?
    ensures var (t, out) := UserStep(s, input, len, outMax).value;
      Contents(t) == [] && (t.mode, t.wait) == Transition(s.mode, s.wait, input[0])
      && (input[0] != CmdTxPronto ==> out[..len] == input[..len])
      && |out| <= outMax && (|out| < outMax ==> Sum(out) % 256 == 0)
    ensures var (t, out) := UserStep(s, input, len, outMax).value;
      var bs := UserCommand(input, len).value;
      |bs| <= outMax && out[..|bs|] == bs
      && (|bs| < outMax ==> |out| == |bs| + 1 && Sum(out) % 256 == 0)
      && (|bs| == outMax ==> out == bs)
  {
    var bs := UserCommand(input, len).value;
    if |bs| < outMax {
      ChecksumZero(bs);
    }
  }

  /**
   * When a user step is defined: a command other than the Pronto pseudo
   * command must fit the output buffer, a Pronto code must parse and its
   * TX_RAW command must fit.
   */
  lemma UserDefined(s: Sess, input: seq<byte>, len: nat, outMax: nat)
    requires Good(s) && 0 < len <= |input|
    ensures input[0] != CmdTxPronto ==> (UserStep(s, input, len, outMax).Some? <==> len <= outMax)
    ensures input[0] == CmdTxPronto ==>
      (UserStep(s, input, len, outMax).Some? <==>
        var st := ProntoCodec.Parsed(input, len, ProntoCodec.Zero);
        st.Some? && ProntoCodec.Sane(st.value) && |ProntoCodec.OutputFrame(st.value)| <= outMax)
  {
    if input[0] == CmdTxPronto && ProntoCodec.Parsed(input, len, ProntoCodec.Zero).Some? {
      ProntoCodec.ParsedSane(input, len, ProntoCodec.Zero);
    }
  }

  // ---------------------------------------------------------------------
  // The imperative session.

  /**
   * usm_checksum: refuses (-1) a full buffer; otherwise appends the byte
   * that makes the sum 0 modulo 256.
   */
  method Checksum(buf: Buffer) returns (r: int)
    requires buf.Valid()
    modifies buf, buf.data
    ensures buf.Valid() && buf.Contents() == Checked(old(buf.Contents()), buf.data.Length)
    ensures r == if old(buf.len) == buf.data.Length then -1 else 0
  {
    if buf.len == buf.data.Length {
      return -1;
    }
    var check: int := 0;
    var i := 0;
    while i < buf.len
      invariant i <= buf.len && check == -Sum(buf.data[..i])
    {
      assert buf.data[..i + 1][..i] == buf.data[..i];
      check := check - buf.data[i];
      i := i + 1;
    }
    ghost var before := buf.Contents();
    buf.data[buf.len] := check % 256;
    assert buf.data[..buf.len + 1] == before + [CheckByte(before)];
    buf.len := buf.len + 1;
    r := 0;
  }

  /**
   * The output half of usm_process_user: the Pronto code transcoded or
   * the command copied, then the checksum.
   */
  method Send(input: Buffer, out: Buffer)
    requires input.Valid() && 0 < input.len && input != out && input.data != out.data
    requires UserBytes(input.data[..], input.len, out.data.Length).Some?
    modifies out, out.data
    ensures out.Valid() && out.Contents() == UserBytes(input.data[..], input.len, out.data.Length).value
  {
    ghost var bs: seq<byte>;
    if input.data[0] == CmdTxPronto {
      ProntoCodec.ParsedSane(input.data[..], input.len, ProntoCodec.Zero);
      TranscodePronto(input, out);
      bs := ProntoCodec.OutputFrame(ProntoCodec.Parsed(input.data[..], input.len, ProntoCodec.Zero).value);
    } else {
      var _ := out.Copy(input.data[..input.len]);
      bs := input.data[..input.len];
    }
    assert UserCommand(input.data[..], input.len) == Some(bs);
    assert out.Valid() && out.Contents() == bs && UserBytes(input.data[..], input.len, out.data.Length) == Some(Checked(bs, out.data.Length));
    var _ := Checksum(out);
  }

  /** rp_parse on a zeroed context, then rp_output into the output buffer. */
  method TranscodePronto(input: Buffer, out: Buffer)
    requires input.Valid() && 0 < input.len && input != out && input.data != out.data
    requires ProntoCodec.Parsed(input.data[..], input.len, ProntoCodec.Zero).Some?
    requires var st := ProntoCodec.Parsed(input.data[..], input.len, ProntoCodec.Zero).value;
      ProntoCodec.Sane(st) && |ProntoCodec.OutputFrame(st)| <= out.data.Length
    modifies out, out.data
    ensures out.Valid() && ProntoCodec.Sane(ProntoCodec.Parsed(input.data[..], input.len, ProntoCodec.Zero).value)
    ensures out.Contents() == ProntoCodec.OutputFrame(ProntoCodec.Parsed(input.data[..], input.len, ProntoCodec.Zero).value)
  {
    var rp := new ProntoCodec.ProntoCtx.Zeroed();
    var _ := rp.Parse(input.data, input.len);
    ProntoCodec.ParsedSane(input.data[..], input.len, ProntoCodec.Zero);
    var n := rp.Output(out.data);
    out.len := n;
  }

  /** usm_ctx: the session's fields and its aggregation buffer. */
  class Session {
    var mode: Mode
    var wait: Wait
    var defaultFreq: nat
    const agg: Buffer

    ghost predicate Valid()
      reads this, agg
    {
      agg.Valid() && agg.data.Length == AggMax
    }

    function Abs(): Sess
      reads this, agg, agg.data
    {
      Sess(mode, wait, defaultFreq, agg.data[..], agg.len)
    }

    /** usm_init: zeroed, an empty 4096-byte aggregation buffer, UIR mode, waiting for codes. */
    constructor Init()
      ensures Valid() && fresh(agg) && fresh(agg.data)
      ensures Abs() == Sess(Uir, WaitCode, 0, seq(AggMax, _ => 0), 0)
    {
      var store := new byte[AggMax](_ => 0);
      agg := new Buffer.Attach(store);
      mode, wait, defaultFreq := Uir, WaitCode, 0;
    }

    /** usm_set_default_frequency. */
    method SetDefaultFrequency(f: nat)
      modifies this
      ensures Abs() == old(Abs()).(defaultFreq := f)
    {
      defaultFreq := f;
    }

    /** The chunk appended when it fits, as both the UIR and the RAW handlers do. */
    method Gather(chunk: seq<byte>)
      requires Valid()
      modifies agg, agg.data
      ensures Valid() && Abs() == Accept(old(Abs()), chunk)
    {
      if agg.len + |chunk| <= AggMax {
        var _ := agg.Append(chunk);
      }
    }

    /** usm_process_uir; an empty chunk stands for the NULL input of the "more" call. */
    method ProcessUir(chunk: seq<byte>, out: Buffer)
      requires Valid() && out != agg && out.data != agg.data
      requires UirFits(Abs(), chunk, out.data.Length).Some?
      modifies agg, agg.data, out, out.data
      ensures Valid() && Abs() == UirFits(old(Abs()), chunk, out.data.Length).value.0
      ensures out.Valid() && out.Contents() == UirFits(old(Abs()), chunk, out.data.Length).value.1
    {
      Gather(chunk);
      if agg.len >= UirCodeLen {
        var _ := out.Copy(agg.data[..UirCodeLen]);
        agg.Slide(UirCodeLen);
      } else {
        out.len := 0;
      }
    }

    /** The fix-up of the aggregation buffer after a code. */
    method Fixup(n: nat, m: nat, delay: seq<byte>)
      requires Valid() && m <= n <= agg.len && n - m <= |delay|
      modifies agg, agg.data
      ensures Valid() && Abs() == Refill(old(Abs()), n, m, delay)
    {
      if m != n {
        agg.Slide(m);
        agg.Overwrite(delay[..n - m]);
      } else {
        agg.len := 0;
      }
    }

    /** usm_process_raw, with a zeroed codec context. */
    method ProcessRaw(chunk: seq<byte>, out: Buffer)
      requires Valid() && out != agg && out.data != agg.data
      requires RawStep(Abs(), chunk, out.data.Length).Some?
      modifies agg, agg.data, out, out.data
      ensures Valid() && Abs() == RawStep(old(Abs()), chunk, out.data.Length).value.0
      ensures out.Valid() && out.Contents() == RawStep(old(Abs()), chunk, out.data.Length).value.1
    {
      Gather(chunk);
      EmitRaw(out);
    }

    /** usm_process_raw once the chunk is gathered: parse, output, fix up. */
    method EmitRaw(out: Buffer)
      requires Valid() && out != agg && out.data != agg.data
      requires RawFound(Abs(), out.data.Length).Some?
      modifies agg, agg.data, out, out.data
      ensures Valid() && Abs() == RawFound(old(Abs()), out.data.Length).value.0
      ensures out.Valid() && out.Contents() == RawFound(old(Abs()), out.data.Length).value.1
    {
      var rr := new RawCodec.RawCtx.Zeroed();
      var ret := rr.Parse(agg.data, agg.len);
      if ret.n != 0 {
        RawCodec.ParsedFound(agg.data[..], agg.len);
        if defaultFreq != 0 {
          rr.SetFrequency(defaultFreq);
        }
        var n := rr.Output(out.data);
        out.len := n;
        Fixup(ret.n, ret.m, ret.delay);
      } else {
        out.len := 0;
      }
    }

    /** usm_process_raw2, with a zeroed codec context and the parser's own flag as the test. */
    method ProcessRaw2(chunk: seq<byte>, out: Buffer)
      requires Valid() && out != agg && out.data != agg.data
      requires Raw2Step(Abs(), chunk, out.data.Length).Some?
      modifies agg, agg.data, out, out.data
      ensures Valid() && Abs() == Raw2Step(old(Abs()), chunk, out.data.Length).value.0
      ensures out.Valid() && out.Contents() == Raw2Step(old(Abs()), chunk, out.data.Length).value.1
    {
      Gather(chunk);
      EmitRaw2(out);
    }

    /** usm_process_raw2 once the chunk is gathered: parse, output, fix up. */
    method EmitRaw2(out: Buffer)
      requires Valid() && out != agg && out.data != agg.data
      requires Raw2Found(Abs(), out.data.Length).Some?
      modifies agg, agg.data, out, out.data
      ensures Valid() && Abs() == Raw2Found(old(Abs()), out.data.Length).value.0
      ensures out.Valid() && out.Contents() == Raw2Found(old(Abs()), out.data.Length).value.1
    {
      var rr := new Raw2Codec.Raw2Ctx.Zeroed();
      var ret := rr.Parse(agg.data, agg.len);
      if ret.done {
        Raw2Codec.ParsedBounds(agg.data[..agg.len]);
        var n := rr.Output(out.data);
        out.len := n;
        Fixup(ret.n, ret.m, ret.delay);
      } else {
        out.len := 0;
      }
    }

    /** usm_process_thru: copy the chunk; the awaited answer has come. */
    method ProcessThru(chunk: seq<byte>, out: Buffer)
      requires out != agg && out.data != agg.data
      modifies this, out, out.data
      ensures Abs() == ThruStep(old(Abs()), chunk).0
      ensures out.len == |chunk| && (|chunk| <= out.data.Length ==> out.Valid() && out.Contents() == chunk)
    {
      var _ := out.Copy(chunk);
      wait := WaitCode;
    }

    /** usm_process_uirt: bytes from the device. */
    method ProcessUirt(chunk: seq<byte>, out: Buffer)
      requires Valid() && out != agg && out.data != agg.data
      requires UirtStep(Abs(), chunk, out.data.Length).Some?
      modifies this, agg, agg.data, out, out.data
      ensures Valid() && Abs() == UirtStep(old(Abs()), chunk, out.data.Length).value.0
      ensures var o := UirtStep(old(Abs()), chunk, out.data.Length).value.1;
        out.len == |o| && (|o| <= out.data.Length ==> out.Valid() && out.Contents() == o)
    {
      out.len := 0;
      if |chunk| == 0 {
        return;
      }
      match wait {
        case WaitStatus => ProcessThru(chunk, out);
        case WaitVersion => ProcessThru(chunk, out);
        case WaitCode =>
          match mode {
            case Uir => ProcessUir(chunk, out);
            case Echo => ProcessThru(chunk, out);
            case Raw => ProcessRaw(chunk, out);
            case Raw2 => ProcessRaw2(chunk, out);
          }
      }
    }

    /** usm_process_uirt_more: drains what the UIR or RAW handler still holds. */
    method ProcessUirtMore(out: Buffer)
      requires Valid() && out != agg && out.data != agg.data
      requires MoreStep(Abs(), out.data.Length).Some?
      modifies agg, agg.data, out, out.data
      ensures Valid() && Abs() == MoreStep(old(Abs()), out.data.Length).value.0
      ensures out.Valid() && out.Contents() == MoreStep(old(Abs()), out.data.Length).value.1
    {
      match mode {
        case Uir => ProcessUir([], out);
        case Raw => ProcessRaw([], out);
        case _ => out.len := 0;
      }
    }

    /** usm_process_user: a command from the user, on its way to the device. */
    method ProcessUser(input: Buffer, out: Buffer)
      requires Valid() && input.Valid() && 0 < input.len
      requires input != agg && input.data != agg.data && out != agg && out.data != agg.data
      requires input != out && input.data != out.data
      requires UserStep(Abs(), input.data[..], input.len, out.data.Length).Some?
      modifies this, agg, out, out.data
      ensures Valid() && Abs() == UserStep(old(Abs()), input.data[..], input.len, out.data.Length).value.0
      ensures out.Valid() && out.Contents() == UserStep(old(Abs()), input.data[..], input.len, out.data.Length).value.1
    {
      var next := Transition(mode, wait, input.data[0]);
      mode, wait := next.0, next.1;
      agg.len := 0;
      Send(input, out);
    }
  }
}
