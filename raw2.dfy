/**
 * The RAW2 receive mode codec (uirt-raw2.c). Per code the device sends a
 * big-endian interspace in 51.2 us units, then pulses (a 16-bit time in
 * 400 ns units and a carrier cycle count of one byte, or of two when its
 * top bit is set) alternating with 16-bit spaces; 0xFF in a space slot
 * ends the stream and a space above 0x3E80 ends the code. Every helper
 * checks the remaining length first and, when short, consumes nothing.
 * The carrier counts are averaged into a frequency estimate.
 */
module Raw2Codec {
  import opened Bytes
  import opened TxRaw

  const MaxPulses: nat := 128          // RR2_MAX_PULSES
  const EndOfStream: byte := 0xFF
  const MaxSpace: nat := 0x3e80        // the longest space that is recorded
  const SampleBase: nat := 250000
  const TickScale: nat := 560
  const ProntoBase: nat := 4145146

  /** The helper the parse loop calls next (the `state` field of rr2_ctx). */
  datatype Phase = AtInit | AtInterspace | AtPulse | AtSpace

  /** rr2_ctx. */
  datatype Raw2State = Raw2State(phase: Phase, done: nat, repeat: byte, interspace: nat,
                                 freqTotal: nat, nofSamples: nat, calcFreq: nat,
                                 pulses: seq<nat>, spaces: seq<nat>)

  /** The all-zero context (phase INIT, nothing recorded). */
  const ZeroCtx := Raw2State(AtInit, 0, 0, 0, 0, 0, 0, [], [])

  /** rr2_ret; `delay` is left unset (empty) when no code was completed. */
  datatype Raw2Ret = Raw2Ret(done: bool, n: nat, m: nat, delay: seq<byte>)

  function NextPhase(ph: Phase): Phase
  {
    match ph
    case AtInit => AtInterspace
    case AtInterspace => AtPulse
    case AtPulse => AtSpace
    case AtSpace => AtPulse
  }

  /** What a helper returns on short input: `-len` as a UInt32. */
  function Short(rem: nat): nat
  {
    U32(-(rem as int))
  }

  /** A short read returns more than what is left, so the loop stops without advancing. */
  lemma ShortStops(rem: nat)
    requires 0 < rem < 0x8000_0000
    ensures Short(rem) > rem
  {
    assert -(rem as int) + TwoTo32 == TwoTo32 - rem;
  }

  /** rr2_interspace: two bytes, big-endian, rescaled from 51.2 us to 50 us units. */
  function Interspace2(s: seq<byte>, n: nat, st: Raw2State): (nat, Raw2State)
    requires n < |s|
  {
    if |s| - n < 2 then (Short(|s| - n), st)
    else (2, st.(interspace := Be16(s, n) * 500 / 512))
  }

  /** One carrier sample: `(250000 / p) * (10c - 5)` in UInt32 arithmetic. */
  function Sample(p: nat, c: nat): nat
    requires p > 0 && c > 0
  {
    U32((SampleBase / p) * (10 * c - 5))
  }

  /** The running total after a pulse with `c` carrier cycles: unchanged when `c` is 0. */
  function AddSample(total: nat, p: nat, c: nat): nat
    requires c != 0 ==> p > 0
  {
    if c != 0 then U32(total + Sample(p, c)) else total
  }

  /**
   * rr2_pulse. None where C has no defined behaviour: a zero pulse time
   * with a non-zero cycle count (division by zero), or a 129th pulse.
   */
  function Pulse2(s: seq<byte>, n: nat, st: Raw2State): Option<(nat, Raw2State)>
    requires n < |s|
  {
    var rem := |s| - n;
    if rem < 3 then Some((Short(rem), st))
    else
      var p, c0 := Be16(s, n), s[n + 2];
      if c0 >= 0x80 && rem < 4 then Some((Short(rem), st))
      else
        var c := if c0 >= 0x80 then (c0 - 0x80) * 256 + s[n + 3] else c0 as int;
        if (c != 0 && p == 0) || |st.pulses| >= MaxPulses then None
        else
          Some((if c0 >= 0x80 then 4 else 3,
                st.(freqTotal := AddSample(st.freqTotal, p, c),
                    nofSamples := st.nofSamples + (if c != 0 then 1 else 0),
                    pulses := st.pulses + [p])))
  }

  /** rr2_space. None for a 129th space. */
  function Space2(s: seq<byte>, n: nat, st: Raw2State): Option<(nat, Raw2State)>
    requires n < |s|
  {
    if s[n] == EndOfStream then Some((1, st.(done := 2)))
    else if |s| - n < 2 then Some((Short(|s| - n), st))
    else if Be16(s, n) > MaxSpace then Some((2, st.(done := 1)))
    else if |st.spaces| >= MaxPulses then None
    else Some((2, st.(spaces := st.spaces + [Be16(s, n)])))
  }

  /** The helper for the context's phase; rr2_init zeroes all but the repeat count, which is 1. */
  function Helper(s: seq<byte>, n: nat, st: Raw2State): (r: Option<(nat, Raw2State)>)
    requires n < |s|
    ensures r.Some? && st.phase != AtInit ==> r.value.0 > 0
  {
    match st.phase
    case AtInit => Some((0, ZeroCtx.(repeat := 1)))
    case AtInterspace => Some(Interspace2(s, n, st))
    case AtPulse => Pulse2(s, n, st)
    case AtSpace => Space2(s, n, st)
  }

  /**
   * The parse loop of rr2_parse over the bytes `s` from offset `n`: the
   * phase advances after every helper call, even one that came back short,
   * and a short call stops the loop with `n` where it was.
   */
  function Run2(s: seq<byte>, n: nat, st: Raw2State): (r: Option<(nat, Raw2State)>)
    requires n <= |s|
    ensures r.Some? ==> n <= r.value.0 <= |s|
    decreases |s| - n, if st.phase == AtInit then 1 else 0
  {
    if n >= |s| || st.done != 0 then Some((n, st))
    else
      match Helper(s, n, st)
      case None => None
      case Some((m, st')) =>
        var st'' := st'.(phase := NextPhase(st.phase));
        if m > |s| - n then Some((n, st'')) else Run2(s, n + m, st'')
  }

  /**
   * The parse loop from offset `n`, named once more without recursion: the
   * lemmas about whole runs state their results with it, so that the
   * solver compares such results as they are instead of unfolding the loop.
   */
  ghost function From(s: seq<byte>, n: nat, st: Raw2State): Option<(nat, Raw2State)>
    requires n <= |s|
  {
    Run2(s, n, st)
  }

  /** One turn of the loop: the helper for the phase, then the next phase. */
  lemma RunTurn(s: seq<byte>, n: nat, st: Raw2State, m: nat, st': Raw2State)
    requires n < |s| && st.done == 0 && Helper(s, n, st) == Some((m, st'))
    ensures From(s, n, st) == if m > |s| - n then Some((n, st'.(phase := NextPhase(st.phase))))
                              else From(s, n + m, st'.(phase := NextPhase(st.phase)))
  {
  }

  /** rr2_final: the average sample, or 1 when there is none. */
  function Final(st: Raw2State): Raw2State
  {
    st.(calcFreq := if st.nofSamples != 0 then st.freqTotal / st.nofSamples else 1)
  }

  /** The result and the context once the loop stopped at `n`. */
  function Finish(n: nat, st: Raw2State): (Raw2Ret, Raw2State)
  {
    var rn := n % 0x10000;
    if st.done != 0 then
      (Raw2Ret(true, rn, if rn >= 2 then (if st.done == 1 then n - 2 else n) % 0x10000 else rn, [0, 0]),
       Final(st).(phase := AtInit, done := 0))
    else (Raw2Ret(false, rn, rn, []), st)
  }

  /** rr2_parse on the bytes `s`, from context `st0`. */
  function Parsed2(s: seq<byte>, st0: Raw2State): Option<(Raw2Ret, Raw2State)>
  {
    match Run2(s, 0, st0)
    case None => None
    case Some((n, st)) => Some(Finish(n, st))
  }

  /** The 128-entry arrays are not overrun. */
  ghost predicate Fits(st: Raw2State)
  {
    |st.pulses| <= MaxPulses && |st.spaces| <= MaxPulses
  }

  /** The parse loop never records more times than the arrays hold. */
  lemma {:induction false} RunFits(s: seq<byte>, n: nat, st: Raw2State)
    requires n <= |s| && Fits(st)
    ensures Run2(s, n, st).Some? ==> Fits(Run2(s, n, st).value.1)
    decreases |s| - n, if st.phase == AtInit then 1 else 0
  {
    if n < |s| && st.done == 0 {
      match Helper(s, n, st)
      case None =>
      case Some((m, st')) =>
        if m <= |s| - n {
          RunFits(s, n + m, st'.(phase := NextPhase(st.phase)));
        }
    }
  }

  /**
   * What the aggregation logic relies on: after rr2_parse from a zeroed
   * context, `n` is within the input, `m` is `n` or `n - 2`, the bytes to
   * put back cover the difference (two zeros once a code is finished),
   * and at most 128 times of each kind were recorded.
   */
  lemma ParsedBounds(s: seq<byte>)
    requires |s| < 0x10000 && Parsed2(s, ZeroCtx).Some?
    ensures var (ret, st) := Parsed2(s, ZeroCtx).value;
      Fits(st) && ret.m <= ret.n <= |s| && ret.n - ret.m <= |ret.delay| <= 2
      && (ret.done ==> ret.delay == [0, 0])
  {
    RunFits(s, 0, ZeroCtx);
  }

  // ---------------------------------------------------------------------
  // The RAW2 wire form of one code, and what parsing it yields.

  /** A pulse: its time in 400 ns units and its carrier cycle count. */
  datatype Mark = Mark(time: nat, cycles: nat)

  /** How a code ends: the end-of-stream byte, or a space too long to record. */
  datatype Ending = StreamEnd | LongSpace(time: nat)

  ghost predicate ValidMark(mk: Mark)
  {
    0 < mk.time < 0x10000 && mk.cycles < 0x8000
  }

  ghost predicate ValidEnding(e: Ending)
  {
    e.LongSpace? ==> MaxSpace < e.time < 0xFF00
  }

  /** A 16-bit value as two big-endian bytes. */
  function Word(t: nat): (w: seq<byte>)
    ensures |w| == 2
  {
    [(t / 256) % 256, t % 256]
  }

  function MarkBytes(mk: Mark): (b: seq<byte>)
    requires ValidMark(mk)
    ensures |b| == (if mk.cycles >= 0x80 then 4 else 3)
  {
    Word(mk.time) + (if mk.cycles >= 0x80 then [0x80 + mk.cycles / 256, mk.cycles % 256] else [mk.cycles])
  }

  function EndBytes(e: Ending): seq<byte>
  {
    match e
    case StreamEnd => [EndOfStream]
    case LongSpace(t) => Word(t)
  }

  /** Pulse, space, pulse, ..., pulse, then the ending in the next space slot. */
  function Body(marks: seq<Mark>, spaces: seq<nat>, e: Ending): seq<byte>
    requires |marks| == |spaces| + 1
    requires forall i | 0 <= i < |marks| :: ValidMark(marks[i])
  {
    MarkBytes(marks[0]) + (if spaces == [] then EndBytes(e) else Word(spaces[0]) + Body(marks[1..], spaces[1..], e))
  }

  /** One code as the device sends it. */
  function Frame2(interspace: nat, marks: seq<Mark>, spaces: seq<nat>, e: Ending): seq<byte>
    requires |marks| == |spaces| + 1
    requires forall i | 0 <= i < |marks| :: ValidMark(marks[i])
  {
    Word(interspace) + Body(marks, spaces, e)
  }

  function Times(marks: seq<Mark>): (t: seq<nat>)
    ensures |t| == |marks|
  {
    if marks == [] then [] else [marks[0].time] + Times(marks[1..])
  }

  /** The running carrier total after the marks, from `total`. */
  function TotalFrom(total: nat, marks: seq<Mark>): nat
    requires forall i | 0 <= i < |marks| :: ValidMark(marks[i])
    decreases |marks|
  {
    if marks == [] then total
    else
      assert ValidMark(marks[0]);
      TotalFrom(AddSample(total, marks[0].time, marks[0].cycles), marks[1..])
  }

  /** The number of marks that carry a carrier sample. */
  function Samples(marks: seq<Mark>): (k: nat)
    ensures k <= |marks|
  {
    if marks == [] then 0 else (if marks[0].cycles != 0 then 1 else 0) + Samples(marks[1..])
  }

  /** The frequency estimate rr2_final makes from the marks. */
  function Frequency(marks: seq<Mark>): nat
    requires forall i | 0 <= i < |marks| :: ValidMark(marks[i])
  {
    if Samples(marks) != 0 then TotalFrom(0, marks) / Samples(marks) else 1
  }

  function DoneOf(e: Ending): nat
  {
    if e.StreamEnd? then 2 else 1
  }

  /** `b` sits in `s` at offset `n`. */
  ghost predicate At(s: seq<byte>, n: nat, b: seq<byte>)
  {
    n + |b| <= |s| && s[n..n + |b|] == b
  }

  lemma AtSplit(s: seq<byte>, n: nat, a: seq<byte>, b: seq<byte>)
    requires At(s, n, a + b)
    ensures At(s, n, a) && At(s, n + |a|, b)
  {
    assert s[n..n + |a|] == (a + b)[..|a|];
    assert s[n + |a|..n + |a| + |b|] == (a + b)[|a|..];
  }

  lemma {:induction false} BodyLength(marks: seq<Mark>, spaces: seq<nat>, e: Ending)
    requires |marks| == |spaces| + 1
    requires forall i | 0 <= i < |marks| :: ValidMark(marks[i])
    ensures 3 * |marks| + 2 * |spaces| + 1 <= |Body(marks, spaces, e)| <= 4 * |marks| + 2 * |spaces| + 2
  {
    if spaces != [] {
      BodyLength(marks[1..], spaces[1..], e);
    }
  }

  /** The context after the pulse helper recorded `mk`, with the phase advanced to the space. */
  function AfterMark(st: Raw2State, mk: Mark): Raw2State
    requires ValidMark(mk)
  {
    st.(freqTotal := AddSample(st.freqTotal, mk.time, mk.cycles),
        nofSamples := st.nofSamples + (if mk.cycles != 0 then 1 else 0),
        pulses := st.pulses + [mk.time], phase := AtSpace)
  }

  /** One loop turn over a mark's bytes. */
  lemma StepMark(s: seq<byte>, n: nat, st: Raw2State, mk: Mark)
    requires ValidMark(mk) && At(s, n, MarkBytes(mk)) && |st.pulses| < MaxPulses
    requires st.phase == AtPulse && st.done == 0
    ensures Run2(s, n, st) == Run2(s, n + |MarkBytes(mk)|, AfterMark(st, mk))
  {
    var b := MarkBytes(mk);
    assert s[n] == b[0] && s[n + 1] == b[1] && s[n + 2] == b[2];
    assert Be16(s, n) == mk.time;
    if mk.cycles >= 0x80 {
      assert s[n + 3] == b[3];
    }
  }

  /** One loop turn over a recorded space's bytes. */
  lemma StepSpace(s: seq<byte>, n: nat, st: Raw2State, t: nat)
    requires t <= MaxSpace && At(s, n, Word(t)) && |st.spaces| < MaxPulses
    requires st.phase == AtSpace && st.done == 0
    ensures Run2(s, n, st) == Run2(s, n + 2, st.(spaces := st.spaces + [t], phase := AtPulse))
  {
    assert s[n] == Word(t)[0] && s[n + 1] == Word(t)[1];
    assert Be16(s, n) == t;
  }

  /** The loop turn over the ending, after which the loop stops. */
  lemma StepEnd(s: seq<byte>, n: nat, st: Raw2State, e: Ending)
    requires ValidEnding(e) && At(s, n, EndBytes(e))
    requires st.phase == AtSpace && st.done == 0
    ensures Run2(s, n, st) == Some((n + |EndBytes(e)|, st.(done := DoneOf(e), phase := AtPulse)))
  {
    match e {
      case StreamEnd =>
        assert s[n] == EndOfStream;
      case LongSpace(t) =>
        assert s[n] == Word(t)[0] && s[n + 1] == Word(t)[1];
        assert Be16(s, n) == t;
    }
  }

  /**
   * The pulse/space part of a code at offset `n`: the loop records every
   * mark and space and stops just after the ending, with `done` set.
   */
  lemma {:induction false} RunBody(s: seq<byte>, n: nat, st: Raw2State, marks: seq<Mark>, spaces: seq<nat>, e: Ending)
    requires |marks| == |spaces| + 1 && |st.pulses| + |marks| <= MaxPulses && |st.spaces| + |spaces| <= MaxPulses
    requires forall i | 0 <= i < |marks| :: ValidMark(marks[i])
    requires forall i | 0 <= i < |spaces| :: spaces[i] <= MaxSpace
    requires ValidEnding(e)
    requires At(s, n, Body(marks, spaces, e))
    requires st.phase == AtPulse && st.done == 0
    ensures From(s, n, st) == Some((n + |Body(marks, spaces, e)|, Recorded(st, marks, spaces, e)))
    decreases |spaces|
  {
    if spaces == [] {
      RunLast(s, n, st, marks, spaces, e);
    } else {
      var st2 := AfterMark(st, marks[0]).(spaces := st.spaces + [spaces[0]], phase := AtPulse);
      var n2 := n + |MarkBytes(marks[0])| + 2;
      PairAt(s, n, marks, spaces, e);
      RunBody(s, n2, st2, marks[1..], spaces[1..], e);
      RunPair(s, n, st, marks, spaces, e, n2, st2);
    }
  }

  /** The last mark and the ending. */
  lemma RunLast(s: seq<byte>, n: nat, st: Raw2State, marks: seq<Mark>, spaces: seq<nat>, e: Ending)
    requires |marks| == 1 && spaces == [] && ValidMark(marks[0]) && |st.pulses| < MaxPulses
    requires ValidEnding(e)
    requires At(s, n, Body(marks, spaces, e))
    requires st.phase == AtPulse && st.done == 0
    ensures From(s, n, st) == Some((n + |Body(marks, spaces, e)|, Recorded(st, marks, spaces, e)))
  {
    var mk := marks[0];
    var mb := MarkBytes(mk);
    AtSplit(s, n, mb, EndBytes(e));
    var st1 := AfterMark(st, mk);
    var n1 := n + |mb|;
    calc {
      From(s, n, st);
      == { StepMark(s, n, st, mk); }
      From(s, n1, st1);
      == { StepEnd(s, n1, st1, e); }
      Some((n1 + |EndBytes(e)|, st1.(done := DoneOf(e), phase := AtPulse)));
      == { Recorded1(st, mk, marks, e); }
      Some((n + |Body(marks, spaces, e)|, Recorded(st, marks, spaces, e)));
    }
  }

  /** Where the rest of the body sits after a mark and a recorded space. */
  lemma PairAt(s: seq<byte>, n: nat, marks: seq<Mark>, spaces: seq<nat>, e: Ending)
    requires |marks| == |spaces| + 1 && spaces != []
    requires forall i | 0 <= i < |marks| :: ValidMark(marks[i])
    requires At(s, n, Body(marks, spaces, e))
    ensures ValidMark(marks[0])
    ensures At(s, n, MarkBytes(marks[0])) && At(s, n + |MarkBytes(marks[0])|, Word(spaces[0]))
    ensures At(s, n + |MarkBytes(marks[0])| + 2, Body(marks[1..], spaces[1..], e))
  {
    var mk := marks[0];
    assert ValidMark(mk);
    var mb := MarkBytes(mk);
    var rest := Body(marks[1..], spaces[1..], e);
    AtSplit(s, n, mb, Word(spaces[0]) + rest);
    AtSplit(s, n + |mb|, Word(spaces[0]), rest);
  }

  /** A mark followed by a recorded space, given what the loop makes of the rest of the body. */
  lemma RunPair(s: seq<byte>, n: nat, st: Raw2State, marks: seq<Mark>, spaces: seq<nat>, e: Ending,
                n2: nat, st2: Raw2State)
    requires |marks| == |spaces| + 1 && spaces != [] && |st.pulses| < MaxPulses && |st.spaces| < MaxPulses
    requires forall i | 0 <= i < |marks| :: ValidMark(marks[i])
    requires spaces[0] <= MaxSpace
    requires At(s, n, MarkBytes(marks[0])) && At(s, n + |MarkBytes(marks[0])|, Word(spaces[0]))
    requires st.phase == AtPulse && st.done == 0
    requires n2 == n + |MarkBytes(marks[0])| + 2
    requires st2 == AfterMark(st, marks[0]).(spaces := st.spaces + [spaces[0]], phase := AtPulse)
    requires From(s, n2, st2) == Some((n2 + |Body(marks[1..], spaces[1..], e)|, Recorded(st2, marks[1..], spaces[1..], e)))
    ensures From(s, n, st) == Some((n + |Body(marks, spaces, e)|, Recorded(st, marks, spaces, e)))
  {
    var mk := marks[0];
    var rest := Body(marks[1..], spaces[1..], e);
    var st1 := AfterMark(st, mk);
    var n1 := n + |MarkBytes(mk)|;
    calc {
      From(s, n, st);
      == { StepMark(s, n, st, mk); }
      From(s, n1, st1);
      == { StepSpace(s, n1, st1, spaces[0]); }
      From(s, n2, st2);
      Some((n2 + |rest|, Recorded(st2, marks[1..], spaces[1..], e)));
      == { RecordedMore(st, mk, marks, spaces, e); }
      Some((n + |Body(marks, spaces, e)|, Recorded(st, marks, spaces, e)));
    }
  }

  /** What the loop has recorded once the body is read: RunBody's final context. */
  function Recorded(st: Raw2State, marks: seq<Mark>, spaces: seq<nat>, e: Ending): Raw2State
    requires forall i | 0 <= i < |marks| :: ValidMark(marks[i])
  {
    st.(done := DoneOf(e), freqTotal := TotalFrom(st.freqTotal, marks),
        nofSamples := st.nofSamples + Samples(marks),
        pulses := st.pulses + Times(marks), spaces := st.spaces + spaces)
  }

  lemma Recorded1(st: Raw2State, mk: Mark, marks: seq<Mark>, e: Ending)
    requires marks == [mk] && ValidMark(mk) && st.phase == AtPulse
    ensures Recorded(st, marks, [], e) == AfterMark(st, mk).(done := DoneOf(e), phase := AtPulse)
    ensures |Body(marks, [], e)| == |MarkBytes(mk)| + |EndBytes(e)|
  {
    assert marks[1..] == [];
    assert TotalFrom(st.freqTotal, marks) == AddSample(st.freqTotal, mk.time, mk.cycles);
    assert Samples(marks) == if mk.cycles != 0 then 1 else 0;
    assert Times(marks) == [mk.time];
  }

  lemma RecordedMore(st: Raw2State, mk: Mark, marks: seq<Mark>, spaces: seq<nat>, e: Ending)
    requires |marks| == |spaces| + 1 && spaces != [] && marks[0] == mk && st.phase == AtPulse
    requires forall i | 0 <= i < |marks| :: ValidMark(marks[i])
    ensures Recorded(AfterMark(st, mk).(spaces := st.spaces + [spaces[0]], phase := AtPulse), marks[1..], spaces[1..], e)
         == Recorded(st, marks, spaces, e)
    ensures |Body(marks, spaces, e)| == |MarkBytes(mk)| + 2 + |Body(marks[1..], spaces[1..], e)|
  {
    assert ValidMark(mk);
    assert st.pulses + [mk.time] + Times(marks[1..]) == st.pulses + Times(marks);
    assert st.spaces + [spaces[0]] + spaces[1..] == st.spaces + spaces;
  }

  /**
   * Every well-formed code parses back: a context that starts zeroed
   * reports a completed code whose length is the whole frame, keeps the
   * ending's two bytes when it was a long space, and holds the rescaled
   * interspace, the pulse times, the spaces and the averaged frequency;
   * what follows the code is not read.
   */
  lemma ParseFrame2(interspace: nat, marks: seq<Mark>, spaces: seq<nat>, e: Ending, rest: seq<byte>)
    requires interspace < 0x10000
    requires 1 <= |marks| <= MaxPulses && |marks| == |spaces| + 1
    requires forall i | 0 <= i < |marks| :: ValidMark(marks[i])
    requires forall i | 0 <= i < |spaces| :: spaces[i] <= MaxSpace
    requires ValidEnding(e)
    ensures var f := Frame2(interspace, marks, spaces, e);
      Parsed2(f + rest, ZeroCtx)
      == Some((Raw2Ret(true, |f|, if e.StreamEnd? then |f| else |f| - 2, [0, 0]),
               Raw2State(AtInit, 0, 1, interspace * 500 / 512, TotalFrom(0, marks), Samples(marks),
                         Frequency(marks), Times(marks), spaces)))
  {
    var f := Frame2(interspace, marks, spaces, e);
    var s := f + rest;
    var body := Body(marks, spaces, e);
    var st := ZeroCtx.(repeat := 1, phase := AtPulse, interspace := interspace * 500 / 512);
    assert At(s, 0, f);
    AtSplit(s, 0, Word(interspace), body);
    BodyLength(marks, spaces, e);
    calc {
      From(s, 0, ZeroCtx);
      == { RunHead(s, interspace); }
      From(s, 2, st);
      == { RunBody(s, 2, st, marks, spaces, e); }
      Some((|f|, Recorded(st, marks, spaces, e)));
    }
    FinishFrame(st, marks, spaces, e, |f|);
  }

  /** The INIT and INTERSPACE turns of the loop over a frame's first two bytes. */
  lemma RunHead(s: seq<byte>, interspace: nat)
    requires interspace < 0x10000 && At(s, 0, Word(interspace)) && |s| > 2
    ensures Run2(s, 0, ZeroCtx) == Run2(s, 2, ZeroCtx.(repeat := 1, phase := AtPulse, interspace := interspace * 500 / 512))
  {
    assert s[0] == Word(interspace)[0] && s[1] == Word(interspace)[1];
    assert Be16(s, 0) == interspace;
  }

  /** rr2_parse's ending once a code is done and the loop stopped at `n`. */
  lemma FinishDone(n: nat, st: Raw2State)
    requires st.done != 0 && 2 <= n < 0x10000
    ensures Finish(n, st) == (Raw2Ret(true, n, if st.done == 1 then n - 2 else n, [0, 0]),
                              Final(st).(phase := AtInit, done := 0))
  {
    assert n % 0x10000 == n;
  }

  /** The finalised context of a frame parsed from a zeroed one. */
  lemma FinalRecorded(st: Raw2State, marks: seq<Mark>, spaces: seq<nat>, e: Ending)
    requires forall i | 0 <= i < |marks| :: ValidMark(marks[i])
    requires st.freqTotal == 0 && st.nofSamples == 0 && st.pulses == [] && st.spaces == []
    ensures Final(Recorded(st, marks, spaces, e)).(phase := AtInit, done := 0)
         == Raw2State(AtInit, 0, st.repeat, st.interspace, TotalFrom(0, marks), Samples(marks),
                      Frequency(marks), Times(marks), spaces)
  {
    assert [] + Times(marks) == Times(marks) && [] + spaces == spaces;
  }

  /** rr2_parse's ending of a completed frame of `len` bytes. */
  lemma FinishFrame(st: Raw2State, marks: seq<Mark>, spaces: seq<nat>, e: Ending, len: nat)
    requires forall i | 0 <= i < |marks| :: ValidMark(marks[i])
    requires st.freqTotal == 0 && st.nofSamples == 0 && st.pulses == [] && st.spaces == []
    requires 2 <= len < 0x10000
    ensures Finish(len, Recorded(st, marks, spaces, e))
         == (Raw2Ret(true, len, if e.StreamEnd? then len else len - 2, [0, 0]),
             Raw2State(AtInit, 0, st.repeat, st.interspace, TotalFrom(0, marks), Samples(marks),
                       Frequency(marks), Times(marks), spaces))
  {
    FinishDone(len, Recorded(st, marks, spaces, e));
    FinalRecorded(st, marks, spaces, e);
  }

  /**
   * The counterexample to uirt-sm.c's frame test: two bytes of interspace
   * and nothing more. The parse completes no code, yet reports `n` = 2;
   * the context was never finalised, so its frequency is still 0.
   */
  lemma IncompleteReportsBytes()
    ensures Parsed2([0x00, 0x10], ZeroCtx)
         == Some((Raw2Ret(false, 2, 2, []), ZeroCtx.(repeat := 1, phase := AtPulse, interspace := 0x10 * 500 / 512)))
  {
    var s: seq<byte> := [0x00, 0x10];
    assert Be16(s, 0) == 0x10;
    assert Run2(s, 0, ZeroCtx) == Run2(s, 2, ZeroCtx.(repeat := 1, phase := AtPulse, interspace := 0x10 * 500 / 512));
  }

  /** An interspace of 512 ticks of 51.2 us is 500 ticks of 50 us. */
  lemma InterspaceRescale()
    ensures Interspace2([0x02, 0x00], 0, ZeroCtx) == (2, ZeroCtx.(interspace := 500))
  {
    assert Be16([0x02, 0x00], 0) == 512;
  }

  /** A pulse whose 15-bit cycle count is cut off consumes nothing and changes nothing. */
  lemma PulseCutShort(st: Raw2State, hi: byte, lo: byte, c: byte)
    requires c >= 0x80
    ensures Pulse2([hi, lo, c], 0, st) == Some((Short(3), st))
  {
  }

  // ---------------------------------------------------------------------
  // Encoders.

  /** The data values of rr2_output and rr2_output_pronto: `560 * x / calc_freq`, interleaved. */
  function Values2(st: Raw2State): seq<nat>
    requires st.calcFreq > 0
  {
    Interleave(Scaled(st.pulses, Scale(TickScale, st.calcFreq)), Scaled(st.spaces, Scale(TickScale, st.calcFreq)))
  }

  /** The TX_RAW command rr2_output builds. */
  function OutputFrame2(st: Raw2State): seq<byte>
    requires st.calcFreq > 0
  {
    TxRawFrame(FreqByte(st.calcFreq), st.repeat, st.interspace, Values2(st))
  }

  /**
   * rr2_output's command reads back as the frequency byte (modulo 256),
   * the repeat count, the interspace and the scaled times, interleaved,
   * whenever every scaled time is below 0x8000.
   */
  lemma Output2Decodes(st: Raw2State)
    requires st.calcFreq > 0 && st.interspace < 0x10000
    requires forall j | 0 <= j < |Values2(st)| :: Values2(st)[j] < 0x8000
    ensures DecodeTxRaw(OutputFrame2(st))
         == Some(TxRawCmd((FreqByte(st.calcFreq)) % 256, st.repeat, st.interspace, Values2(st)))
  {
    TxRawRoundTrip(FreqByte(st.calcFreq), st.repeat, st.interspace, Values2(st));
  }

  /** Values as consecutive big-endian words. */
  function Words(vs: seq<nat>): (w: seq<byte>)
    ensures |w| == 2 * |vs|
  {
    if vs == [] then [] else Word(vs[0]) + Words(vs[1..])
  }

  /** Word j of the encoded values is value j, modulo 2^16. */
  lemma {:induction false} WordsAt(vs: seq<nat>, j: nat)
    requires j < |vs|
    ensures Be16(Words(vs), 2 * j) == vs[j] % 0x10000
  {
    var w := Words(vs);
    assert w == Word(vs[0]) + Words(vs[1..]);
    if j > 0 {
      WordsAt(vs[1..], j - 1);
      assert w[2 * j] == Words(vs[1..])[2 * (j - 1)] && w[2 * j + 1] == Words(vs[1..])[2 * (j - 1) + 1];
    } else {
      WordBe16(vs[0]);
      assert w[0] == Word(vs[0])[0] && w[1] == Word(vs[0])[1];
    }
  }

  /** A word reads back as its value modulo 2^16. */
  lemma WordBe16(t: nat)
    ensures Be16(Word(t), 0) == t % 0x10000
  {
    var q, r := t / 0x10000, t % 0x10000;
    assert t == 0x10000 * q + r;
    assert t / 256 == 256 * q + r / 256;
    assert (t / 256) % 256 == r / 256;
    assert t % 256 == r % 256;
  }

  lemma {:induction false} WordsAppend(a: seq<nat>, b: seq<nat>)
    ensures Words(a + b) == Words(a) + Words(b)
  {
    if a != [] {
      WordsAppend(a[1..], b);
      assert (a + b)[1..] == a[1..] + b;
    } else {
      assert a + b == b;
    }
  }

  /** The Pronto header: learned code, the frequency word, no once-pairs, the pair count. */
  function ProntoHeader(st: Raw2State): (h: seq<byte>)
    requires st.calcFreq > 0
    ensures |h| == 8
  {
    [0, 0, 0, (ProntoBase / st.calcFreq) % 256, 0, 0, (|st.pulses| / 256) % 256, |st.pulses| % 256]
  }

  /** What rr2_output_pronto writes: header, the values as words, a 10 ms trailer. */
  function ProntoFrame(st: Raw2State): (f: seq<byte>)
    requires st.calcFreq > 0
    ensures |f| == 8 + 2 * (|st.pulses| + |st.spaces|) + 2
  {
    ProntoHeader(st) + Words(Values2(st)) + Word(st.calcFreq / 100)
  }

  /**
   * Reading the Pronto output back: every value below 2^16 sits, in order,
   * as word j after the 8-byte header, and the last word is the trailer.
   */
  lemma ProntoFrameWords(st: Raw2State, j: nat)
    requires st.calcFreq > 0 && j < |Values2(st)|
    ensures Be16(ProntoFrame(st), 8 + 2 * j) == Values2(st)[j] % 0x10000
    ensures Be16(ProntoFrame(st), |ProntoFrame(st)| - 2) == (st.calcFreq / 100) % 0x10000
  {
    FramedWords(ProntoHeader(st), Values2(st), st.calcFreq / 100, j);
  }

  /** Words after an 8-byte header and before a trailer word read back in place. */
  lemma FramedWords(h: seq<byte>, vs: seq<nat>, t: nat, j: nat)
    requires |h| == 8 && j < |vs|
    ensures Be16(h + Words(vs) + Word(t), 8 + 2 * j) == vs[j] % 0x10000
    ensures var f := h + Words(vs) + Word(t); Be16(f, |f| - 2) == t % 0x10000
  {
    var w := Words(vs);
    WordsAt(vs, j);
    Be16Inside(h, w, Word(t), 2 * j);
    Be16Inside(h + w, Word(t), [], 0);
    assert h + w + Word(t) + [] == h + w + Word(t);
    WordBe16(t);
  }

  /** A word read inside `a + b + c` is the word read inside `b`. */
  lemma Be16Inside(a: seq<byte>, b: seq<byte>, c: seq<byte>, i: nat)
    requires i + 1 < |b|
    ensures Be16(a + b + c, |a| + i) == Be16(b, i)
  {
    assert (a + b + c)[|a| + i] == b[i] && (a + b + c)[|a| + i + 1] == b[i + 1];
  }

  /** The word bytes of `xs[k]`, or nothing once `xs` is used up. */
  function WordAt(xs: seq<nat>, k: nat): seq<byte>
  {
    if k < |xs| then Word(xs[k]) else []
  }

  /** The bytes rr2_output_pronto's loop has written after `k` rounds. */
  function WordRounds(init: seq<byte>, p: seq<nat>, s: seq<nat>, k: nat): seq<byte>
  {
    if k == 0 then init else WordRounds(init, p, s, k - 1) + WordAt(p, k - 1) + WordAt(s, k - 1)
  }

  lemma WordsValueAt(xs: seq<nat>, k: nat)
    ensures Words(ValueAt(xs, k)) == WordAt(xs, k)
  {
    if k < |xs| {
      assert ValueAt(xs, k)[1..] == [];
    }
  }

  /** Writing a round's values as words appends that round's words. */
  lemma WordsRound(r: seq<nat>, p: seq<nat>, s: seq<nat>, k: nat)
    ensures Words(r + ValueAt(p, k) + ValueAt(s, k)) == Words(r) + WordAt(p, k) + WordAt(s, k)
  {
    var a, b := ValueAt(p, k), ValueAt(s, k);
    WordsAppend(r, a);
    WordsAppend(r + a, b);
    WordsValueAt(p, k);
    WordsValueAt(s, k);
  }

  lemma {:induction false} WordRoundsWords(init: seq<byte>, p: seq<nat>, s: seq<nat>, k: nat)
    ensures WordRounds(init, p, s, k) == init + Words(Rounds(p, s, k))
  {
    if k == 0 {
      assert init + [] == init;
    } else {
      var r := Rounds(p, s, k - 1);
      calc {
        WordRounds(init, p, s, k);
        WordRounds(init, p, s, k - 1) + WordAt(p, k - 1) + WordAt(s, k - 1);
        { WordRoundsWords(init, p, s, k - 1); }
        (init + Words(r)) + WordAt(p, k - 1) + WordAt(s, k - 1);
        { AppendAssoc(init, Words(r), WordAt(p, k - 1), WordAt(s, k - 1)); }
        init + (Words(r) + WordAt(p, k - 1) + WordAt(s, k - 1));
        { WordsRound(r, p, s, k - 1); }
        init + Words(r + ValueAt(p, k - 1) + ValueAt(s, k - 1));
        { RoundsStep(p, s, k); }
        init + Words(Rounds(p, s, k));
      }
    }
  }

  /** Writes `t` as a big-endian word at `d[n..]`. */
  method EmitWord(d: array<byte>, n: nat, t: nat) returns (n': nat)
    requires n + 2 <= d.Length
    modifies d
    ensures n' == n + 2 && d[..n'] == old(d[..n]) + Word(t)
    ensures forall q | n' <= q < d.Length :: d[q] == old(d[q])
  {
    d[n] := (t / 256) % 256;
    d[n + 1] := t % 256;
    n' := n + 2;
  }

  /** One round of rr2_output_pronto's loop: the next pulse, then the next space, where left. */
  method EmitWordRound(d: array<byte>, n: nat, pulses: seq<nat>, spaces: seq<nat>, sc: Scale,
                       nofPulses: nat, nofSpaces: nat, ghost k: nat)
    returns (n': nat, nofPulses': nat, nofSpaces': nat)
    requires sc.div > 0
    requires nofPulses == Left(|pulses|, k) && nofSpaces == Left(|spaces|, k)
    requires n + 2 * (nofPulses + nofSpaces) <= d.Length
    modifies d
    ensures nofPulses' == Left(|pulses|, k + 1) && nofSpaces' == Left(|spaces|, k + 1)
    ensures n' + 2 * (nofPulses' + nofSpaces') == n + 2 * (nofPulses + nofSpaces)
    ensures d[..n'] == old(d[..n]) + WordAt(Scaled(pulses, sc), k) + WordAt(Scaled(spaces, sc), k)
    ensures forall q | n' <= q < d.Length :: d[q] == old(d[q])
  {
    n', nofPulses', nofSpaces' := n, nofPulses, nofSpaces;
    if nofPulses > 0 {
      n' := EmitWord(d, n', Apply(sc, pulses[|pulses| - nofPulses]));
      nofPulses' := nofPulses - 1;
    }
    if nofSpaces > 0 {
      n' := EmitWord(d, n', Apply(sc, spaces[|spaces| - nofSpaces]));
      nofSpaces' := nofSpaces - 1;
    }
  }

  /** The loop of rr2_output_pronto: every pulse and space as a scaled word, pulse first. */
  method WriteWords(d: array<byte>, start: nat, pulses: seq<nat>, spaces: seq<nat>, sc: Scale) returns (n: nat)
    requires sc.div > 0
    requires start + 2 * (|pulses| + |spaces|) <= d.Length
    modifies d
    ensures n == start + 2 * (|pulses| + |spaces|)
    ensures var k := if |pulses| < |spaces| then |spaces| else |pulses|;
      d[..n] == WordRounds(old(d[..start]), Scaled(pulses, sc), Scaled(spaces, sc), k)
    ensures forall q | n <= q < d.Length :: d[q] == old(d[q])
  {
    ghost var P, S := Scaled(pulses, sc), Scaled(spaces, sc);
    ghost var prefix: seq<byte> := d[..start];
    var nofPulses: nat, nofSpaces: nat := |pulses|, |spaces|;
    n := start;
    ghost var k := 0;
    while nofPulses > 0 || nofSpaces > 0
      invariant k <= |pulses| || k <= |spaces|
      invariant nofPulses == Left(|pulses|, k) && nofSpaces == Left(|spaces|, k)
      invariant n + 2 * (nofPulses + nofSpaces) == start + 2 * (|pulses| + |spaces|)
      invariant d[..n] == WordRounds(prefix, P, S, k)
      invariant forall q | n <= q < d.Length :: d[q] == old(d[q])
      decreases nofPulses + nofSpaces
    {
      n, nofPulses, nofSpaces := EmitWordRound(d, n, pulses, spaces, sc, nofPulses, nofSpaces, k);
      k := k + 1;
    }
    assert k == if |pulses| < |spaces| then |spaces| else |pulses|;
  }

  /** rr2_ctx with the operations of uirt-raw2.c. */
  class Raw2Ctx {
    var phase: Phase
    var done: nat
    var repeat: byte
    var interspace: nat
    var freqTotal: nat
    var nofSamples: nat
    var calcFreq: nat
    var pulses: seq<nat>
    var spaces: seq<nat>

    function State(): Raw2State
      reads this
    {
      Raw2State(phase, done, repeat, interspace, freqTotal, nofSamples, calcFreq, pulses, spaces)
    }

    /** A context whose bytes are all zero, as rr2_parse's callers are taken to supply. */
    constructor Zeroed()
      ensures State() == ZeroCtx
    {
      phase, done, repeat, interspace := AtInit, 0, 0, 0;
      freqTotal, nofSamples, calcFreq, pulses, spaces := 0, 0, 0, [], [];
    }

    /** rr2_init: zeroes the context, repeat count 1; reads nothing. */
    method Init() returns (m: nat)
      modifies this
      ensures m == 0 && State() == ZeroCtx.(repeat := 1)
    {
      phase, done, repeat, interspace := AtInit, 0, 1, 0;
      freqTotal, nofSamples, calcFreq, pulses, spaces := 0, 0, 0, [], [];
      m := 0;
    }

    /** rr2_interspace on the `len - n` bytes left at `d[n..]`. */
    method ReadInterspace(d: array<byte>, len: nat, n: nat) returns (m: nat)
      requires n < len <= d.Length
      modifies this
      ensures Interspace2(d[..len], n, old(State())) == (m, State())
    {
      if len - n < 2 {
        return U32(-(len - n));
      }
      var i := d[n] as nat * 256 + d[n + 1] as nat;
      interspace := i * 500 / 512;
      m := 2;
    }

    /** rr2_pulse on the `len - n` bytes left at `d[n..]`. */
    method ReadPulse(d: array<byte>, len: nat, n: nat) returns (m: nat)
      requires n < len <= d.Length
      requires Pulse2(d[..len], n, State()).Some?
      modifies this
      ensures Pulse2(d[..len], n, old(State())) == Some((m, State()))
    {
      var rem := len - n;
      if rem < 3 {
        return U32(-rem);
      }
      var p := d[n] as nat * 256 + d[n + 1] as nat;
      var c: nat := d[n + 2];
      var k := 3;
      if c >= 0x80 {
        if rem < 4 {
          return U32(-rem);
        }
        c := (c - 0x80) * 256 + d[n + 3] as nat;
        k := 4;
      }
      if c != 0 {
        freqTotal := U32(freqTotal + Sample(p, c));
        nofSamples := nofSamples + 1;
      }
      pulses := pulses + [p];
      m := k;
    }

    /** rr2_space on the `len - n` bytes left at `d[n..]`. */
    method ReadSpace(d: array<byte>, len: nat, n: nat) returns (m: nat)
      requires n < len <= d.Length
      requires Space2(d[..len], n, State()).Some?
      modifies this
      ensures Space2(d[..len], n, old(State())) == Some((m, State()))
    {
      var s: nat := d[n];
      if s == EndOfStream {
        done := 2;
        return 1;
      }
      if len - n < 2 {
        return U32(-(len - n));
      }
      s := s * 256 + d[n + 1] as nat;
      if s > MaxSpace {
        done := 1;
        return 2;
      }
      spaces := spaces + [s];
      m := 2;
    }

    /** rr2_final. */
    method Finalize()
      modifies this
      ensures State() == Final(old(State()))
    {
      if nofSamples != 0 {
        calcFreq := freqTotal / nofSamples;
      } else {
        calcFreq := 1;
      }
    }

    /**
     * rr2_parse over the first `len` bytes of the store `d`: the helpers
     * in the context's phase order until the bytes run out, a helper comes
     * back short, or a code ends; a completed code is finalised and the
     * context reset to INIT.
     */
    method Parse(d: array<byte>, len: nat) returns (ret: Raw2Ret)
      requires len <= d.Length
      requires Parsed2(d[..len], State()).Some?
      modifies this
      ensures Parsed2(d[..len], old(State())) == Some((ret, State()))
    {
      ghost var s := d[..len];
      ghost var goal := From(s, 0, State());
      var n: nat := 0;
      while n < len && done == 0
        invariant n <= len && s == d[..len]
        invariant goal.Some? && From(s, n, State()) == goal
        decreases len - n, if phase == AtInit then 1 else 0
      {
        ghost var st := State();
        var next := NextPhase(phase);
        var m := Turn(d, len, n);
        RunTurn(s, n, st, m, State());
        phase := next;
        if m > len - n {
          break;
        }
        n := n + m;
      }
      ret := Conclude(n);
    }

    /** The helper for the current phase on the `len - n` bytes left at `d[n..]`. */
    method Turn(d: array<byte>, len: nat, n: nat) returns (m: nat)
      requires n < len <= d.Length
      requires Helper(d[..len], n, State()).Some?
      modifies this
      ensures Helper(d[..len], n, old(State())) == Some((m, State()))
    {
      match phase {
        case AtInit => m := Init();
        case AtInterspace => m := ReadInterspace(d, len, n);
        case AtPulse => m := ReadPulse(d, len, n);
        case AtSpace => m := ReadSpace(d, len, n);
      }
    }

    /** The end of rr2_parse once the loop stopped at `n`. */
    method Conclude(n: nat) returns (ret: Raw2Ret)
      modifies this
      ensures (ret, State()) == Finish(n, old(State()))
    {
      var rn := n % 0x10000;
      if done != 0 {
        var rm := if rn >= 2 then (if done == 1 then n - 2 else n) % 0x10000 else rn;
        Finalize();
        ret := Raw2Ret(true, rn, rm, [0, 0]);
        phase, done := AtInit, 0;
      } else {
        ret := Raw2Ret(false, rn, rn, []);
      }
    }

    /** rr2_output: the TX_RAW command, every time scaled by 560 / calc_freq. */
    method Output(d: array<byte>) returns (n: nat)
      requires calcFreq > 0
      requires |OutputFrame2(State())| <= d.Length
      modifies d
      ensures n <= d.Length && d[..n] == OutputFrame2(State())
      ensures forall q | n <= q < d.Length :: d[q] == old(d[q])
    {
      n := WriteTxRaw(d, FreqByte(calcFreq), repeat, interspace, pulses, spaces,
                      Scale(TickScale, calcFreq), Scale(TickScale, calcFreq));
    }

    /** rr2_output_pronto: the code as Pronto words. */
    method OutputPronto(d: array<byte>) returns (n: nat)
      requires calcFreq > 0
      requires d.Length >= 8 + 2 * (|pulses| + |spaces|) + 2
      modifies d
      ensures n <= d.Length && d[..n] == ProntoFrame(State())
      ensures forall q | n <= q < d.Length :: d[q] == old(d[q])
    {
      var np := |pulses|;
      d[0], d[1], d[2], d[3] := 0, 0, 0, (ProntoBase / calcFreq) % 256;
      d[4], d[5], d[6], d[7] := 0, 0, (np / 256) % 256, np % 256;
      ghost var header: seq<byte> := d[..8];
      assert header == ProntoHeader(State());
      var sc := Scale(TickScale, calcFreq);
      n := WriteWords(d, 8, pulses, spaces, sc);
      ghost var k := if |pulses| < |spaces| then |spaces| else |pulses|;
      assert d[..n] == header + Words(Values2(State())) by {
        WordRoundsWords(header, Scaled(pulses, sc), Scaled(spaces, sc), k);
        RoundsInterleave(Scaled(pulses, sc), Scaled(spaces, sc), k);
      }
      n := EmitWord(d, n, calcFreq / 100);
    }
  }
}
