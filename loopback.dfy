/**
 * What the decoder of src/AsyncRgbLedAnalyzer.cpp reads back from the waveform the
 * simulation encoder writes.
 *
 * The encoder's waveform is a list of timed levels; the decoder reads sampled edges. At
 * a sample rate of one sample per nanosecond the nominal times of the catalogue are
 * whole sample counts, so a capture of the waveform is exact: its edges are the ends of
 * the waveform's segments. On such a capture ReadBit itself, with its rounding to
 * samples and the one-sample shortening of the low time, reads every pulse pair back
 * as the bit it encodes, at the speed it was written in, ReadRGBTriple reads every
 * colour the encoder writes for a three-channel controller back as that colour, and the
 * last bit of a packet, whose low time runs into the reset, is read as a reset bit.
 */
module Loopback {
  import opened Helpers
  import opened Settings
  import opened Bits
  import opened ChannelData
  import opened Simulation
  import Decoding

  // ---------------------------------------------------------------------------
  // Captures of a waveform

  /** The sample at which each segment of w ends, for w starting at sample o and sampled
      once per nanosecond. */
  function SegmentEnds(o: nat, w: Wave): (ends: seq<nat>)
  {
    match w
    case Empty => []
    case Then(init, s) => SegmentEnds(o, init) + [o + Duration(init) + s.ns]
  }

  /** The edges from index k on are es. */
  predicate EdgesAt(ch: Channel, k: nat, es: seq<nat>)
  {
    k + |es| <= |ch.edges| && ch.edges[k..k + |es|] == es
  }

  /** The channel holds the waveform w from cursor c on: the line is high at c, where w
      starts, and the edges from c's next one on are the ends of w's segments, its last
      low segment included (something rises after it). */
  predicate Captures(ch: Channel, c: Cursor, w: Wave)
  {
    Level(ch, c) == High && EdgesAt(ch, c.next, SegmentEnds(c.pos, w))
  }

  lemma SegmentEndsShape(o: nat, w: Wave)
    ensures w.Empty? ==> |SegmentEnds(o, w)| == 0
    ensures w.Then? ==> |SegmentEnds(o, w)| > 0 && SegmentEnds(o, w)[|SegmentEnds(o, w)| - 1] == o + Duration(w)
  {
  }

  lemma {:induction false} SegmentEndsConcat(o: nat, a: Wave, b: Wave)
    ensures SegmentEnds(o, Concat(a, b)) == SegmentEnds(o, a) + SegmentEnds(o + Duration(a), b)
    decreases b
  {
    match b
    case Empty =>
    case Then(init, s) =>
      SegmentEndsConcat(o, a, init);
      DurationConcat(a, init);
  }

  /** Every bit is two segments. */
  lemma {:induction false} BitsWaveEnds(controller: nat, highSpeed: bool, o: nat, bits: seq<BitState>)
    requires ValidController(controller) && (highSpeed ==> IsHighSpeedSupported(controller))
    ensures |SegmentEnds(o, BitsWave(controller, highSpeed, bits))| == 2 * |bits|
    decreases |bits|
  {
    if bits != [] {
      var init := bits[..|bits| - 1];
      BitsWaveEnds(controller, highSpeed, o, init);
      SegmentEndsConcat(o, BitsWave(controller, highSpeed, init), BitWave(controller, highSpeed, bits[|bits| - 1]));
    }
  }

  /** The cursor on the edge where the waveform a, held from c, ends. */
  function Past(c: Cursor, a: Wave): Cursor
  {
    Cursor(c.pos + Duration(a), c.next + |SegmentEnds(c.pos, a)|)
  }

  /** A capture of a followed by b, where a has an even number of segments, holds a from
      c, and b from the cursor on the edge where a ends (c itself when a is empty). */
  lemma CapturesConcat(ch: Channel, c: Cursor, a: Wave, b: Wave)
    requires WellFormed(ch) && CursorValid(ch, c) && Captures(ch, c, Concat(a, b))
    requires |SegmentEnds(c.pos, a)| % 2 == 0
    ensures Captures(ch, c, a)
    ensures CursorValid(ch, Past(c, a)) && Captures(ch, Past(c, a), b)
  {
    var ea, eb := SegmentEnds(c.pos, a), SegmentEnds(c.pos + Duration(a), b);
    SegmentEndsConcat(c.pos, a, b);
    EdgesAtSplit(ch, c.next, ea, eb);
    CapturesRest(ch, c, a, b);
  }

  lemma CapturesRest(ch: Channel, c: Cursor, a: Wave, b: Wave)
    requires WellFormed(ch) && CursorValid(ch, c) && Level(ch, c) == High
    requires |SegmentEnds(c.pos, a)| % 2 == 0
    requires EdgesAt(ch, c.next, SegmentEnds(c.pos, a))
    requires EdgesAt(ch, c.next + |SegmentEnds(c.pos, a)|, SegmentEnds(c.pos + Duration(a), b))
    ensures CursorValid(ch, Past(c, a)) && Captures(ch, Past(c, a), b)
  {
    SegmentEndsShape(c.pos, a);
    CursorAfterRun(ch, c, SegmentEnds(c.pos, a), SegmentEnds(c.pos + Duration(a), b), c.pos + Duration(a));
  }

  /** The cursor on the last of an even run ea of edges, from which the edges eb follow. */
  lemma CursorAfterRun(ch: Channel, c: Cursor, ea: seq<nat>, eb: seq<nat>, pos: nat)
    requires WellFormed(ch) && CursorValid(ch, c) && Level(ch, c) == High
    requires |ea| % 2 == 0 && EdgesAt(ch, c.next, ea) && EdgesAt(ch, c.next + |ea|, eb)
    requires if |ea| == 0 then pos == c.pos else ea[|ea| - 1] == pos
    ensures var c1 := Cursor(pos, c.next + |ea|);
            CursorValid(ch, c1) && Level(ch, c1) == High && EdgesAt(ch, c1.next, eb)
  {
    var k := c.next + |ea|;
    if |ea| > 0 {
      assert ch.edges[k - 1] == ea[|ea| - 1];
      EdgeOrder(ch, k - 1, k);
    }
    EvenShift(c.next, |ea|);
  }

  lemma EdgesAtSplit(ch: Channel, k: nat, a: seq<nat>, b: seq<nat>)
    requires EdgesAt(ch, k, a + b)
    ensures EdgesAt(ch, k, a) && EdgesAt(ch, k + |a|, b)
  {
    var all := ch.edges[k..k + |a| + |b|];
    assert ch.edges[k..k + |a|] == all[..|a|];
    assert ch.edges[k + |a|..k + |a| + |b|] == all[|a|..];
    assert (a + b)[..|a|] == a && (a + b)[|a|..] == b;
  }

  lemma EvenShift(k: nat, m: nat)
    requires m % 2 == 0
    ensures (k + m) % 2 == k % 2
  {
    DivMod(k, 2);
    DivMod(m, 2);
    DivUnique(k + m, 2, k / 2 + m / 2, k % 2);
  }

  // ---------------------------------------------------------------------------
  // One sample per nanosecond

  lemma SamplesAreNs(d: nat)
    ensures Decoding.SamplesToNs(d, Second) == d as real
  {
    assert (d * Second) as real == d as real * Second as real;
  }

  lemma NsAreSamples(ns: nat)
    ensures Decoding.NsToSamples(ns, Second) == ns
  {
    DivUnique(ns * Second, Second, ns, 0);
  }

  /** Every negative window of the catalogue lies partly below its nominal time, so a
      nominal low time one sample short is still inside the window. */
  lemma NominalNegativeAboveMinimum(controller: nat, value: BitState, highSpeed: bool)
    requires ValidController(controller) && (highSpeed ==> IsHighSpeedSupported(controller))
    ensures DataTiming(controller, value, highSpeed).negative.minimum < DataTiming(controller, value, highSpeed).negative.nominal
  {
    if controller == 0 {} else if controller == 1 {} else if controller == 2 {}
    else if controller == 3 {} else if controller == 4 {} else if controller == 5 {}
    else if controller == 6 {} else if controller == 7 {} else {}
  }

  // ---------------------------------------------------------------------------
  // One bit

  /** ReadBit reads the pulse pair of bit b written at speed highSpeed back as a valid
      data bit b spanning the pair (its low time one sample short, ending before the next
      rising edge, where the cursor stops), both inside a packet locked to that speed
      and as the first bit after a reset, where DetectSpeedMode finds the speed; the
      speed is then locked. */
  lemma NominalBitRead(cfg: Decoding.Config, ch: Channel, s: Decoding.Session, highSpeed: bool, b: BitState)
    requires Decoding.SessionOk(cfg, ch, s) && cfg.rateHz == Second
    requires highSpeed ==> IsHighSpeedSupported(cfg.controller)
    requires s.firstBitAfterReset || s.didDetectHighSpeed == highSpeed
    requires Captures(ch, s.cursor, BitWave(cfg.controller, highSpeed, b))
    ensures var t, c := DataTiming(cfg.controller, b, highSpeed), s.cursor;
            var p, n := t.positive.nominal, t.negative.nominal;
            var st := Decoding.ReadBit(cfg, ch, s);
            && st.Done? && st.value.valid && !st.value.isReset && st.value.bitValue == b
            && st.value.beginSample == c.pos && st.value.endSample + 1 == c.pos + p + n
            && st.after == Decoding.Session(Cursor(c.pos + p + n, c.next + 2), false, highSpeed)
  {
    BitEdges(ch, s.cursor, cfg.controller, highSpeed, b);
    PulsePairRead(cfg, ch, s, highSpeed, b);
  }

  /** The two edges of a captured pulse pair. */
  lemma BitEdges(ch: Channel, c: Cursor, controller: nat, highSpeed: bool, b: BitState)
    requires ValidController(controller) && (highSpeed ==> IsHighSpeedSupported(controller))
    requires Captures(ch, c, BitWave(controller, highSpeed, b))
    ensures var t := DataTiming(controller, b, highSpeed);
            && c.next + 2 <= |ch.edges| && ch.edges[c.next] == c.pos + t.positive.nominal
            && ch.edges[c.next + 1] == c.pos + t.positive.nominal + t.negative.nominal
  {
    var t := DataTiming(controller, b, highSpeed);
    var p, n := t.positive.nominal, t.negative.nominal;
    var high := Then(Empty, Segment(High, p));
    assert SegmentEnds(c.pos, high) == [c.pos + p];
    var ends := SegmentEnds(c.pos, BitWave(controller, highSpeed, b));
    assert ends == [c.pos + p, c.pos + p + n];
    assert ch.edges[c.next..c.next + 2] == ends;
    assert ch.edges[c.next] == ends[0] && ch.edges[c.next + 1] == ends[1];
  }

  /** NominalBitRead on the edges of the pulse pair. */
  lemma PulsePairRead(cfg: Decoding.Config, ch: Channel, s: Decoding.Session, highSpeed: bool, b: BitState)
    requires Decoding.SessionOk(cfg, ch, s) && cfg.rateHz == Second
    requires highSpeed ==> IsHighSpeedSupported(cfg.controller)
    requires s.firstBitAfterReset || s.didDetectHighSpeed == highSpeed
    requires var t, c := DataTiming(cfg.controller, b, highSpeed), s.cursor;
             && Level(ch, c) == High && c.next + 2 <= |ch.edges| && ch.edges[c.next] == c.pos + t.positive.nominal
             && ch.edges[c.next + 1] == c.pos + t.positive.nominal + t.negative.nominal
    ensures var t, c := DataTiming(cfg.controller, b, highSpeed), s.cursor;
            var p, n := t.positive.nominal, t.negative.nominal;
            var st := Decoding.ReadBit(cfg, ch, s);
            && st.Done? && st.value.valid && !st.value.isReset && st.value.bitValue == b
            && st.value.beginSample == c.pos && st.value.endSample + 1 == c.pos + p + n
            && st.after == Decoding.Session(Cursor(c.pos + p + n, c.next + 2), false, highSpeed)
  {
    var controller, c := cfg.controller, s.cursor;
    var t := DataTiming(controller, b, highSpeed);
    var p, n := t.positive.nominal, t.negative.nominal;
    var fall := Cursor(c.pos + p, c.next + 1);
    assert Decoding.HighPulse(ch, c) == Some(Decoding.Pulse(c.pos, fall));
    assert NextEdgeCursor(ch, fall) == Cursor(c.pos + p + n, c.next + 2);
    SamplesAreNs(p);
    SamplesAreNs(n - 1);
    LowPulseThresholds(controller, highSpeed, b);
    var d := Decoding.Detection(b, highSpeed);
    NominalPairAccepted(controller, highSpeed, b);
    Decoding.ReadBitComplete(cfg, ch, s, b, d);
  }

  /** With one sample per nanosecond, a nominal low time ends beyond the minimum low time
      and within the reset minimum. */
  lemma LowPulseThresholds(controller: nat, highSpeed: bool, b: BitState)
    requires ValidController(controller) && (highSpeed ==> IsHighSpeedSupported(controller))
    ensures var n := DataTiming(controller, b, highSpeed).negative.nominal;
            && Decoding.NsToSamples(Decoding.MinimumLowDuration(controller), Second) < n
            && n <= Decoding.NsToSamples(ResetTiming(controller).minimum, Second)
  {
    NsAreSamples(Decoding.MinimumLowDuration(controller));
    NsAreSamples(ResetTiming(controller).minimum);
    NominalNegativeAboveMinimum(controller, b, highSpeed);
    Decoding.MinimumLowBelowEveryWindow(controller, b, highSpeed);
    Decoding.NominalNegativeBelowReset(controller, b, highSpeed);
  }

  /** The nominal positive time and the nominal negative time one sample short are
      accepted as bit b at its speed, both by the locked-speed tests and by
      DetectSpeedMode. */
  lemma NominalPairAccepted(controller: nat, highSpeed: bool, b: BitState)
    requires ValidController(controller) && (highSpeed ==> IsHighSpeedSupported(controller))
    ensures var t := DataTiming(controller, b, highSpeed);
            var p, n := t.positive.nominal as real, t.negative.nominal - 1;
            && n >= 0
            && Decoding.ClassifyPositive(controller, highSpeed, p) == Some(b)
            && t.negative.WithinTolerance(n as real)
            && Decoding.DetectSpeed(controller, p, n as real) == Some(Decoding.Detection(b, highSpeed))
  {
    var t := DataTiming(controller, b, highSpeed);
    var p := t.positive.nominal as real;
    NominalNegativeAboveMinimum(controller, b, highSpeed);
    var n := t.negative.nominal - 1;
    var d := Decoding.Detection(b, highSpeed);
    Decoding.ClassifyPositiveExact(controller, highSpeed, p, b);
    assert d in Decoding.Candidates(controller);
    Decoding.DetectSpeedExact(controller, p, n as real, d);
  }

  /** The last bit of a packet runs into the reset low time that starts the next packet,
      so no edge follows its falling edge before the nominal low time and the nominal
      reset time have passed: ReadBit reads it as a valid reset bit carrying the bit's
      value, its frame ending the nominal low time after the falling edge, and leaves
      the cursor the reset minimum after the falling edge. */
  lemma PacketEndIsReset(cfg: Decoding.Config, ch: Channel, s: Decoding.Session, b: BitState)
    requires Decoding.SessionOk(cfg, ch, s) && cfg.rateHz == Second && !s.firstBitAfterReset
    requires var c, t := s.cursor, DataTiming(cfg.controller, b, s.didDetectHighSpeed);
             && Level(ch, c) == High && HasNextEdge(ch, c) && ch.edges[c.next] == c.pos + t.positive.nominal
             && (c.next + 1 < |ch.edges| ==>
                   ch.edges[c.next + 1] >= c.pos + t.positive.nominal + t.negative.nominal + ResetTiming(cfg.controller).nominal)
    ensures var c, t := s.cursor, DataTiming(cfg.controller, b, s.didDetectHighSpeed);
            var p, n := t.positive.nominal, t.negative.nominal;
            Decoding.ReadBit(cfg, ch, s)
              == Decoding.Done(Decoding.ReadResult(true, true, b, c.pos, c.pos + p + n),
                               s.(cursor := Cursor(c.pos + p + ResetTiming(cfg.controller).minimum, c.next + 1)))
  {
    var controller, c, hs := cfg.controller, s.cursor, s.didDetectHighSpeed;
    var t := DataTiming(controller, b, hs);
    var p := t.positive.nominal;
    var fall := Cursor(c.pos + p, c.next + 1);
    assert Decoding.HighPulse(ch, c) == Some(Decoding.Pulse(c.pos, fall));
    SamplesAreNs(p);
    NsAreSamples(Decoding.MinimumLowDuration(controller));
    NsAreSamples(ResetTiming(controller).minimum);
    NsAreSamples(t.negative.nominal);
    NominalNegativeAboveMinimum(controller, b, hs);
    Decoding.MinimumLowBelowEveryWindow(controller, b, hs);
    Decoding.ClassifyPositiveExact(controller, hs, p as real, b);
    assert !TransitionWithin(ch, fall, ResetTiming(controller).minimum);
  }

  // ---------------------------------------------------------------------------
  // Runs of bits, words and colours

  /** The pulse pairs of b and then of rest last as long as those of b plus those of rest. */
  lemma ConsDuration(controller: nat, highSpeed: bool, b: BitState, rest: seq<BitState>)
    requires ValidController(controller) && (highSpeed ==> IsHighSpeedSupported(controller))
    ensures BitsWave(controller, highSpeed, [b] + rest)
              == Concat(BitWave(controller, highSpeed, b), BitsWave(controller, highSpeed, rest))
    ensures Duration(BitsWave(controller, highSpeed, [b] + rest))
              == Duration(BitWave(controller, highSpeed, b)) + Duration(BitsWave(controller, highSpeed, rest))
  {
    var bw := BitWave(controller, highSpeed, b);
    BitsWaveAppend(controller, highSpeed, [b], rest);
    assert [b][..0] == [];
    ConcatEmptyLeft(bw);
    DurationConcat(bw, BitsWave(controller, highSpeed, rest));
  }

  /** The reads rs are data bits (not resets) with the values bits, each spanning its own
      pulse pair of the waveform of bits that starts at sample o: from the sample where
      the pair starts to the sample before the next pair. */
  predicate ReadAsPairs(controller: nat, highSpeed: bool, o: nat, bits: seq<BitState>, rs: seq<Decoding.ReadResult>)
    requires ValidController(controller) && (highSpeed ==> IsHighSpeedSupported(controller))
  {
    && |rs| == |bits| && Decoding.AllValid(rs) && Decoding.BitValues(rs) == bits
    && forall i :: 0 <= i < |bits| ==>
         && !rs[i].isReset
         && rs[i].beginSample == o + Duration(BitsWave(controller, highSpeed, bits[..i]))
         && rs[i].endSample + 1 == o + Duration(BitsWave(controller, highSpeed, bits[..i + 1]))
  }

  /** Every run of bits the encoder writes at one speed is read back by ReadBits: as many
      valid data bits as were written, with the values written, each spanning its own
      pulse pair, starting in a packet locked to that speed or on the first bit after a
      reset; the cursor stops on the rising edge after the run, with the speed locked. */
  lemma {:induction false} BitsRoundTrip(cfg: Decoding.Config, ch: Channel, s: Decoding.Session, highSpeed: bool,
                                         bits: seq<BitState>)
    requires Decoding.SessionOk(cfg, ch, s) && cfg.rateHz == Second
    requires highSpeed ==> IsHighSpeedSupported(cfg.controller)
    requires s.firstBitAfterReset || s.didDetectHighSpeed == highSpeed
    requires Captures(ch, s.cursor, BitsWave(cfg.controller, highSpeed, bits))
    ensures var st := Decoding.ReadBits(cfg, ch, s, |bits|);
            var controller, c := cfg.controller, s.cursor;
            && st.Done? && ReadAsPairs(controller, highSpeed, c.pos, bits, st.value)
            && st.after == if bits == [] then s
                           else Decoding.Session(Cursor(c.pos + Duration(BitsWave(controller, highSpeed, bits)),
                                                        c.next + 2 * |bits|), false, highSpeed)
    decreases |bits|
  {
    if bits != [] {
      var controller, c := cfg.controller, s.cursor;
      var b, rest := bits[0], bits[1..];
      assert [b] + rest == bits;
      var bw, rw := BitWave(controller, highSpeed, b), BitsWave(controller, highSpeed, rest);
      ConsDuration(controller, highSpeed, b, rest);
      BitsWaveEnds(controller, highSpeed, c.pos, [b]);
      ConsDuration(controller, highSpeed, b, []);
      CapturesConcat(ch, c, bw, rw);
      NominalBitRead(cfg, ch, s, highSpeed, b);
      var bit := Decoding.ReadBit(cfg, ch, s);
      assert Past(c, bw) == bit.after.cursor;
      BitsRoundTrip(cfg, ch, bit.after, highSpeed, rest);
      Decoding.ReadBitsUnfold(cfg, ch, s, |bits|);
      var rs := Decoding.ReadBits(cfg, ch, bit.after, |rest|).value;
      ReadAsPairsCons(controller, highSpeed, c.pos, b, rest, bit.value, rs);
    }
  }

  /** Where the i-th pulse pair of b followed by rest starts and ends. */
  lemma PrefixDurations(controller: nat, highSpeed: bool, b: BitState, rest: seq<BitState>, i: nat)
    requires ValidController(controller) && (highSpeed ==> IsHighSpeedSupported(controller))
    requires i <= |rest|
    ensures var bits, d := [b] + rest, Duration(BitWave(controller, highSpeed, b));
            && Duration(BitsWave(controller, highSpeed, bits[..i + 1])) == d + Duration(BitsWave(controller, highSpeed, rest[..i]))
            && (i == 0 ==> Duration(BitsWave(controller, highSpeed, bits[..i])) == 0)
            && (i > 0 ==> Duration(BitsWave(controller, highSpeed, bits[..i])) == d + Duration(BitsWave(controller, highSpeed, rest[..i - 1])))
  {
    var bits := [b] + rest;
    assert bits[..i + 1] == [b] + rest[..i];
    ConsDuration(controller, highSpeed, b, rest[..i]);
    if i > 0 {
      assert bits[..i] == [b] + rest[..i - 1];
      ConsDuration(controller, highSpeed, b, rest[..i - 1]);
    } else {
      assert bits[..0] == [];
    }
  }

  /** A pulse pair read as its bit, followed by a run read as its bits. */
  lemma ReadAsPairsCons(controller: nat, highSpeed: bool, o: nat, b: BitState, rest: seq<BitState>,
                        r: Decoding.ReadResult, rs: seq<Decoding.ReadResult>)
    requires ValidController(controller) && (highSpeed ==> IsHighSpeedSupported(controller))
    requires var d := Duration(BitWave(controller, highSpeed, b));
             && r.valid && !r.isReset && r.bitValue == b && r.beginSample == o && r.endSample + 1 == o + d
             && ReadAsPairs(controller, highSpeed, o + d, rest, rs)
    ensures ReadAsPairs(controller, highSpeed, o, [b] + rest, [r] + rs)
  {
    var bits, all := [b] + rest, [r] + rs;
    var d := Duration(BitWave(controller, highSpeed, b));
    forall i | 0 <= i < |bits|
      ensures && !all[i].isReset
              && all[i].beginSample == o + Duration(BitsWave(controller, highSpeed, bits[..i]))
              && all[i].endSample + 1 == o + Duration(BitsWave(controller, highSpeed, bits[..i + 1]))
    {
      PrefixDurations(controller, highSpeed, b, rest, i);
      if i > 0 {
        assert all[i] == rs[i - 1];
      }
    }
    assert Decoding.BitValues(all) == bits by {
      Decoding.BitValuesAppend([r], rs);
      assert Decoding.BitValues([r]) == [b];
    }
    assert Decoding.AllValid(all) by {
      assert forall i :: 0 < i < |all| ==> all[i] == rs[i - 1];
    }
  }

  /** A value that fits in `bitCount` bits, written as WriteUIntData writes it, is read
      back as `bitCount` valid bits that assemble, most significant first, to the value. */
  lemma WordRoundTrip(cfg: Decoding.Config, ch: Channel, s: Decoding.Session, highSpeed: bool,
                      value: nat, bitCount: nat)
    requires Decoding.SessionOk(cfg, ch, s) && cfg.rateHz == Second
    requires highSpeed ==> IsHighSpeedSupported(cfg.controller)
    requires s.firstBitAfterReset || s.didDetectHighSpeed == highSpeed
    requires value < Pow2(bitCount)
    requires Captures(ch, s.cursor, WordWave(cfg.controller, highSpeed, value, bitCount))
    ensures var st := Decoding.ReadBits(cfg, ch, s, bitCount);
            && st.Done? && |st.value| == bitCount && Decoding.AllValid(st.value)
            && MsbValue(Decoding.BitValues(st.value)) == value
  {
    WordWaveMsbFirst(cfg.controller, highSpeed, value, bitCount);
    BitsRoundTrip(cfg, ch, s, highSpeed, MsbBits(value, bitCount));
    MsbValueOfBits(value, bitCount);
    DivUnique(value, Pow2(bitCount), 0, value);
  }

  /** Splitting the wire bits of channel values into channels gives back the values. */
  lemma {:induction false} ChannelValuesOfWire(values: seq<u16>, size: nat)
    requires forall i :: 0 <= i < |values| ==> values[i] as nat < Pow2(size)
    ensures forall i :: 0 <= i < |values| ==>
              Decoding.ChannelValues(WireBits(values, size), |values|, size)[i] == values[i] as nat
  {
    if values != [] {
      var n, tail := |values|, values[1..];
      var bits, head := WireBits(values, size), MsbBits(values[0] as nat, size);
      assert n * size == (n - 1) * size + size;
      assert bits == head + WireBits(tail, size);
      assert bits[..size] == head && bits[size..] == WireBits(tail, size);
      ChannelValuesOfWire(tail, size);
      MsbValueOfBits(values[0] as nat, size);
      DivUnique(values[0] as nat, Pow2(size), 0, values[0] as nat);
      assert MsbValue(head) == values[0] as nat;
      var rest := Decoding.ChannelValues(WireBits(tail, size), n - 1, size);
      assert Decoding.ChannelValues(bits, n, size) == [values[0] as nat] + rest;
    }
  }

  /** For a three-channel controller a word whose bits are the wire bits of a colour
      decodes to that colour (with no padding), whatever the controller's wire order. */
  lemma WordColourOfWire(controller: nat, rgb: RGBValue, good: seq<Decoding.ReadResult>)
    requires ValidController(controller) && LedChannelCount(controller) == 3
    requires rgb.red as nat < Pow2(BitSize(controller)) && rgb.green as nat < Pow2(BitSize(controller))
    requires rgb.blue as nat < Pow2(BitSize(controller))
    requires Decoding.BitValues(good) == WireBits(ControllerOrder(GetColorLayout(controller), rgb), BitSize(controller))
    ensures Decoding.WordColour(controller, good) == Rgb(rgb.red, rgb.green, rgb.blue)
  {
    var layout, size := GetColorLayout(controller), BitSize(controller);
    var order := ControllerOrder(layout, rgb);
    ControllerOrderRoundTrip(layout, rgb);
    ChannelValuesOfWire(order, size);
    Pow2BitSize(controller);
    var channels := Decoding.AsU16(Decoding.ChannelValues(Decoding.BitValues(good), 3, size));
    assert channels == order;
  }

  /** A colour that WriteRGBTriple writes for a three-channel controller is read back by
      ReadRGBTriple as a valid, non-reset result holding that colour (with no padding),
      spanning the colour's pulse pairs, with the cursor on the rising edge after it and
      the speed locked. */
  lemma TripleRoundTrip(cfg: Decoding.Config, ch: Channel, s: Decoding.Session, highSpeed: bool, rgb: RGBValue)
    requires Decoding.SessionOk(cfg, ch, s) && cfg.rateHz == Second
    requires highSpeed ==> IsHighSpeedSupported(cfg.controller)
    requires s.firstBitAfterReset || s.didDetectHighSpeed == highSpeed
    requires LedChannelCount(cfg.controller) == 3
    requires rgb.red as nat < Pow2(BitSize(cfg.controller)) && rgb.green as nat < Pow2(BitSize(cfg.controller))
    requires rgb.blue as nat < Pow2(BitSize(cfg.controller))
    requires Captures(ch, s.cursor, TripleWave(cfg.controller, highSpeed, rgb))
    ensures var c, w := s.cursor, TripleWave(cfg.controller, highSpeed, rgb);
            var st := Decoding.ReadRgbTriple(cfg, ch, s);
            && st.Done? && st.value.valid && !st.value.isReset && st.value.rgb == Rgb(rgb.red, rgb.green, rgb.blue)
            && st.value.beginSample == c.pos && st.value.endSample + 1 == c.pos + Duration(w)
            && st.after == Decoding.Session(Cursor(c.pos + Duration(w), c.next + 2 * Decoding.WordBits(cfg.controller)),
                                            false, highSpeed)
  {
    var controller, size := cfg.controller, BitSize(cfg.controller);
    var order := ControllerOrder(GetColorLayout(controller), rgb);
    var bits := WireBits(order, size);
    ValuesWaveBits(controller, highSpeed, order);
    assert |bits| == Decoding.WordBits(controller);
    BitsRoundTrip(cfg, ch, s, highSpeed, bits);
    var rs := Decoding.ReadBits(cfg, ch, s, |bits|).value;
    ReadAsPairsSpan(controller, highSpeed, s.cursor.pos, bits, rs);
    Decoding.TripleOfFull(controller, rs);
    WordColourOfWire(controller, rgb, rs);
  }

  /** A run read as its pulse pairs spans the whole waveform of the run. */
  lemma ReadAsPairsSpan(controller: nat, highSpeed: bool, o: nat, bits: seq<BitState>, rs: seq<Decoding.ReadResult>)
    requires ValidController(controller) && (highSpeed ==> IsHighSpeedSupported(controller))
    requires ReadAsPairs(controller, highSpeed, o, bits, rs) && |bits| > 0
    ensures rs[0].beginSample == o && !rs[|rs| - 1].isReset
    ensures rs[|rs| - 1].endSample + 1 == o + Duration(BitsWave(controller, highSpeed, bits))
  {
    assert bits[..0] == [];
    assert bits[..|bits| - 1 + 1] == bits;
  }

  /** The colours the encoder draws are below the maximum channel value, which
      Initialize sets to the largest value the channel width holds, so each of them
      survives the round trip through ReadRGBTriple. */
  lemma GeneratedColourRoundTrip(cfg: Decoding.Config, ch: Channel, s: Decoding.Session, highSpeed: bool,
                                 rand: imap<nat, nat>, draws: nat, maximum: nat)
    requires Decoding.SessionOk(cfg, ch, s) && cfg.rateHz == Second
    requires highSpeed ==> IsHighSpeedSupported(cfg.controller)
    requires s.firstBitAfterReset || s.didDetectHighSpeed == highSpeed
    requires LedChannelCount(cfg.controller) == 3 && Total(rand)
    requires 0 < maximum <= 0x1_0000 && maximum <= Pow2(BitSize(cfg.controller))
    requires Captures(ch, s.cursor, TripleWave(cfg.controller, highSpeed, RandomRgb(rand, draws, maximum)))
    ensures var rgb, st := RandomRgb(rand, draws, maximum), Decoding.ReadRgbTriple(cfg, ch, s);
            st.Done? && st.value.valid && st.value.rgb == rgb
  {
    TripleRoundTrip(cfg, ch, s, highSpeed, RandomRgb(rand, draws, maximum));
  }
}
