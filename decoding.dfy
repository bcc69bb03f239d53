/**
 * What the decoder of src/AsyncRgbLedAnalyzer.cpp computes, as functions of the captured
 * channel: one bit (ReadBit with DetectSpeedMode), one colour word (ReadRGBTriple), the
 * search for a reset (SynchronizeToReset) and the frames of a whole capture
 * (WorkerThread). The Analyzer class in analyzer.dfy is proved to compute exactly these.
 *
 * Times measured on the capture are sample counts; the source turns them into seconds
 * by dividing by the sample rate, and here into nanoseconds as exact rationals.
 * Durations it hands to the SDK as sample counts (a double converted to int or U32)
 * are rounded down.
 */
module Decoding {
  import opened Helpers
  import opened Settings
  import opened ChannelData
  import opened Bits

  /** A sample count as a duration in nanoseconds. */
  function SamplesToNs(d: nat, rateHz: nat): real
    requires rateHz > 0
  {
    (d * Second) as real / rateHz as real
  }

  /** A duration in nanoseconds as a whole number of samples, rounded down. */
  function NsToSamples(ns: nat, rateHz: nat): nat
  {
    ns * rateHz / Second
  }

  function Min(a: nat, b: nat): nat
  {
    if a <= b then a else b
  }

  /** mMinimumLowDurationSec, cached by WorkerThread: the smaller negative minimum of the
      two bit values, taken from the high-speed tables when the controller has them. */
  function MinimumLowDuration(controller: nat): nat
    requires ValidController(controller)
  {
    var hs := IsHighSpeedSupported(controller);
    Min(DataTiming(controller, Low, hs).negative.minimum, DataTiming(controller, High, hs).negative.minimum)
  }

  /** The selected controller and the capture's sample rate. */
  datatype Config = Config(controller: nat, rateHz: nat)

  predicate ConfigOk(cfg: Config)
  {
    ValidController(cfg.controller) && cfg.rateHz > 0
  }

  /** The decoder's state between bits: where it is on the channel, and the two flags
      mFirstBitAfterReset and mDidDetectHighSpeed. */
  datatype Session = Session(cursor: Cursor, firstBitAfterReset: bool, didDetectHighSpeed: bool)

  predicate SessionOk(cfg: Config, ch: Channel, s: Session)
  {
    && ConfigOk(cfg) && WellFormed(ch) && CursorValid(ch, s.cursor)
    && (s.didDetectHighSpeed ==> IsHighSpeedSupported(cfg.controller))
  }

  /** The outcome of one read: Stalled when it needs an edge the capture does not have,
      which is where decoding of a finished capture ends. */
  datatype Step<T> = Stalled | Done(value: T, after: Session)

  /** ReadResult, with the defaults of its declaration (value Low, both samples 0). */
  datatype ReadResult = ReadResult(valid: bool, isReset: bool, bitValue: BitState, beginSample: nat, endSample: nat)

  function Invalid(value: BitState, begin: nat, end: nat): ReadResult
  {
    ReadResult(false, false, value, begin, end)
  }

  // ---------------------------------------------------------------------------
  // Classification

  /** The positive-pulse test of ReadBit once the speed is known: the 0 window first. */
  function ClassifyPositive(controller: nat, highSpeed: bool, highNs: real): Option<BitState>
    requires ValidController(controller) && (highSpeed ==> IsHighSpeedSupported(controller))
  {
    if DataTiming(controller, Low, highSpeed).positive.WithinTolerance(highNs) then Some(Low)
    else if DataTiming(controller, High, highSpeed).positive.WithinTolerance(highNs) then Some(High)
    else None
  }

  /** A bit value together with the speed mode it was recognised in. */
  datatype Detection = Detection(value: BitState, highSpeed: bool)

  /** DetectSpeedMode: the joint (positive, negative) test, low speed before high speed
      and 0 before 1 within each. */
  function DetectSpeed(controller: nat, highNs: real, lowNs: real): Option<Detection>
    requires ValidController(controller)
  {
    if DataTiming(controller, Low, false).WithinTolerance(highNs, lowNs) then Some(Detection(Low, false))
    else if DataTiming(controller, High, false).WithinTolerance(highNs, lowNs) then Some(Detection(High, false))
    else if !IsHighSpeedSupported(controller) then None
    else if DataTiming(controller, Low, true).WithinTolerance(highNs, lowNs) then Some(Detection(Low, true))
    else if DataTiming(controller, High, true).WithinTolerance(highNs, lowNs) then Some(Detection(High, true))
    else None
  }

  /** The timings DetectSpeedMode tries, in the order it tries them. */
  function Candidates(controller: nat): (cands: seq<Detection>)
    requires ValidController(controller)
    ensures forall i :: 0 <= i < |cands| ==> (cands[i].highSpeed ==> IsHighSpeedSupported(controller))
  {
    [Detection(Low, false), Detection(High, false)]
      + (if IsHighSpeedSupported(controller) then [Detection(Low, true), Detection(High, true)] else [])
  }

  predicate Accepts(controller: nat, d: Detection, highNs: real, lowNs: real)
    requires ValidController(controller) && (d.highSpeed ==> IsHighSpeedSupported(controller))
  {
    DataTiming(controller, d.value, d.highSpeed).WithinTolerance(highNs, lowNs)
  }

  /** A linear search: the first candidate at or after index i whose timing accepts the
      pulse pair. */
  function FirstMatch(controller: nat, cands: seq<Detection>, i: nat, highNs: real, lowNs: real): (r: Option<nat>)
    requires ValidController(controller) && i <= |cands|
    requires forall k :: 0 <= k < |cands| ==> (cands[k].highSpeed ==> IsHighSpeedSupported(controller))
    ensures r.Some? ==> i <= r.value < |cands| && Accepts(controller, cands[r.value], highNs, lowNs)
    ensures r.Some? ==> forall k :: i <= k < r.value ==> !Accepts(controller, cands[k], highNs, lowNs)
    ensures r.None? ==> forall k :: i <= k < |cands| ==> !Accepts(controller, cands[k], highNs, lowNs)
    decreases |cands| - i
  {
    if i == |cands| then None
    else if Accepts(controller, cands[i], highNs, lowNs) then Some(i)
    else FirstMatch(controller, cands, i + 1, highNs, lowNs)
  }

  // ---------------------------------------------------------------------------
  // One bit

  /** A high pulse: from `begin`, where the line is high, to the falling edge `fall`. */
  datatype Pulse = Pulse(begin: nat, fall: Cursor)

  /** The high pulse ReadBit measures: onto the rising edge (if the line is low), then
      onto the falling edge. None when an edge it needs is not in the capture. */
  function HighPulse(ch: Channel, c: Cursor): (p: Option<Pulse>)
    requires WellFormed(ch) && CursorValid(ch, c)
    ensures p.Some? ==>
              var b, f := p.value.begin, p.value.fall;
              && CursorValid(ch, f) && c.pos <= b < f.pos && f.next > c.next && (Level(ch, c) == Low ==> c.pos < b)
              && f.next >= 1 && ch.edges[f.next - 1] == f.pos && Level(ch, f) == Low
              && (f.next >= 2 ==> ch.edges[f.next - 2] <= b)
  {
    if Level(ch, c) == Low && !HasNextEdge(ch, c) then None
    else
      var c1 := if Level(ch, c) == Low then NextEdgeCursor(ch, c) else c;
      if !HasNextEdge(ch, c1) then None else Some(Pulse(c1.pos, NextEdgeCursor(ch, c1)))
  }

  /** ReadBit: the high pulse, then the rest from its falling edge. */
  function ReadBit(cfg: Config, ch: Channel, s: Session): (st: Step<ReadResult>)
    requires SessionOk(cfg, ch, s)
    ensures st.Done? ==> SessionOk(cfg, ch, st.after) && st.after.cursor.next > s.cursor.next
  {
    match HighPulse(ch, s.cursor)
    case None => Stalled
    case Some(p) => BitAfterFallingEdge(cfg, ch, s, p.begin, p.fall)
  }

  /** ReadBit from the falling edge `fall` of a high pulse that began at `begin`: the
      positive pulse is classified (unless the speed is still to be detected), then the
      low pulse is examined. */
  function BitAfterFallingEdge(cfg: Config, ch: Channel, s: Session, begin: nat, fall: Cursor): (st: Step<ReadResult>)
    requires SessionOk(cfg, ch, s) && CursorValid(ch, fall) && begin < fall.pos && fall.next > s.cursor.next
    ensures st.Done? && SessionOk(cfg, ch, st.after) && st.after.cursor.next >= fall.next
  {
    var highNs := SamplesToNs(fall.pos - begin, cfg.rateHz);
    var positive := if s.firstBitAfterReset then Some(Low)
                    else ClassifyPositive(cfg.controller, s.didDetectHighSpeed, highNs);
    if positive.None? then
      // the high time lies outside both positive windows of the locked speed
      Done(Invalid(Low, begin, 0), s.(cursor := fall))
    else LowPulse(cfg, ch, s, begin, fall, positive.value)
  }

  /** The rest of ReadBit, once the positive pulse gave `value` (or Low, the default,
      when the speed is still to be detected): the too-short test, the reset test, then
      the classification of the low pulse. */
  function LowPulse(cfg: Config, ch: Channel, s: Session, begin: nat, fall: Cursor, value: BitState): (st: Step<ReadResult>)
    requires SessionOk(cfg, ch, s) && CursorValid(ch, fall) && begin < fall.pos
    ensures st.Done? && SessionOk(cfg, ch, st.after) && st.after.cursor.next >= fall.next
  {
    var controller, rate := cfg.controller, cfg.rateHz;
    var falling := fall.pos;
    if TransitionWithin(ch, fall, NsToSamples(MinimumLowDuration(controller), rate)) then
      // an edge within the minimum low time
      Done(Invalid(value, begin, 0), s.(cursor := NextEdgeCursor(ch, fall)))
    else
      var minResetSamples := NsToSamples(ResetTiming(controller).minimum, rate);
      if !TransitionWithin(ch, fall, minResetSamples) then
        if s.firstBitAfterReset then
          // the first bit after a reset, with no edge within the reset minimum
          Done(Invalid(value, begin, 0), s.(cursor := fall))
        else
          var nominalNegative := DataTiming(controller, value, s.didDetectHighSpeed).negative.nominal;
          Done(ReadResult(true, true, value, begin, falling + NsToSamples(nominalNegative, rate)),
               s.(cursor := AdvancedBy(ch, fall, minResetSamples)))
      else LowPulseEnd(cfg, ch, s, begin, fall, value)
  }

  /** The low pulse ends on an edge within the reset minimum: it runs to the sample
      before that rising edge, and is classified (with DetectSpeedMode on the first bit
      after a reset). */
  function LowPulseEnd(cfg: Config, ch: Channel, s: Session, begin: nat, fall: Cursor, value: BitState): (st: Step<ReadResult>)
    requires SessionOk(cfg, ch, s) && CursorValid(ch, fall) && begin < fall.pos && HasNextEdge(ch, fall)
    ensures st.Done? && SessionOk(cfg, ch, st.after) && st.after.cursor == NextEdgeCursor(ch, fall)
  {
    var controller, rate := cfg.controller, cfg.rateHz;
    var next := NextEdgeCursor(ch, fall);
    var end := next.pos - 1;
    var highNs := SamplesToNs(fall.pos - begin, rate);
    var lowNs := SamplesToNs(end - fall.pos, rate);
    if s.firstBitAfterReset then
      match DetectSpeed(controller, highNs, lowNs)
      case None => Done(Invalid(value, begin, end), Session(next, true, false))
      case Some(d) => Done(ReadResult(true, false, d.value, begin, end), Session(next, false, d.highSpeed))
    else
      var ok := DataTiming(controller, value, s.didDetectHighSpeed).negative.WithinTolerance(lowNs);
      Done(ReadResult(ok, false, value, begin, end), s.(cursor := next))
  }

  // ---------------------------------------------------------------------------
  // Properties of the thresholds and of classification

  /** ReadBit treats a low gap as a reset when no edge lies within the reset minimum
      rounded down to samples; SynchronizeToReset compares the exact duration. For a
      whole number of samples the two tests agree. */
  lemma ResetThresholdsAgree(gap: nat, minNs: nat, rateHz: nat)
    requires rateHz > 0
    ensures gap > NsToSamples(minNs, rateHz) <==> SamplesToNs(gap, rateHz) > minNs as real
  {
    var x := minNs * rateHz;
    var q := x / Second;
    DivMod(x, Second);
    if gap > q {
      MulLe(q + 1, gap, Second);
      assert gap * Second > x;
    } else {
      MulLe(gap, q, Second);
      assert gap * Second <= x;
    }
    RealDivGreater((gap * Second) as real, rateHz as real, minNs as real);
    assert (minNs * rateHz) as real == minNs as real * rateHz as real;
  }

  lemma MulLe(a: nat, b: nat, m: nat)
    requires a <= b
    ensures a * m <= b * m
  {
    assert b * m == a * m + (b - a) * m;
  }

  lemma RealDivGreater(a: real, r: real, m: real)
    requires r > 0.0
    ensures a / r > m <==> a > m * r
  {
    var y := a / r;
    assert a == y * r;
    if y > m {
      assert (y - m) * r > 0.0;
    } else {
      assert (m - y) * r >= 0.0;
    }
  }

  /** Two windows that no duration satisfies both of. */
  predicate Disjoint(a: TimingTolerance, b: TimingTolerance)
  {
    a.maximum < b.minimum || b.maximum < a.minimum
  }

  /** In every controller and every speed it supports, the positive window of a 0 bit
      lies wholly below that of a 1 bit. */
  lemma PositiveWindowsOrdered(controller: nat, highSpeed: bool)
    requires ValidController(controller) && (highSpeed ==> IsHighSpeedSupported(controller))
    ensures DataTiming(controller, Low, highSpeed).positive.maximum < DataTiming(controller, High, highSpeed).positive.minimum
  {
    if controller == 0 {} else if controller == 1 {} else if controller == 2 {}
    else if controller == 3 {} else if controller == 4 {} else if controller == 5 {}
    else if controller == 6 {} else if controller == 7 {} else {}
  }

  /** Once the speed is known the positive pulse alone decides the bit: the result is
      Some(v) exactly when v's positive window accepts the pulse, and None exactly when
      neither does. */
  lemma ClassifyPositiveExact(controller: nat, highSpeed: bool, highNs: real, v: BitState)
    requires ValidController(controller) && (highSpeed ==> IsHighSpeedSupported(controller))
    ensures ClassifyPositive(controller, highSpeed, highNs) == Some(v) <==>
              DataTiming(controller, v, highSpeed).positive.WithinTolerance(highNs)
    ensures ClassifyPositive(controller, highSpeed, highNs).None? <==>
              (!DataTiming(controller, Low, highSpeed).positive.WithinTolerance(highNs) &&
               !DataTiming(controller, High, highSpeed).positive.WithinTolerance(highNs))
  {
    PositiveWindowsOrdered(controller, highSpeed);
  }

  /** No pulse pair is accepted by two of the timings DetectSpeedMode tries: for each two
      of them the positive windows or the negative windows are disjoint. */
  lemma CandidatesExclusive(controller: nat)
    requires ValidController(controller)
    ensures var cands := Candidates(controller);
            forall i, j :: 0 <= i < j < |cands| ==>
              var a := DataTiming(controller, cands[i].value, cands[i].highSpeed);
              var b := DataTiming(controller, cands[j].value, cands[j].highSpeed);
              Disjoint(a.positive, b.positive) || Disjoint(a.negative, b.negative)
  {
    if controller == 0 {} else if controller == 1 {} else if controller == 2 {}
    else if controller == 3 {} else if controller == 4 {} else if controller == 5 {}
    else if controller == 6 {} else if controller == 7 {} else {}
  }

  /** DetectSpeedMode is a first-match search over its candidate timings. */
  lemma DetectSpeedIsFirstMatch(controller: nat, highNs: real, lowNs: real)
    requires ValidController(controller)
    ensures var cands := Candidates(controller);
            var m := FirstMatch(controller, cands, 0, highNs, lowNs);
            DetectSpeed(controller, highNs, lowNs) == if m.None? then None else Some(cands[m.value])
  {
    var cands := Candidates(controller);
    var m := FirstMatch(controller, cands, 0, highNs, lowNs);
    if m.Some? {
      assert m.value == 0 || !Accepts(controller, cands[0], highNs, lowNs);
      assert m.value <= 1 || !Accepts(controller, cands[1], highNs, lowNs);
      assert m.value <= 2 || !Accepts(controller, cands[2], highNs, lowNs);
    } else {
      assert !Accepts(controller, cands[0], highNs, lowNs) && !Accepts(controller, cands[1], highNs, lowNs);
      if IsHighSpeedSupported(controller) {
        assert !Accepts(controller, cands[2], highNs, lowNs) && !Accepts(controller, cands[3], highNs, lowNs);
      }
    }
  }

  /** Since the candidates exclude one another, the order of the search does not
      matter: DetectSpeedMode finds d exactly when d is a candidate whose timing accepts
      the pulse pair, and fails exactly when none does. */
  lemma DetectSpeedExact(controller: nat, highNs: real, lowNs: real, d: Detection)
    requires ValidController(controller)
    ensures DetectSpeed(controller, highNs, lowNs) == Some(d) <==>
              (d in Candidates(controller) && Accepts(controller, d, highNs, lowNs))
    ensures DetectSpeed(controller, highNs, lowNs).None? <==>
              (forall e :: e in Candidates(controller) ==> !Accepts(controller, e, highNs, lowNs))
  {
    var cands := Candidates(controller);
    CandidatesExclusive(controller);
    DetectSpeedIsFirstMatch(controller, highNs, lowNs);
    var m := FirstMatch(controller, cands, 0, highNs, lowNs);
    if d in cands && Accepts(controller, d, highNs, lowNs) {
      var j :| 0 <= j < |cands| && cands[j] == d;
      forall i | 0 <= i < |cands| && i != j
        ensures !Accepts(controller, cands[i], highNs, lowNs)
      {
        var a := DataTiming(controller, cands[i].value, cands[i].highSpeed);
        var b := DataTiming(controller, d.value, d.highSpeed);
        assert Disjoint(a.positive, b.positive) || Disjoint(a.negative, b.negative);
      }
    }
  }

  /** The too-short-low test never rejects a low time that a window of the controller
      accepts: the cached minimum lies at or below every negative minimum of every speed
      the controller supports. */
  lemma MinimumLowBelowEveryWindow(controller: nat, value: BitState, highSpeed: bool)
    requires ValidController(controller) && (highSpeed ==> IsHighSpeedSupported(controller))
    ensures MinimumLowDuration(controller) <= DataTiming(controller, value, highSpeed).negative.minimum
  {
    if controller == 0 {} else if controller == 1 {} else if controller == 2 {}
    else if controller == 3 {} else if controller == 4 {} else if controller == 5 {}
    else if controller == 6 {} else if controller == 7 {} else {}
  }

  /** Every nominal negative pulse is shorter than the reset minimum, so ending a reset
      bit's frame at the nominal low time never passes the end of the reset minimum. */
  lemma NominalNegativeBelowReset(controller: nat, value: BitState, highSpeed: bool)
    requires ValidController(controller) && (highSpeed ==> IsHighSpeedSupported(controller))
    ensures DataTiming(controller, value, highSpeed).negative.nominal < ResetTiming(controller).minimum
  {
    if controller == 0 {} else if controller == 1 {} else if controller == 2 {}
    else if controller == 3 {} else if controller == 4 {} else if controller == 5 {}
    else if controller == 6 {} else if controller == 7 {} else {}
  }

  lemma NsToSamplesMonotone(a: nat, b: nat, rateHz: nat)
    requires a <= b
    ensures NsToSamples(a, rateHz) <= NsToSamples(b, rateHz)
  {
    MulLe(a, b, rateHz);
    DivMonotone(a * rateHz, b * rateHz, Second);
  }

  lemma DivMonotone(x: nat, y: nat, m: nat)
    requires x <= y && m > 0
    ensures x / m <= y / m
  {
    DivMod(x, m);
    DivMod(y, m);
    if x / m > y / m {
      MulLe(y / m + 1, x / m, m);
    }
  }

  // ---------------------------------------------------------------------------
  // Properties of one bit

  /** The first sample a bit read from cursor c can start at: the cursor itself when the
      line is high there, the sample after it when the line is low. */
  function Frontier(ch: Channel, c: Cursor): nat
  {
    if Level(ch, c) == Low then c.pos + 1 else c.pos
  }

  /** A cursor past at least one more edge lies beyond the other's frontier. */
  lemma FrontierMonotone(ch: Channel, c: Cursor, d: Cursor)
    requires WellFormed(ch) && CursorValid(ch, c) && CursorValid(ch, d) && d.next > c.next
    ensures Frontier(ch, c) <= d.pos && Frontier(ch, c) <= Frontier(ch, d)
  {
    EdgeOrder(ch, c.next, d.next - 1);
  }

  /** A valid data bit (not a reset) is the high pulse ReadBit measured, from
      beginSample to its falling edge, followed by a low pulse up to the next rising
      edge, at endSample + 1, where the cursor stops; and the timing of its value, in the
      speed mode in force afterwards, accepts both pulses. */
  lemma ReadBitSound(cfg: Config, ch: Channel, s: Session)
    requires SessionOk(cfg, ch, s)
    ensures var st := ReadBit(cfg, ch, s);
            st.Done? && st.value.valid && !st.value.isReset ==>
              && HighPulse(ch, s.cursor).Some?
              && var r, fall := st.value, HighPulse(ch, s.cursor).value.fall;
                 && r.beginSample == HighPulse(ch, s.cursor).value.begin
                 && HasNextEdge(ch, fall) && st.after.cursor == NextEdgeCursor(ch, fall)
                 && r.endSample + 1 == NextEdge(ch, fall) && Level(ch, st.after.cursor) == High
                 && Accepts(cfg.controller, Detection(r.bitValue, st.after.didDetectHighSpeed),
                            SamplesToNs(fall.pos - r.beginSample, cfg.rateHz),
                            SamplesToNs(r.endSample - fall.pos, cfg.rateHz))
  {
    match HighPulse(ch, s.cursor)
    case None =>
    case Some(p) =>
      var highNs := SamplesToNs(p.fall.pos - p.begin, cfg.rateHz);
      var positive := if s.firstBitAfterReset then Some(Low)
                      else ClassifyPositive(cfg.controller, s.didDetectHighSpeed, highNs);
      if positive.Some? {
        LowPulseSound(cfg, ch, s, p.begin, p.fall, positive.value);
      }
  }

  /** ReadBitSound from the falling edge, once the positive pulse gave `value`. */
  lemma LowPulseSound(cfg: Config, ch: Channel, s: Session, begin: nat, fall: Cursor, value: BitState)
    requires SessionOk(cfg, ch, s) && CursorValid(ch, fall) && begin < fall.pos
    requires !s.firstBitAfterReset ==>
               ClassifyPositive(cfg.controller, s.didDetectHighSpeed, SamplesToNs(fall.pos - begin, cfg.rateHz)) == Some(value)
    ensures var st := LowPulse(cfg, ch, s, begin, fall, value);
            st.value.valid && !st.value.isReset ==>
              var r := st.value;
              && HasNextEdge(ch, fall) && st.after.cursor == NextEdgeCursor(ch, fall)
              && r.beginSample == begin && r.endSample + 1 == NextEdge(ch, fall)
              && Accepts(cfg.controller, Detection(r.bitValue, st.after.didDetectHighSpeed),
                         SamplesToNs(fall.pos - begin, cfg.rateHz), SamplesToNs(r.endSample - fall.pos, cfg.rateHz))
  {
    var st := LowPulse(cfg, ch, s, begin, fall, value);
    if st.value.valid && !st.value.isReset {
      assert HasNextEdge(ch, fall) && st == LowPulseEnd(cfg, ch, s, begin, fall, value);
      LowPulseEndSound(cfg, ch, s, begin, fall, value);
    }
  }

  lemma LowPulseEndSound(cfg: Config, ch: Channel, s: Session, begin: nat, fall: Cursor, value: BitState)
    requires SessionOk(cfg, ch, s) && CursorValid(ch, fall) && begin < fall.pos && HasNextEdge(ch, fall)
    requires !s.firstBitAfterReset ==>
               ClassifyPositive(cfg.controller, s.didDetectHighSpeed, SamplesToNs(fall.pos - begin, cfg.rateHz)) == Some(value)
    ensures var st := LowPulseEnd(cfg, ch, s, begin, fall, value);
            st.value.valid ==>
              var r := st.value;
              && r.beginSample == begin && r.endSample + 1 == NextEdge(ch, fall)
              && Accepts(cfg.controller, Detection(r.bitValue, st.after.didDetectHighSpeed),
                         SamplesToNs(fall.pos - begin, cfg.rateHz), SamplesToNs(r.endSample - fall.pos, cfg.rateHz))
  {
  }

  /** The converse of ReadBitSound. Once ReadBit has measured a high pulse whose low pulse
      ends on an edge beyond the minimum low time and within the reset minimum, it
      returns a valid data bit ending the sample before that edge, with the cursor on
      it, whenever the timings accept the pulses: with the speed locked, when the
      positive pulse classifies as v and v's negative window accepts the low time (the
      flags stay as they were); on the first bit after a reset, when DetectSpeedMode
      finds d (the bit has d's value, and d's speed is locked in). */
  lemma ReadBitComplete(cfg: Config, ch: Channel, s: Session, v: BitState, d: Detection)
    requires SessionOk(cfg, ch, s) && HighPulse(ch, s.cursor).Some?
    ensures var p := HighPulse(ch, s.cursor).value;
            var rate, controller := cfg.rateHz, cfg.controller;
            var highNs := SamplesToNs(p.fall.pos - p.begin, rate);
            var st := ReadBit(cfg, ch, s);
            TransitionWithin(ch, p.fall, NsToSamples(ResetTiming(controller).minimum, rate))
            && !TransitionWithin(ch, p.fall, NsToSamples(MinimumLowDuration(controller), rate)) ==>
              var next := NextEdgeCursor(ch, p.fall);
              var lowNs := SamplesToNs(next.pos - 1 - p.fall.pos, rate);
              && (!s.firstBitAfterReset && ClassifyPositive(controller, s.didDetectHighSpeed, highNs) == Some(v)
                  && DataTiming(controller, v, s.didDetectHighSpeed).negative.WithinTolerance(lowNs) ==>
                    st == Done(ReadResult(true, false, v, p.begin, next.pos - 1), s.(cursor := next)))
              && (s.firstBitAfterReset && DetectSpeed(controller, highNs, lowNs) == Some(d) ==>
                    st == Done(ReadResult(true, false, d.value, p.begin, next.pos - 1), Session(next, false, d.highSpeed)))
  {
    var p := HighPulse(ch, s.cursor).value;
    if TransitionWithin(ch, p.fall, NsToSamples(ResetTiming(cfg.controller).minimum, cfg.rateHz))
       && !TransitionWithin(ch, p.fall, NsToSamples(MinimumLowDuration(cfg.controller), cfg.rateHz))
    {
      var highNs := SamplesToNs(p.fall.pos - p.begin, cfg.rateHz);
      var value := if s.firstBitAfterReset then Low else v;
      if s.firstBitAfterReset || ClassifyPositive(cfg.controller, s.didDetectHighSpeed, highNs) == Some(v) {
        assert ReadBit(cfg, ch, s) == LowPulse(cfg, ch, s, p.begin, p.fall, value);
        assert ReadBit(cfg, ch, s) == LowPulseEnd(cfg, ch, s, p.begin, p.fall, value);
      }
    }
  }

  /** The ways ReadBit rejects a bit once it has measured a high pulse, each with the flags
      unchanged: a positive pulse outside both windows of the locked speed leaves the
      cursor on the falling edge; an edge within the minimum low time moves the cursor
      onto that edge; and on the first bit after a reset, a low pulse reaching past the
      reset minimum (a lone bit between resets, whose speed cannot be told) leaves the
      cursor on the falling edge. */
  lemma ReadBitInvalid(cfg: Config, ch: Channel, s: Session)
    requires SessionOk(cfg, ch, s) && HighPulse(ch, s.cursor).Some?
    ensures var p := HighPulse(ch, s.cursor).value;
            var rate, controller := cfg.rateHz, cfg.controller;
            var highNs := SamplesToNs(p.fall.pos - p.begin, rate);
            var st := ReadBit(cfg, ch, s);
            var tooShort := TransitionWithin(ch, p.fall, NsToSamples(MinimumLowDuration(controller), rate));
            && (!s.firstBitAfterReset && ClassifyPositive(controller, s.didDetectHighSpeed, highNs).None? ==>
                  st == Done(Invalid(Low, p.begin, 0), s.(cursor := p.fall)))
            && ((s.firstBitAfterReset || ClassifyPositive(controller, s.didDetectHighSpeed, highNs).Some?) && tooShort ==>
                  st.Done? && !st.value.valid && st.value.beginSample == p.begin
                  && st.after == s.(cursor := NextEdgeCursor(ch, p.fall)))
            && (s.firstBitAfterReset && !tooShort
                && !TransitionWithin(ch, p.fall, NsToSamples(ResetTiming(controller).minimum, rate)) ==>
                  st == Done(Invalid(Low, p.begin, 0), s.(cursor := p.fall)))
  {
  }

  /** How ReadBit moves the two flags. With the speed locked it changes neither. On the
      first bit after a reset it clears mFirstBitAfterReset exactly when the bit is
      valid, and that bit is never a reset; a reset bit is always valid. */
  lemma ReadBitFlags(cfg: Config, ch: Channel, s: Session)
    requires SessionOk(cfg, ch, s)
    ensures var st := ReadBit(cfg, ch, s);
            st.Done? ==>
              && (!s.firstBitAfterReset ==>
                    !st.after.firstBitAfterReset && st.after.didDetectHighSpeed == s.didDetectHighSpeed)
              && (s.firstBitAfterReset ==>
                    (st.after.firstBitAfterReset <==> !st.value.valid) && !st.value.isReset)
              && (st.value.isReset ==> st.value.valid)
  {
  }

  /** A reset bit: its positive pulse classifies as its value in the locked speed, the
      cursor stops the reset minimum (in samples) after the falling edge with the line
      still low, the frame ends the nominal low time of its value after the falling
      edge, and the low gap, measured to the next rising edge if there is one,
      exceeds the reset minimum. */
  lemma ReadBitReset(cfg: Config, ch: Channel, s: Session)
    requires SessionOk(cfg, ch, s)
    ensures var st := ReadBit(cfg, ch, s);
            st.Done? && st.value.isReset ==>
              var r, c, minNs := st.value, st.after.cursor, ResetTiming(cfg.controller).minimum;
              && !s.firstBitAfterReset && c.next >= 1 && Level(ch, c) == Low
              && ch.edges[c.next - 1] > r.beginSample
              && ClassifyPositive(cfg.controller, s.didDetectHighSpeed,
                                  SamplesToNs(ch.edges[c.next - 1] - r.beginSample, cfg.rateHz)) == Some(r.bitValue)
              && c.pos == ch.edges[c.next - 1] + NsToSamples(minNs, cfg.rateHz)
              && r.endSample == ch.edges[c.next - 1]
                   + NsToSamples(DataTiming(cfg.controller, r.bitValue, s.didDetectHighSpeed).negative.nominal, cfg.rateHz)
              && (HasNextEdge(ch, c) ==> SamplesToNs(ch.edges[c.next] - ch.edges[c.next - 1], cfg.rateHz) > minNs as real)
  {
    var st := ReadBit(cfg, ch, s);
    if st.Done? && st.value.isReset {
      var p := HighPulse(ch, s.cursor).value;
      ResetAfterFallingEdge(cfg, ch, s, p.begin, p.fall);
    }
  }

  lemma ResetAfterFallingEdge(cfg: Config, ch: Channel, s: Session, begin: nat, fall: Cursor)
    requires SessionOk(cfg, ch, s) && CursorValid(ch, fall) && begin < fall.pos && fall.next > s.cursor.next
    requires fall.next >= 1 && ch.edges[fall.next - 1] == fall.pos
    ensures var st := BitAfterFallingEdge(cfg, ch, s, begin, fall);
            st.Done? && st.value.isReset ==>
              var r, c, minNs := st.value, st.after.cursor, ResetTiming(cfg.controller).minimum;
              && !s.firstBitAfterReset && c.next == fall.next && Level(ch, c) == Level(ch, fall)
              && r.beginSample == begin
              && ClassifyPositive(cfg.controller, s.didDetectHighSpeed, SamplesToNs(fall.pos - begin, cfg.rateHz)) == Some(r.bitValue)
              && c.pos == fall.pos + NsToSamples(minNs, cfg.rateHz)
              && r.endSample == fall.pos
                   + NsToSamples(DataTiming(cfg.controller, r.bitValue, s.didDetectHighSpeed).negative.nominal, cfg.rateHz)
              && (HasNextEdge(ch, c) ==> SamplesToNs(ch.edges[c.next] - fall.pos, cfg.rateHz) > minNs as real)
  {
    var st := BitAfterFallingEdge(cfg, ch, s, begin, fall);
    if st.Done? && st.value.isReset {
      var minNs := ResetTiming(cfg.controller).minimum;
      var c := st.after.cursor;
      assert c == AdvancedBy(ch, fall, NsToSamples(minNs, cfg.rateHz));
      if HasNextEdge(ch, c) {
        ResetThresholdsAgree(ch.edges[c.next] - fall.pos, minNs, cfg.rateHz);
      }
    }
  }

  /** Bits never overlap: a bit starts at or after the frontier of the cursor it is read
      from, a valid bit ends before the frontier of the cursor it leaves (the -1 on the
      end sample, and the nominal low time of a reset bit, see to that), and frontiers
      only move forward. */
  lemma ReadBitOrdered(cfg: Config, ch: Channel, s: Session)
    requires SessionOk(cfg, ch, s)
    ensures var st := ReadBit(cfg, ch, s);
            st.Done? ==>
              && Frontier(ch, s.cursor) <= st.value.beginSample
              && Frontier(ch, s.cursor) <= Frontier(ch, st.after.cursor)
              && (st.value.valid ==>
                    st.value.beginSample < st.value.endSample < Frontier(ch, st.after.cursor))
  {
    match HighPulse(ch, s.cursor)
    case None =>
    case Some(p) =>
      assert Frontier(ch, s.cursor) <= p.begin;
      BitAfterFallingEdgeOrdered(cfg, ch, s, p.begin, p.fall);
      FrontierMonotone(ch, s.cursor, ReadBit(cfg, ch, s).after.cursor);
  }

  lemma BitAfterFallingEdgeOrdered(cfg: Config, ch: Channel, s: Session, begin: nat, fall: Cursor)
    requires SessionOk(cfg, ch, s) && CursorValid(ch, fall) && begin < fall.pos && fall.next > s.cursor.next
    requires Level(ch, fall) == Low
    ensures var st := BitAfterFallingEdge(cfg, ch, s, begin, fall);
            && st.value.beginSample == begin
            && (st.value.valid ==> begin < st.value.endSample < Frontier(ch, st.after.cursor))
  {
    var highNs := SamplesToNs(fall.pos - begin, cfg.rateHz);
    var positive := if s.firstBitAfterReset then Some(Low)
                    else ClassifyPositive(cfg.controller, s.didDetectHighSpeed, highNs);
    if positive.Some? {
      LowPulseOrdered(cfg, ch, s, begin, fall, positive.value);
    }
  }

  lemma LowPulseOrdered(cfg: Config, ch: Channel, s: Session, begin: nat, fall: Cursor, value: BitState)
    requires SessionOk(cfg, ch, s) && CursorValid(ch, fall) && begin < fall.pos && Level(ch, fall) == Low
    ensures var st := LowPulse(cfg, ch, s, begin, fall, value);
            && st.value.beginSample == begin
            && (st.value.valid ==> begin < st.value.endSample < Frontier(ch, st.after.cursor))
  {
    var st := LowPulse(cfg, ch, s, begin, fall, value);
    if st.value.isReset {
      var minSamples := NsToSamples(ResetTiming(cfg.controller).minimum, cfg.rateHz);
      assert !TransitionWithin(ch, fall, minSamples);
      assert st.after.cursor == AdvancedBy(ch, fall, minSamples);
      NominalNegativeBelowReset(cfg.controller, value, s.didDetectHighSpeed);
      NsToSamplesMonotone(DataTiming(cfg.controller, value, s.didDetectHighSpeed).negative.nominal,
                          ResetTiming(cfg.controller).minimum, cfg.rateHz);
    }
  }

  // ---------------------------------------------------------------------------
  // One colour word

  predicate AllValid(rs: seq<ReadResult>)
  {
    forall i :: 0 <= i < |rs| ==> rs[i].valid
  }

  /** The shape of what ReadBits returns for n bits: at most n results, every one but
      the last valid, and fewer than n only when the last is invalid. */
  predicate WellStopped(rs: seq<ReadResult>, n: nat)
  {
    && |rs| <= n
    && (forall i :: 0 <= i < |rs| - 1 ==> rs[i].valid)
    && (|rs| < n ==> |rs| > 0 && !rs[|rs| - 1].valid)
  }

  /** The bit reads of ReadRGBTriple, without the split into channels: n bits in a row,
      stopping after the first invalid one. */
  function ReadBits(cfg: Config, ch: Channel, s: Session, n: nat): (st: Step<seq<ReadResult>>)
    requires SessionOk(cfg, ch, s)
    ensures st.Done? ==> SessionOk(cfg, ch, st.after)
    ensures st.Done? ==> st.after.cursor.next >= s.cursor.next
    ensures st.Done? && n > 0 ==> st.after.cursor.next > s.cursor.next
    decreases n
  {
    if n == 0 then Done([], s)
    else
      match ReadBit(cfg, ch, s)
      case Stalled => Stalled
      case Done(r, s1) =>
        if !r.valid then Done([r], s1)
        else
          match ReadBits(cfg, ch, s1, n - 1)
          case Stalled => Stalled
          case Done(rs, s2) => Done([r] + rs, s2)
  }

  /** What ReadBits returns has the shape WellStopped states. */
  lemma {:induction false} ReadBitsWellStopped(cfg: Config, ch: Channel, s: Session, n: nat)
    requires SessionOk(cfg, ch, s)
    ensures var st := ReadBits(cfg, ch, s, n); st.Done? ==> WellStopped(st.value, n)
    decreases n
  {
    if n > 0 {
      ReadBitsUnfold(cfg, ch, s, n);
      var bit := ReadBit(cfg, ch, s);
      if bit.Done? && bit.value.valid {
        ReadBitsWellStopped(cfg, ch, bit.after, n - 1);
        var rest := ReadBits(cfg, ch, bit.after, n - 1);
        if rest.Done? {
          WellStoppedCons(bit.value, rest.value, n);
        }
      } else if bit.Done? {
        assert [bit.value][0] == bit.value;
      }
    }
  }

  lemma WellStoppedCons(r: ReadResult, rs: seq<ReadResult>, n: nat)
    requires r.valid && n > 0 && WellStopped(rs, n - 1)
    ensures WellStopped([r] + rs, n)
  {
    assert forall i :: 1 <= i < |rs| + 1 ==> ([r] + rs)[i] == rs[i - 1];
  }

  function BitValues(rs: seq<ReadResult>): (bits: seq<BitState>)
    ensures |bits| == |rs| && forall i :: 0 <= i < |rs| ==> bits[i] == rs[i].bitValue
  {
    seq(|rs|, i requires 0 <= i < |rs| => rs[i].bitValue)
  }

  /** Consecutive runs of `size` bits as channel values, each built most significant
      bit first as DataBuilder does. */
  function ChannelValues(bits: seq<BitState>, count: nat, size: nat): (vs: seq<nat>)
    requires |bits| == count * size
    ensures |vs| == count
    ensures forall i :: 0 <= i < count ==> vs[i] < Pow2(size)
  {
    if count == 0 then []
    else
      assert count * size == (count - 1) * size + size;
      MsbValueBound(bits[..size]);
      [MsbValue(bits[..size])] + ChannelValues(bits[size..], count - 1, size)
  }

  /** The U16 channels array; every channel value of a catalogue controller fits. */
  function AsU16(vs: seq<nat>): (r: seq<u16>)
    requires forall i :: 0 <= i < |vs| ==> vs[i] < 0x1_0000
    ensures |r| == |vs| && forall i :: 0 <= i < |vs| ==> r[i] as int == vs[i]
  {
    seq(|vs|, i requires 0 <= i < |vs| => vs[i] as u16)
  }

  /** The bits of a read, without its trailing invalid bit if it has one. */
  function ValidPrefix(rs: seq<ReadResult>): seq<ReadResult>
  {
    if |rs| > 0 && !rs[|rs| - 1].valid then rs[..|rs| - 1] else rs
  }

  /** RGBResult with the defaults of its declaration (invalid, zero colour, samples 0). */
  datatype RGBResult = RGBResult(valid: bool, isReset: bool, rgb: RGBValue, beginSample: nat, endSample: nat)

  /** How ReadRGBTriple assembles its result from the bits it read: the begin sample of
      the first valid bit, the end sample and reset flag of the last valid one, and the
      colour only when every bit of every channel was valid. */
  function TripleOf(controller: nat, rs: seq<ReadResult>): RGBResult
    requires ValidController(controller)
  {
    var good := ValidPrefix(rs);
    if |good| == WordBits(controller) then Unfinished(good).(valid := true, rgb := WordColour(controller, good))
    else Unfinished(good)
  }

  /** The result of ReadRGBTriple while its bits are read: still invalid and black, with
      the samples and reset flag of the valid bits `good` read so far. */
  function Unfinished(good: seq<ReadResult>): RGBResult
  {
    var begin := if |good| > 0 then good[0].beginSample else 0;
    var end := if |good| > 0 then good[|good| - 1].endSample else 0;
    var isReset := |good| > 0 && good[|good| - 1].isReset;
    RGBResult(false, isReset, RGBValue(0, 0, 0, 0), begin, end)
  }

  /** The colour of a word: its channels in the controller's wire order when every bit
      was read, black otherwise. */
  function WordColour(controller: nat, good: seq<ReadResult>): RGBValue
    requires ValidController(controller)
  {
    var size, count := BitSize(controller), LedChannelCount(controller);
    if |good| == count * size then
      Pow2BitSize(controller);
      var channels := AsU16(ChannelValues(BitValues(good), count, size));
      CreateFromControllerOrder(GetColorLayout(controller), channels)
    else RGBValue(0, 0, 0, 0)
  }

  function WordBits(controller: nat): (n: nat)
    requires ValidController(controller)
    ensures n >= 24
  {
    var size, count := BitSize(controller), LedChannelCount(controller);
    MulLe(8, size, count);
    MulLe(3, count, 8);
    size * count
  }

  /** ReadRGBTriple. */
  function ReadRgbTriple(cfg: Config, ch: Channel, s: Session): (st: Step<RGBResult>)
    requires SessionOk(cfg, ch, s)
    ensures st.Done? ==> SessionOk(cfg, ch, st.after) && st.after.cursor.next > s.cursor.next
  {
    match ReadBits(cfg, ch, s, WordBits(cfg.controller))
    case Stalled => Stalled
    case Done(rs, s1) => Done(TripleOf(cfg.controller, rs), s1)
  }

  // ---------------------------------------------------------------------------
  // Synchronisation

  /** Synced: a reset found, as the start of its low gap and the cursor on the rising
      edge that ends it. */
  datatype SyncResult = SyncStalled | Synced(lowStart: nat, at: Cursor)

  /** The loop of SynchronizeToReset, from a cursor where the line is low: measure the
      low gap up to the next edge; if it exceeds the reset minimum, stop on that rising
      edge, otherwise go on from the falling edge after it. */
  function FindReset(cfg: Config, ch: Channel, c: Cursor): (r: SyncResult)
    requires ConfigOk(cfg) && WellFormed(ch) && CursorValid(ch, c) && Level(ch, c) == Low
    ensures r.Synced? ==> CursorValid(ch, r.at) && r.at.next > c.next && c.pos <= r.lowStart
    decreases Remaining(ch, c)
  {
    if !HasNextEdge(ch, c) then SyncStalled
    else
      // AdvanceToAbsPosition(GetSampleOfNextEdge()) lands on the next edge
      var at := NextEdgeCursor(ch, c);
      if SamplesToNs(at.pos - c.pos, cfg.rateHz) > ResetTiming(cfg.controller).minimum as real then
        Synced(c.pos, at)
      else if !HasNextEdge(ch, at) then SyncStalled
      else FindReset(cfg, ch, NextEdgeCursor(ch, at))
  }

  /** A low gap no longer than the reset minimum: the search goes on from the falling
      edge after it. A proof step, one unfolding of FindReset, for FindResetFindsReset,
      FindResetFirst and SynchronizeToReset's loop. */
  lemma FindResetSkip(cfg: Config, ch: Channel, c: Cursor)
    requires ConfigOk(cfg) && WellFormed(ch) && CursorValid(ch, c) && Level(ch, c) == Low && HasNextEdge(ch, c)
    requires !(SamplesToNs(NextEdge(ch, c) - c.pos, cfg.rateHz) > ResetTiming(cfg.controller).minimum as real)
    requires HasNextEdge(ch, NextEdgeCursor(ch, c))
    ensures FindReset(cfg, ch, c) == FindReset(cfg, ch, NextEdgeCursor(ch, NextEdgeCursor(ch, c)))
  {
  }

  /** What SynchronizeToReset finds is a reset: a low gap, free of edges, from lowStart
      to the rising edge the cursor stops on, longer than the reset minimum. */
  lemma {:induction false} FindResetFindsReset(cfg: Config, ch: Channel, c: Cursor)
    requires ConfigOk(cfg) && WellFormed(ch) && CursorValid(ch, c) && Level(ch, c) == Low
    ensures var r := FindReset(cfg, ch, c);
            r.Synced? ==>
              && Level(ch, r.at) == High && r.at.next >= 1 && r.at.pos == ch.edges[r.at.next - 1]
              && r.lowStart < r.at.pos
              && (r.at.next >= 2 ==> ch.edges[r.at.next - 2] <= r.lowStart)
              && SamplesToNs(r.at.pos - r.lowStart, cfg.rateHz) > ResetTiming(cfg.controller).minimum as real
    decreases Remaining(ch, c)
  {
    if HasNextEdge(ch, c) {
      var at := NextEdgeCursor(ch, c);
      if SamplesToNs(at.pos - c.pos, cfg.rateHz) > ResetTiming(cfg.controller).minimum as real {
        assert FindReset(cfg, ch, c) == Synced(c.pos, at);
      } else if HasNextEdge(ch, at) {
        FindResetSkip(cfg, ch, c);
        FindResetFindsReset(cfg, ch, NextEdgeCursor(ch, at));
      }
    }
  }

  /** The cursor AdvanceToNextEdge leaves on edge k. */
  function FallCursor(ch: Channel, k: nat): (r: Cursor)
    requires WellFormed(ch) && k < |ch.edges|
    ensures CursorValid(ch, r) && r.next == k + 1 && r.pos == ch.edges[k]
  {
    EdgeOrder(ch, k, k + 1);
    Cursor(ch.edges[k], k + 1)
  }

  /** The gap from cursor c up to the next edge is no longer than the reset minimum. */
  predicate ShortLowFrom(cfg: Config, ch: Channel, c: Cursor)
    requires ConfigOk(cfg) && CursorValid(ch, c) && HasNextEdge(ch, c)
  {
    !(SamplesToNs(NextEdge(ch, c) - c.pos, cfg.rateHz) > ResetTiming(cfg.controller).minimum as real)
  }

  /** The low gap after edge k, when k is a falling edge and another edge follows, is no
      longer than the reset minimum. */
  predicate ShortGapAt(cfg: Config, ch: Channel, k: nat)
    requires ConfigOk(cfg) && WellFormed(ch) && k < |ch.edges|
  {
    var f := FallCursor(ch, k);
    Level(ch, f) == Low && HasNextEdge(ch, f) ==> ShortLowFrom(cfg, ch, f)
  }

  /** Every low gap that begins at cursor c (when the line is low there) or on a falling
      edge after it, before sample `limit`, and that ends on an edge, is no longer than
      the reset minimum. */
  predicate ShortGapsBefore(cfg: Config, ch: Channel, c: Cursor, limit: nat)
    requires ConfigOk(cfg) && WellFormed(ch) && CursorValid(ch, c)
  {
    && (Level(ch, c) == Low && HasNextEdge(ch, c) && c.pos < limit ==> ShortLowFrom(cfg, ch, c))
    && forall k :: c.next <= k < |ch.edges| && ch.edges[k] < limit ==> ShortGapAt(cfg, ch, k)
  }

  /** ShortGapsBefore with no limit: no low gap from c on that ends on an edge is a reset. */
  predicate ShortGapsAll(cfg: Config, ch: Channel, c: Cursor)
    requires ConfigOk(cfg) && WellFormed(ch) && CursorValid(ch, c)
  {
    && (Level(ch, c) == Low && HasNextEdge(ch, c) ==> ShortLowFrom(cfg, ch, c))
    && forall k :: c.next <= k < |ch.edges| ==> ShortGapAt(cfg, ch, k)
  }

  /** The loop stops on the FIRST reset: every low gap it skipped is no longer than the
      reset minimum, and when it stalls, no low gap left in the capture is longer. */
  lemma {:induction false} FindResetFirst(cfg: Config, ch: Channel, c: Cursor)
    requires ConfigOk(cfg) && WellFormed(ch) && CursorValid(ch, c) && Level(ch, c) == Low
    ensures var r := FindReset(cfg, ch, c);
            && (r.Synced? ==> ShortGapsBefore(cfg, ch, c, r.lowStart))
            && (r.SyncStalled? ==> ShortGapsAll(cfg, ch, c))
    decreases Remaining(ch, c)
  {
    if HasNextEdge(ch, c) {
      var at := NextEdgeCursor(ch, c);
      if !ShortLowFrom(cfg, ch, c) {
        NothingBefore(cfg, ch, c);
      } else if !HasNextEdge(ch, at) {
        ShortGapsStep(cfg, ch, c, 0);
      } else {
        var c2 := NextEdgeCursor(ch, at);
        FindResetSkip(cfg, ch, c);
        FindResetFirst(cfg, ch, c2);
        match FindReset(cfg, ch, c2)
        case Synced(lowStart, _) => ShortGapsStep(cfg, ch, c, lowStart);
        case SyncStalled => ShortGapsStep(cfg, ch, c, 0);
      }
    }
  }

  /** No edge lies before the position of a cursor from its next edge on. */
  lemma NothingBefore(cfg: Config, ch: Channel, c: Cursor)
    requires ConfigOk(cfg) && WellFormed(ch) && CursorValid(ch, c)
    ensures ShortGapsBefore(cfg, ch, c, c.pos)
  {
    forall k | c.next <= k < |ch.edges|
      ensures ch.edges[k] >= c.pos
    {
      EdgeOrder(ch, c.next, k);
    }
  }

  /** Skipping a short low gap and the high pulse after it: what holds from the falling
      edge that follows also holds from c. */
  lemma ShortGapsStep(cfg: Config, ch: Channel, c: Cursor, limit: nat)
    requires ConfigOk(cfg) && WellFormed(ch) && CursorValid(ch, c) && Level(ch, c) == Low
    requires HasNextEdge(ch, c) && ShortLowFrom(cfg, ch, c)
    ensures var at := NextEdgeCursor(ch, c);
            && (!HasNextEdge(ch, at) ==> ShortGapsAll(cfg, ch, c))
            && (HasNextEdge(ch, at) && ShortGapsBefore(cfg, ch, NextEdgeCursor(ch, at), limit) ==>
                  ShortGapsBefore(cfg, ch, c, limit))
            && (HasNextEdge(ch, at) && ShortGapsAll(cfg, ch, NextEdgeCursor(ch, at)) ==> ShortGapsAll(cfg, ch, c))
  {
    var at := NextEdgeCursor(ch, c);
    assert ShortGapAt(cfg, ch, c.next) by {
      assert Level(ch, FallCursor(ch, c.next)) == High;
    }
    if HasNextEdge(ch, at) {
      var c2 := NextEdgeCursor(ch, at);
      assert c2 == FallCursor(ch, c.next + 1);
      if ShortGapsBefore(cfg, ch, c2, limit) {
        forall k | c.next <= k < |ch.edges| && ch.edges[k] < limit
          ensures ShortGapAt(cfg, ch, k)
        {
          if k == c.next + 1 {
            assert c2.pos < limit;
          } else if k > c.next + 1 {
            assert c2.next <= k;
          }
        }
      }
      if ShortGapsAll(cfg, ch, c2) {
        forall k | c.next <= k < |ch.edges|
          ensures ShortGapAt(cfg, ch, k)
        {
          if k > c.next + 1 {
            assert c2.next <= k;
          }
        }
      }
    } else {
      forall k | c.next <= k < |ch.edges|
        ensures ShortGapAt(cfg, ch, k)
      {
        assert k == c.next;
      }
    }
  }

  /** SynchronizeToReset: off a high level first, then the loop. */
  function Synchronize(cfg: Config, ch: Channel, c: Cursor): (r: SyncResult)
    requires ConfigOk(cfg) && WellFormed(ch) && CursorValid(ch, c)
    ensures r.Synced? ==> CursorValid(ch, r.at) && r.at.next > c.next && c.pos <= r.lowStart
  {
    if Level(ch, c) == High then
      if !HasNextEdge(ch, c) then SyncStalled else FindReset(cfg, ch, NextEdgeCursor(ch, c))
    else FindReset(cfg, ch, c)
  }

  /** SynchronizeToReset from a high level first goes onto the falling edge and searches
      from there; from a low level it searches from where it is. One unfolding of
      Synchronize, stated beside it. */
  lemma SynchronizeSteps(cfg: Config, ch: Channel, c: Cursor)
    requires ConfigOk(cfg) && WellFormed(ch) && CursorValid(ch, c)
    ensures Level(ch, c) == Low ==> Synchronize(cfg, ch, c) == FindReset(cfg, ch, c)
    ensures Level(ch, c) == High && HasNextEdge(ch, c) ==>
              Synchronize(cfg, ch, c) == FindReset(cfg, ch, NextEdgeCursor(ch, c))
    ensures Level(ch, c) == High && !HasNextEdge(ch, c) ==> Synchronize(cfg, ch, c) == SyncStalled
  {
  }

  /** SynchronizeToReset finds the first reset from c on: a low gap, free of edges, from
      lowStart (the falling edge, or c itself when the line is low there) to the rising
      edge the cursor stops on, longer than the reset minimum, with every earlier low gap
      no longer than it; from a high level the gap starts no earlier than the falling
      edge. When it stalls, no low gap from c on that ends on an edge is a reset. */
  lemma SynchronizeFirstReset(cfg: Config, ch: Channel, c: Cursor)
    requires ConfigOk(cfg) && WellFormed(ch) && CursorValid(ch, c)
    ensures var r := Synchronize(cfg, ch, c);
            && (r.Synced? ==>
                  && Level(ch, r.at) == High && r.at.next >= 1 && r.at.pos == ch.edges[r.at.next - 1]
                  && r.lowStart < r.at.pos
                  && (r.at.next >= 2 ==> ch.edges[r.at.next - 2] <= r.lowStart)
                  && SamplesToNs(r.at.pos - r.lowStart, cfg.rateHz) > ResetTiming(cfg.controller).minimum as real
                  && (Level(ch, c) == High ==> HasNextEdge(ch, c) && NextEdge(ch, c) <= r.lowStart)
                  && ShortGapsBefore(cfg, ch, c, r.lowStart))
            && (r.SyncStalled? ==> ShortGapsAll(cfg, ch, c))
  {
    if Level(ch, c) == Low {
      FindResetFindsReset(cfg, ch, c);
      FindResetFirst(cfg, ch, c);
    } else if HasNextEdge(ch, c) {
      var c1 := NextEdgeCursor(ch, c);
      FindResetFindsReset(cfg, ch, c1);
      FindResetFirst(cfg, ch, c1);
      match FindReset(cfg, ch, c1)
      case Synced(lowStart, _) => HighStartStep(cfg, ch, c, lowStart);
      case SyncStalled => HighStartStep(cfg, ch, c, 0);
    }
  }

  /** Going off a high level onto the falling edge skips no low gap. */
  lemma HighStartStep(cfg: Config, ch: Channel, c: Cursor, limit: nat)
    requires ConfigOk(cfg) && WellFormed(ch) && CursorValid(ch, c) && Level(ch, c) == High && HasNextEdge(ch, c)
    ensures ShortGapsBefore(cfg, ch, NextEdgeCursor(ch, c), limit) ==> ShortGapsBefore(cfg, ch, c, limit)
    ensures ShortGapsAll(cfg, ch, NextEdgeCursor(ch, c)) ==> ShortGapsAll(cfg, ch, c)
  {
    var c1 := NextEdgeCursor(ch, c);
    assert c1 == FallCursor(ch, c.next);
    if ShortGapsBefore(cfg, ch, c1, limit) {
      forall k | c.next <= k < |ch.edges| && ch.edges[k] < limit
        ensures ShortGapAt(cfg, ch, k)
      {
        if k == c.next {
          assert c1.pos < limit;
        } else {
          assert c1.next <= k;
        }
      }
    }
    if ShortGapsAll(cfg, ch, c1) {
      forall k | c.next <= k < |ch.edges|
        ensures ShortGapAt(cfg, ch, k)
      {
        if k > c.next {
          assert c1.next <= k;
        }
      }
    }
  }

  // ---------------------------------------------------------------------------
  // A whole capture

  /** What WorkerThread records: CommitPacketAndStartNewPacket, and AddFrame with the
      colour packed by ConvertToU64 in mData1 and the frame's index in its packet in
      mData2. */
  datatype Event = PacketStart | Frame(startSample: nat, endSample: nat, data1: u64, data2: nat)

  /** The outer loop of WorkerThread from cursor c: resynchronise if needed, then one
      packet. */
  function Run(cfg: Config, ch: Channel, c: Cursor, highSpeed: bool, resync: bool): seq<Event>
    requires ConfigOk(cfg) && WellFormed(ch) && CursorValid(ch, c)
    requires highSpeed ==> IsHighSpeedSupported(cfg.controller)
    decreases Remaining(ch, c), 2
  {
    if resync then
      match Synchronize(cfg, ch, c)
      case SyncStalled => []
      case Synced(_, at) => Packet(cfg, ch, at, highSpeed)
    else Packet(cfg, ch, c, highSpeed)
  }

  /** One packet: a new packet, then colour words with the speed to be detected again. */
  function Packet(cfg: Config, ch: Channel, c: Cursor, highSpeed: bool): seq<Event>
    requires ConfigOk(cfg) && WellFormed(ch) && CursorValid(ch, c)
    requires highSpeed ==> IsHighSpeedSupported(cfg.controller)
    decreases Remaining(ch, c), 1
  {
    [PacketStart] + Words(cfg, ch, Session(c, true, highSpeed), 0)
  }

  /** The data word loop: a valid word is a frame with the next index; an invalid one
      forces a resynchronisation, and a word ending in a reset ends the packet. */
  function Words(cfg: Config, ch: Channel, s: Session, index: nat): seq<Event>
    requires SessionOk(cfg, ch, s)
    decreases Remaining(ch, s.cursor), 0
  {
    match ReadRgbTriple(cfg, ch, s)
    case Stalled => []
    case Done(t, s1) =>
      if !t.valid then Run(cfg, ch, s1.cursor, s1.didDetectHighSpeed, true)
      else
        [Frame(t.beginSample, t.endSample, ConvertToU64(t.rgb), index)]
          + (if t.isReset then Run(cfg, ch, s1.cursor, s1.didDetectHighSpeed, false)
             else Words(cfg, ch, s1, index + 1))
  }

  /** WorkerThread over a whole capture: synchronise first, with the speed undetected. */
  function Decode(cfg: Config, ch: Channel): seq<Event>
    requires ConfigOk(cfg) && WellFormed(ch)
  {
    Run(cfg, ch, Start(ch), false, true)
  }

  /** The outcome of SynchronizeToReset from c, as Run consumes it: nothing when it stalls,
      otherwise the packet from the rising edge it stops on, past at least one edge. A
      proof step, one unfolding of Run, for WorkerThread. */
  lemma RunSynced(cfg: Config, ch: Channel, c: Cursor, highSpeed: bool, stalled: bool, at: Cursor)
    requires ConfigOk(cfg) && WellFormed(ch) && CursorValid(ch, c)
    requires highSpeed ==> IsHighSpeedSupported(cfg.controller)
    requires var r := Synchronize(cfg, ch, c); (stalled <==> r.SyncStalled?) && (!stalled ==> at == r.at)
    ensures stalled ==> Run(cfg, ch, c, highSpeed, true) == []
    ensures !stalled ==> && CursorValid(ch, at) && Remaining(ch, at) < Remaining(ch, c)
                         && Run(cfg, ch, c, highSpeed, true) == Packet(cfg, ch, at, highSpeed)
  {
  }

  /** A packet: its start, then the words from a session just after a reset. A proof
      step, one unfolding of Packet, for ReadPacket. */
  lemma PacketWords(cfg: Config, ch: Channel, c: Cursor, highSpeed: bool)
    requires ConfigOk(cfg) && WellFormed(ch) && CursorValid(ch, c)
    requires highSpeed ==> IsHighSpeedSupported(cfg.controller)
    ensures Packet(cfg, ch, c, highSpeed) == [PacketStart] + Words(cfg, ch, Session(c, true, highSpeed), 0)
  {
  }

  /** The words of a packet after one ReadRGBTriple from s, which stalled or gave `result`
      in session `after`: nothing after a stall; a resynchronisation after an invalid
      word; otherwise the word's frame, then a new packet after a reset or the next word.
      A proof step, one unfolding of Words, for ReadWord. */
  lemma WordsStep(cfg: Config, ch: Channel, s: Session, index: nat, stalled: bool, result: RGBResult, after: Session)
    requires SessionOk(cfg, ch, s) && TripleRead(cfg, ch, s, stalled, result, after)
    ensures stalled ==> Words(cfg, ch, s, index) == []
    ensures !stalled ==> SessionOk(cfg, ch, after) && Remaining(ch, after.cursor) < Remaining(ch, s.cursor)
    ensures !stalled && !result.valid ==>
              Words(cfg, ch, s, index) == Run(cfg, ch, after.cursor, after.didDetectHighSpeed, true)
    ensures !stalled && result.valid ==>
              Words(cfg, ch, s, index)
                == [Frame(result.beginSample, result.endSample, ConvertToU64(result.rgb), index)]
                   + (if result.isReset then Run(cfg, ch, after.cursor, after.didDetectHighSpeed, false)
                      else Words(cfg, ch, after, index + 1))
  {
  }

  // ---------------------------------------------------------------------------
  // Properties of words

  /** A read result put in front of the results of a read of further bits. */
  function Prepend(r: ReadResult, st: Step<seq<ReadResult>>): Step<seq<ReadResult>>
  {
    match st
    case Stalled => Stalled
    case Done(rs, s2) => Done([r] + rs, s2)
  }

  /** Results already read put in front of the results of a read of further bits. */
  function AppendTo(prefix: seq<ReadResult>, st: Step<seq<ReadResult>>): Step<seq<ReadResult>>
  {
    match st
    case Stalled => Stalled
    case Done(rs, s2) => Done(prefix + rs, s2)
  }

  lemma AppendToPrepend(prefix: seq<ReadResult>, r: ReadResult, st: Step<seq<ReadResult>>)
    ensures AppendTo(prefix, Prepend(r, st)) == AppendTo(prefix + [r], st)
  {
    match st
    case Stalled =>
    case Done(rs, s2) => assert prefix + ([r] + rs) == (prefix + [r]) + rs;
  }

  /** One unfolding of ReadBits: a stalled bit stalls the read, an invalid one ends it,
      a valid one goes in front of the rest. */
  lemma ReadBitsUnfold(cfg: Config, ch: Channel, s: Session, n: nat)
    requires SessionOk(cfg, ch, s) && n > 0
    ensures var bit := ReadBit(cfg, ch, s);
            ReadBits(cfg, ch, s, n) ==
              if bit.Stalled? then Stalled
              else if !bit.value.valid then Done([bit.value], bit.after)
              else Prepend(bit.value, ReadBits(cfg, ch, bit.after, n - 1))
  {
  }

  lemma ValidPrefixCons(r: ReadResult, rs: seq<ReadResult>)
    requires r.valid
    ensures ValidPrefix([r] + rs) == [r] + ValidPrefix(rs)
  {
    if |rs| > 0 && !rs[|rs| - 1].valid {
      assert ([r] + rs)[..|rs|] == [r] + rs[..|rs| - 1];
    }
  }

  /** The valid bits of a read lie between lo and hi: the first begins at or after lo,
      the last ends before hi. */
  predicate SpanWithin(rs: seq<ReadResult>, lo: nat, hi: nat)
  {
    var good := ValidPrefix(rs);
    |good| > 0 ==> lo <= good[0].beginSample < good[|good| - 1].endSample < hi
  }

  /** A valid bit between lo and mid in front of a read whose valid bits lie between mid
      and hi. */
  lemma SpanCons(r: ReadResult, rest: seq<ReadResult>, lo: nat, mid: nat, hi: nat)
    requires r.valid && lo <= r.beginSample < r.endSample < mid <= hi && SpanWithin(rest, mid, hi)
    ensures SpanWithin([r] + rest, lo, hi)
  {
    ValidPrefixCons(r, rest);
    var tail := ValidPrefix(rest);
    var good := [r] + tail;
    assert good[0] == r;
    if |tail| > 0 {
      assert good[|good| - 1] == tail[|tail| - 1];
    }
  }

  /** The valid bits of a read lie in order between the frontier of the cursor it
      started from and that of the cursor it leaves. */
  lemma {:induction false} ReadBitsOrdered(cfg: Config, ch: Channel, s: Session, n: nat)
    requires SessionOk(cfg, ch, s)
    ensures var st := ReadBits(cfg, ch, s, n);
            st.Done? ==>
              && Frontier(ch, s.cursor) <= Frontier(ch, st.after.cursor)
              && SpanWithin(st.value, Frontier(ch, s.cursor), Frontier(ch, st.after.cursor))
    decreases n
  {
    if n > 0 {
      ReadBitOrdered(cfg, ch, s);
      ReadBitsUnfold(cfg, ch, s, n);
      var bit := ReadBit(cfg, ch, s);
      if bit.Done? {
        var r, s1 := bit.value, bit.after;
        if !r.valid {
          assert ValidPrefix([r]) == [];
        } else {
          ReadBitsOrdered(cfg, ch, s1, n - 1);
          var rest := ReadBits(cfg, ch, s1, n - 1);
          if rest.Done? {
            SpanCons(r, rest.value, Frontier(ch, s.cursor), Frontier(ch, s1.cursor), Frontier(ch, rest.after.cursor));
          }
        }
      }
    }
  }

  /** A word lies between the frontiers of the cursors it is read from and leaves
      (WorkerThread's frames therefore never overlap). */
  lemma ReadRgbTripleOrdered(cfg: Config, ch: Channel, s: Session)
    requires SessionOk(cfg, ch, s)
    ensures var st := ReadRgbTriple(cfg, ch, s);
            st.Done? ==>
              && Frontier(ch, s.cursor) <= Frontier(ch, st.after.cursor)
              && (st.value.valid ==>
                    Frontier(ch, s.cursor) <= st.value.beginSample < st.value.endSample < Frontier(ch, st.after.cursor))
  {
    ReadBitsOrdered(cfg, ch, s, WordBits(cfg.controller));
    var bits := ReadBits(cfg, ch, s, WordBits(cfg.controller));
    if bits.Done? {
      assert ReadRgbTriple(cfg, ch, s) == Done(TripleOf(cfg.controller, bits.value), bits.after);
      TripleSpan(cfg.controller, bits.value, Frontier(ch, s.cursor), Frontier(ch, bits.after.cursor));
    }
  }

  /** A valid word spans its valid bits: it begins where the first begins and ends
      where the last ends. */
  lemma TripleSpan(controller: nat, rs: seq<ReadResult>, lo: nat, hi: nat)
    requires ValidController(controller) && SpanWithin(rs, lo, hi)
    ensures var t := TripleOf(controller, rs);
            t.valid ==> lo <= t.beginSample < t.endSample < hi
  {
    var good := ValidPrefix(rs);
    assert TripleOf(controller, rs).valid == (|good| == WordBits(controller));
  }

  /** A valid word has every channel within the controller's bit size, and no padding. */
  lemma TripleBounded(controller: nat, rs: seq<ReadResult>)
    requires ValidController(controller)
    ensures var t := TripleOf(controller, rs);
            t.valid ==>
              && (t.rgb.red as int) < Pow2(BitSize(controller)) && (t.rgb.green as int) < Pow2(BitSize(controller))
              && (t.rgb.blue as int) < Pow2(BitSize(controller)) && t.rgb.padding == 0
  {
    var good := ValidPrefix(rs);
    if |good| == WordBits(controller) {
      WordColourBounded(controller, good);
    }
  }

  lemma WordColourBounded(controller: nat, good: seq<ReadResult>)
    requires ValidController(controller) && |good| == WordBits(controller)
    ensures var c, p := WordColour(controller, good), Pow2(BitSize(controller));
            (c.red as int) < p && (c.green as int) < p && (c.blue as int) < p && c.padding == 0
  {
    var size, count := BitSize(controller), LedChannelCount(controller);
    Pow2BitSize(controller);
    var vs := ChannelValues(BitValues(good), count, size);
    var channels := AsU16(vs);
    assert (channels[0] as int) < Pow2(size) && (channels[1] as int) < Pow2(size) && (channels[2] as int) < Pow2(size);
  }

  /** A valid word's colour is made of the bits read, channel by channel in wire order:
      channel i of the controller's wire order is the value of bits i*size to
      (i+1)*size - 1, most significant first. */
  lemma TripleChannels(controller: nat, rs: seq<ReadResult>)
    requires ValidController(controller) && WellStopped(rs, WordBits(controller))
    ensures var t := TripleOf(controller, rs);
            var size := BitSize(controller);
            t.valid ==>
              && |rs| == WordBits(controller) && AllValid(rs)
              && ControllerOrder(GetColorLayout(controller), t.rgb)
                   == AsU16Prefix3(ChannelValues(BitValues(rs), LedChannelCount(controller), size))
  {
    TripleValidIsFull(controller, rs);
    if TripleOf(controller, rs).valid {
      TripleColour(controller, rs);
    }
  }

  /** Only a read of every bit of the word, all valid, makes a valid word. */
  lemma TripleValidIsFull(controller: nat, rs: seq<ReadResult>)
    requires ValidController(controller) && WellStopped(rs, WordBits(controller))
    ensures TripleOf(controller, rs).valid ==> ValidPrefix(rs) == rs && |rs| == WordBits(controller) && AllValid(rs)
  {
    var good := ValidPrefix(rs);
    assert TripleOf(controller, rs).valid == (|good| == WordBits(controller));
    if |rs| > 0 && !rs[|rs| - 1].valid {
      assert |good| == |rs| - 1;
    }
  }

  lemma TripleColour(controller: nat, rs: seq<ReadResult>)
    requires ValidController(controller) && |rs| == WordBits(controller) && ValidPrefix(rs) == rs
    ensures ControllerOrder(GetColorLayout(controller), TripleOf(controller, rs).rgb)
              == AsU16Prefix3(ChannelValues(BitValues(rs), LedChannelCount(controller), BitSize(controller)))
  {
    Pow2BitSize(controller);
    var vs := ChannelValues(BitValues(rs), LedChannelCount(controller), BitSize(controller));
    CreateFromControllerOrderRoundTrip(GetColorLayout(controller), AsU16(vs));
  }

  // ReadRGBTriple reads its word one ReadBit at a time. A trace lists those reads, each
  // with the session it leaves, so that the method can follow ReadBits read by read.
  // What a trace is does not depend on how a bit is read, so it is defined, and its
  // properties proved, for any function `read` from a session to the next read.

  /** ReadBit as a function value. Sessions ReadBit does not accept never arise; they
      are mapped to a stall. */
  function BitReader(cfg: Config, ch: Channel): Session -> Step<ReadResult>
  {
    s => if SessionOk(cfg, ch, s) then ReadBit(cfg, ch, s) else Stalled
  }

  /** ReadBits for any way `read` of reading one bit. */
  function BitsOf(read: Session -> Step<ReadResult>, s: Session, n: nat): Step<seq<ReadResult>>
    decreases n
  {
    if n == 0 then Done([], s)
    else
      match read(s)
      case Stalled => Stalled
      case Done(r, s1) => if !r.valid then Done([r], s1) else Prepend(r, BitsOf(read, s1, n - 1))
  }

  /** ReadBits is BitsOf with ReadBit. */
  lemma {:induction false} ReadBitsIsBitsOf(cfg: Config, ch: Channel, s: Session, n: nat)
    requires SessionOk(cfg, ch, s)
    ensures ReadBits(cfg, ch, s, n) == BitsOf(BitReader(cfg, ch), s, n)
    decreases n
  {
    if n > 0 {
      var bit := ReadBit(cfg, ch, s);
      assert BitReader(cfg, ch)(s) == bit;
      if bit.Done? && bit.value.valid {
        ReadBitsIsBitsOf(cfg, ch, bit.after, n - 1);
      }
    }
  }

  /** The single reads BitsOf makes from s for n bits: up to n calls of `read`,
      stopping after a stalled read or an invalid bit. */
  function Trace(read: Session -> Step<ReadResult>, s: Session, n: nat): (t: seq<Step<ReadResult>>)
    ensures |t| <= n && (n > 0 ==> |t| > 0)
    decreases n
  {
    if n == 0 then []
    else
      var bit := read(s);
      if bit.Done? && bit.value.valid then [bit] + Trace(read, bit.after, n - 1) else [bit]
  }

  /** The session read j of a trace from s starts from: the one the read before left. */
  function Before(s: Session, t: seq<Step<ReadResult>>, j: nat): Session
    requires j <= |t|
  {
    if j > 0 && t[j - 1].Done? then t[j - 1].after else s
  }

  /** The reads of a trace begin with the bits rs, none of them stalled. */
  predicate Matches(t: seq<Step<ReadResult>>, rs: seq<ReadResult>)
  {
    |rs| <= |t| && forall k :: 0 <= k < |rs| ==> t[k].Done? && t[k].value == rs[k]
  }

  /** Read j of a trace is `read` from the session the reads before it left, each of
      which read a valid bit; a valid bit is followed by a further read while fewer than
      n were made. */
  lemma {:induction false} TraceAt(read: Session -> Step<ReadResult>, s: Session, n: nat, j: nat)
    requires j < |Trace(read, s, n)|
    ensures var t := Trace(read, s, n);
            && (j > 0 ==> t[j - 1].Done? && t[j - 1].value.valid)
            && t[j] == read(Before(s, t, j))
            && (t[j].Done? && t[j].value.valid && j + 1 < n ==> j + 1 < |t|)
            && (j + 1 < |t| ==> t[j].Done? && t[j].value.valid)
    decreases j
  {
    if j > 0 {
      var t := Trace(read, s, n);
      var bit := read(s);
      var t' := Trace(read, bit.after, n - 1);
      assert t == [bit] + t';
      TraceAt(read, bit.after, n - 1, j - 1);
      assert t[j] == t'[j - 1];
      assert Before(s, t, j) == Before(bit.after, t', j - 1);
    }
  }

  /** Read j of t is `read` from the session the reads before it left, and the trace
      goes on after it exactly when it read a valid bit and fewer than n reads were made. */
  predicate TraceStep(read: Session -> Step<ReadResult>, s0: Session, n: nat, t: seq<Step<ReadResult>>, j: nat)
    requires j < |t|
  {
    && t[j] == read(Before(s0, t, j))
    && (j + 1 < |t| <==> t[j].Done? && t[j].value.valid && j + 1 < n)
  }

  /** t is the trace of n reads from s0, stated read by read: IsTrace and Trace agree
      (TraceIsTrace, TraceUnique). */
  predicate IsTrace(read: Session -> Step<ReadResult>, s0: Session, n: nat, t: seq<Step<ReadResult>>)
  {
    && |t| <= n && (n > 0 ==> |t| > 0)
    && forall j :: 0 <= j < |t| ==> TraceStep(read, s0, n, t, j)
  }

  lemma TraceIsTrace(read: Session -> Step<ReadResult>, s0: Session, n: nat)
    ensures IsTrace(read, s0, n, Trace(read, s0, n))
  {
    var t := Trace(read, s0, n);
    forall j | 0 <= j < |t|
      ensures TraceStep(read, s0, n, t, j)
    {
      TraceAt(read, s0, n, j);
    }
  }

  /** Some trace of n reads from s0. */
  lemma SomeTrace(read: Session -> Step<ReadResult>, s0: Session, n: nat) returns (t: seq<Step<ReadResult>>)
    ensures IsTrace(read, s0, n, t)
  {
    t := Trace(read, s0, n);
    TraceIsTrace(read, s0, n);
  }

  /** A trace stated read by read is the trace. */
  lemma {:induction false} TraceUnique(read: Session -> Step<ReadResult>, s0: Session, n: nat,
                                       t: seq<Step<ReadResult>>)
    requires IsTrace(read, s0, n, t)
    ensures t == Trace(read, s0, n)
    decreases n
  {
    if n > 0 {
      assert TraceStep(read, s0, n, t, 0);
      var bit := t[0];
      if |t| > 1 {
        var t', m := t[1..], n - 1;
        forall j | 0 <= j < |t'|
          ensures TraceStep(read, bit.after, m, t', j)
        {
          assert TraceStep(read, s0, n, t, j + 1) && TraceStep(read, s0, n, t, j);
          assert t'[j] == t[j + 1];
          if j > 0 {
            assert t'[j - 1] == t[j];
          }
          assert Before(bit.after, t', j) == Before(s0, t, j + 1);
        }
        TraceUnique(read, bit.after, m, t');
        assert t == [bit] + t';
      }
    }
  }

  /** A stalled read stalls BitsOf. */
  lemma {:induction false} TraceStalled(read: Session -> Step<ReadResult>, s: Session, n: nat, j: nat)
    requires j < |Trace(read, s, n)| && Trace(read, s, n)[j].Stalled?
    ensures BitsOf(read, s, n) == Stalled
    decreases j
  {
    if j > 0 {
      var bit := read(s);
      var t' := Trace(read, bit.after, n - 1);
      assert Trace(read, s, n)[j] == t'[j - 1];
      TraceStalled(read, bit.after, n - 1, j - 1);
    }
  }

  /** When no read of a trace stalled, BitsOf returns the bits of the trace and the
      session its last read left. */
  lemma {:induction false} TraceDone(read: Session -> Step<ReadResult>, s: Session, n: nat, rs: seq<ReadResult>)
    requires var t := Trace(read, s, n); Matches(t, rs) && |rs| == |t|
    ensures BitsOf(read, s, n) == Done(rs, Before(s, Trace(read, s, n), |rs|))
    decreases n
  {
    var t := Trace(read, s, n);
    if n > 0 {
      var bit := read(s);
      assert t[0] == bit;
      if bit.value.valid {
        var t' := Trace(read, bit.after, n - 1);
        assert t == [bit] + t';
        var rs' := rs[1..];
        assert Matches(t', rs') by {
          forall k | 0 <= k < |rs'|
            ensures t'[k].Done? && t'[k].value == rs'[k]
          {
            assert t'[k] == t[k + 1] && rs'[k] == rs[k + 1];
          }
        }
        TraceDone(read, bit.after, n - 1, rs');
        assert rs == [bit.value] + rs';
        if |rs'| == 0 {
          assert Before(s, t, |rs|) == bit.after;
        } else {
          assert Before(s, t, |rs|) == Before(bit.after, t', |rs'|);
        }
      } else {
        assert rs == [bit.value];
      }
    }
  }

  /** The reads of a trace from read `base` on are the bits rs, none of them stalled. */
  predicate MatchesAt(t: seq<Step<ReadResult>>, base: nat, rs: seq<ReadResult>)
  {
    base + |rs| <= |t| && forall k :: 0 <= k < |rs| ==> t[base + k].Done? && t[base + k].value == rs[k]
  }

  /** A further read of the trace that read the bit r extends the bits it holds. */
  lemma MatchesAtSnoc(t: seq<Step<ReadResult>>, base: nat, bits: seq<ReadResult>, r: ReadResult)
    requires MatchesAt(t, base, bits) && base + |bits| < |t|
    requires t[base + |bits|].Done? && t[base + |bits|].value == r
    ensures MatchesAt(t, base, bits + [r])
  {
    forall k | 0 <= k < |bits + [r]|
      ensures t[base + k].Done? && t[base + k].value == (bits + [r])[k]
    {
      if k < |bits| {
        assert (bits + [r])[k] == bits[k];
      } else {
        assert (bits + [r])[k] == r;
      }
    }
  }

  lemma MatchesAppend(t: seq<Step<ReadResult>>, read: seq<ReadResult>, bits: seq<ReadResult>)
    requires Matches(t, read) && MatchesAt(t, |read|, bits)
    ensures Matches(t, read + bits)
  {
    forall k | 0 <= k < |read + bits|
      ensures t[k].Done? && t[k].value == (read + bits)[k]
    {
      if k >= |read| {
        var k' := k - |read|;
        assert (read + bits)[k] == bits[k'];
        assert t[|read| + k'].Done? && t[|read| + k'].value == bits[k'];
      } else {
        assert t[k].Done? && t[k].value == read[k];
      }
    }
  }

  /** What the reads of one channel have given so far: the bits `bits`, read from read
      `base` of the word's trace t on, all valid and none stalled; a further read made
      while fewer than n were; the channel value built from them; and the word's result
      grown by them from `u`, its value before the channel. */
  predicate ChannelSoFar(t: seq<Step<ReadResult>>, base: nat, n: nat, bits: seq<ReadResult>, value: nat,
                         result: RGBResult, u: RGBResult, first: bool)
  {
    && AllValid(bits) && MatchesAt(t, base, bits) && (base + |bits| < n ==> base + |bits| < |t|)
    && value == MsbValue(BitValues(bits)) && result == WithBits(u, first, bits)
  }

  /** The outcome of read j of a word's trace t of at most n reads: stalled, or the bit
      r; a valid bit before the n-th leaves a read to come, an invalid one ends the
      trace. */
  predicate BitRead(t: seq<Step<ReadResult>>, j: nat, n: nat, stalled: bool, r: ReadResult)
  {
    && j < |t| && (stalled <==> t[j].Stalled?)
    && (!stalled ==> t[j].value == r && (r.valid && j + 1 < n ==> j + 1 < |t|) && (!r.valid ==> j + 1 == |t|))
  }

  /** The outcome of reading a channel of bitSize bits from read `base` of the word's
      trace t: stalled at the read after the bits `bits`; or not stalled, the bits being
      reads of t and the word's result grown from `u` by the valid ones; complete, with
      bitSize valid bits and the channel value built from them; or cut short by an
      invalid bit, which ends the trace. */
  predicate ChannelRead(t: seq<Step<ReadResult>>, base: nat, n: nat, bitSize: nat, u: RGBResult, first: bool,
                        stalled: bool, complete: bool, value: nat, result: RGBResult, bits: seq<ReadResult>)
  {
    && (stalled ==> base + |bits| < |t| && t[base + |bits|].Stalled?)
    && (!stalled ==> MatchesAt(t, base, bits) && result == WithBits(u, first, ValidPrefix(bits)))
    && (!stalled && complete ==>
          && |bits| == bitSize && AllValid(bits) && value == MsbValue(BitValues(bits))
          && (base + bitSize < n ==> base + bitSize < |t|))
    && (!stalled && !complete ==> base + |bits| == |t| && |ValidPrefix(bits)| < bitSize)
  }

  /** A stalled read stalls the channel. */
  lemma ChannelBitStalled(t: seq<Step<ReadResult>>, base: nat, n: nat, bitSize: nat, bits: seq<ReadResult>,
                          value: nat, result: RGBResult, u: RGBResult, first: bool, r: ReadResult)
    requires ChannelSoFar(t, base, n, bits, value, result, u, first) && BitRead(t, base + |bits|, n, true, r)
    ensures ChannelRead(t, base, n, bitSize, u, first, true, false, value, result, bits)
  {
  }

  /** An invalid bit ends the trace and the channel; the result keeps the valid bits. */
  lemma ChannelBitInvalid(t: seq<Step<ReadResult>>, base: nat, n: nat, bitSize: nat, bits: seq<ReadResult>,
                          value: nat, result: RGBResult, u: RGBResult, first: bool, r: ReadResult)
    requires ChannelSoFar(t, base, n, bits, value, result, u, first) && |bits| < bitSize
    requires BitRead(t, base + |bits|, n, false, r) && !r.valid
    ensures ChannelRead(t, base, n, bitSize, u, first, false, false, value, result, bits + [r])
    ensures |bits + [r]| == |bits| + 1
  {
    MatchesAtSnoc(t, base, bits, r);
    InvalidBitEnds(bits, r);
  }

  /** A channel read in full: its bits are all valid, so the result has them all. */
  lemma ChannelComplete(t: seq<Step<ReadResult>>, base: nat, n: nat, bitSize: nat, bits: seq<ReadResult>,
                        value: nat, result: RGBResult, u: RGBResult, first: bool)
    requires ChannelSoFar(t, base, n, bits, value, result, u, first) && |bits| == bitSize
    ensures ChannelRead(t, base, n, bitSize, u, first, false, true, value, result, bits)
  {
    AllValidPrefix(bits);
  }

  /** The values `cs` of the first `channel` channels of the word, whose bits are `read`,
      in wire order. */
  predicate ChannelsSoFar(controller: nat, cs: seq<u16>, read: seq<ReadResult>, channel: nat)
    requires ValidController(controller)
  {
    && |read| == channel * BitSize(controller) && channel <= |cs|
    && forall k :: 0 <= k < channel ==>
         cs[k] as int == ChannelValues(BitValues(read), channel, BitSize(controller))[k]
  }

  /** What the channels read so far have given: `channel` channels of bits `read`, all
      valid and none stalled, a further read made on all but the last channel, and the
      word's result with their samples. */
  predicate WordSoFar(controller: nat, t: seq<Step<ReadResult>>, read: seq<ReadResult>, channel: nat, result: RGBResult)
    requires ValidController(controller)
  {
    && |read| == channel * BitSize(controller) && AllValid(read) && Matches(t, read)
    && (channel < LedChannelCount(controller) ==> |read| < |t|) && result == Unfinished(read)
  }

  /** A product with the bit size, which is positive, is 0 only for 0 channels. */
  lemma NoBitsNoChannels(controller: nat, channel: nat)
    requires ValidController(controller)
    ensures channel * BitSize(controller) == 0 <==> channel == 0
  {
    if channel > 0 {
      MulLe(1, channel, BitSize(controller));
    }
  }

  /** Another channel fits in the word. */
  lemma WordRoom(controller: nat, read: seq<ReadResult>, channel: nat)
    requires ValidController(controller) && |read| == channel * BitSize(controller)
    requires channel < LedChannelCount(controller)
    ensures |read| + BitSize(controller) <= WordBits(controller)
  {
    MulLe(channel + 1, LedChannelCount(controller), BitSize(controller));
  }

  /** A channel read in full extends the word read so far. */
  lemma WordChannelAdded(controller: nat, t: seq<Step<ReadResult>>, read: seq<ReadResult>, channel: nat,
                         u: RGBResult, bits: seq<ReadResult>, next: RGBResult)
    requires ValidController(controller) && WordSoFar(controller, t, read, channel, u)
    requires channel < LedChannelCount(controller)
    requires MatchesAt(t, |read|, bits) && |bits| == BitSize(controller) && AllValid(bits)
    requires |read| + |bits| < WordBits(controller) ==> |read| + |bits| < |t|
    requires next == WithBits(u, channel == 0, ValidPrefix(bits))
    ensures WordSoFar(controller, t, read + bits, channel + 1, next)
  {
    var size, count := BitSize(controller), LedChannelCount(controller);
    assert |read + bits| == (channel + 1) * size;
    MatchesAppend(t, read, bits);
    if channel + 1 < count {
      MulLe(channel + 2, count, size);
    }
    AllValidPrefix(bits);
    NoBitsNoChannels(controller, channel);
    UnfinishedAppend(read, bits);
    assert AllValid(read + bits) by {
      forall k | 0 <= k < |read + bits|
        ensures (read + bits)[k].valid
      {
        if k >= |read| {
          assert (read + bits)[k] == bits[k - |read|];
        }
      }
    }
  }

  /** Session s is the one read j of the trace t starts from: t is the trace of the
      reads of a word of n bits with ReadBit (rd) from s0, of which j are made. */
  ghost predicate AtRead(cfg: Config, ch: Channel, rd: Session -> Step<ReadResult>, s0: Session, n: nat,
                   t: seq<Step<ReadResult>>, j: nat, s: Session)
  {
    && rd == BitReader(cfg, ch) && SessionOk(cfg, ch, s0) && IsTrace(rd, s0, n, t)
    && j <= |t| && s == Before(s0, t, j)
  }

  /** ReadRGBTriple between channels: `channel` channels read, their bits `read` and
      their values in `cs`, the word's result `result`, in session s. */
  ghost predicate WordLoop(cfg: Config, ch: Channel, rd: Session -> Step<ReadResult>, s0: Session,
                     t: seq<Step<ReadResult>>, read: seq<ReadResult>, channel: nat, result: RGBResult,
                     cs: seq<u16>, s: Session)
  {
    && ConfigOk(cfg) && AtRead(cfg, ch, rd, s0, WordBits(cfg.controller), t, |read|, s)
    && channel <= LedChannelCount(cfg.controller) && WordSoFar(cfg.controller, t, read, channel, result)
    && |cs| == LedChannelCount(cfg.controller) && ChannelsSoFar(cfg.controller, cs, read, channel)
  }

  /** ReadRGBTriple before its first channel: nothing read, the result default. */
  lemma WordStart(cfg: Config, ch: Channel, rd: Session -> Step<ReadResult>, s0: Session,
                  t: seq<Step<ReadResult>>, cs: seq<u16>)
    requires rd == BitReader(cfg, ch) && SessionOk(cfg, ch, s0) && IsTrace(rd, s0, WordBits(cfg.controller), t)
    requires |cs| == LedChannelCount(cfg.controller)
    ensures WordLoop(cfg, ch, rd, s0, t, [], 0, RGBResult(false, false, RGBValue(0, 0, 0, 0), 0, 0), cs, s0)
  {
    assert Matches(t, []);
  }

  /** Before a further channel, a read of the trace is to come, and the channel's bits
      fit in the word. */
  lemma WordNext(cfg: Config, ch: Channel, rd: Session -> Step<ReadResult>, s0: Session,
                 t: seq<Step<ReadResult>>, read: seq<ReadResult>, channel: nat, result: RGBResult,
                 cs: seq<u16>, s: Session)
    requires WordLoop(cfg, ch, rd, s0, t, read, channel, result, cs, s)
    requires channel < LedChannelCount(cfg.controller)
    ensures AtRead(cfg, ch, rd, s0, WordBits(cfg.controller), t, |read|, s) && |read| < |t|
    ensures |read| + BitSize(cfg.controller) <= WordBits(cfg.controller)
  {
    WordRoom(cfg.controller, read, channel);
  }

  /** One channel of ReadRGBTriple read, in the loop state of WordLoop: a stalled or
      cut-short channel settles ReadRgbTriple, which ends with `next` in the session
      `after`; a complete one adds its bits, and its value at index `channel`. */
  lemma WordChannelStep(cfg: Config, ch: Channel, rd: Session -> Step<ReadResult>, s0: Session,
                        t: seq<Step<ReadResult>>, read: seq<ReadResult>, channel: nat, u: RGBResult,
                        cs: seq<u16>, s: Session, stalled: bool, complete: bool, value: nat,
                        next: RGBResult, bits: seq<ReadResult>, after: Session)
    requires WordLoop(cfg, ch, rd, s0, t, read, channel, u, cs, s) && channel < LedChannelCount(cfg.controller)
    requires ChannelRead(t, |read|, WordBits(cfg.controller), BitSize(cfg.controller), u, channel == 0,
                         stalled, complete, value, next, bits)
    requires !stalled ==> AtRead(cfg, ch, rd, s0, WordBits(cfg.controller), t, |read| + |bits|, after)
    ensures stalled || !complete ==> TripleRead(cfg, ch, s0, stalled, next, after)
    ensures !stalled && complete ==>
              && value < 0x1_0000
              && WordLoop(cfg, ch, rd, s0, t, read + bits, channel + 1, next, cs[channel := value as u16], after)
  {
    var controller := cfg.controller;
    if stalled {
      TripleStalls(cfg, ch, s0, t, |read| + |bits|, next, after);
    } else if !complete {
      TriplePartial(cfg, ch, s0, t, read, channel, u, bits, next, after);
    } else {
      WordRoom(controller, read, channel);
      WordChannelAdded(controller, t, read, channel, u, bits, next);
      ChannelsAdded(controller, cs, read, channel, value, bits);
    }
  }

  /** A channel's value stored at its index extends the values of the channels before. */
  lemma ChannelsAdded(controller: nat, cs: seq<u16>, read: seq<ReadResult>, channel: nat, value: nat,
                      bits: seq<ReadResult>)
    requires ValidController(controller) && ChannelsSoFar(controller, cs, read, channel) && channel < |cs|
    requires |bits| == BitSize(controller) && value == MsbValue(BitValues(bits))
    ensures value < 0x1_0000 && |read + bits| == |read| + |bits|
    ensures ChannelsSoFar(controller, cs[channel := value as u16], read + bits, channel + 1)
  {
    var size := BitSize(controller);
    Pow2BitSize(controller);
    MsbValueBound(BitValues(bits));
    BitValuesAppend(read, bits);
    ChannelValuesSnoc(BitValues(read), BitValues(bits), channel, size);
    var cs' := cs[channel := value as u16];
    forall k | 0 <= k < channel + 1
      ensures cs'[k] as int == ChannelValues(BitValues(read + bits), channel + 1, size)[k]
    {
      if k < channel {
        assert cs'[k] == cs[k];
      }
    }
  }

  /** ReadRgbTriple is TripleOf the reads BitsOf makes with ReadBit. */
  lemma WordOfBits(cfg: Config, ch: Channel, s0: Session)
    requires SessionOk(cfg, ch, s0)
    ensures ReadRgbTriple(cfg, ch, s0) ==
              match BitsOf(BitReader(cfg, ch), s0, WordBits(cfg.controller))
              case Stalled => Stalled
              case Done(rs, s1) => Done(TripleOf(cfg.controller, rs), s1)
  {
    ReadBitsIsBitsOf(cfg, ch, s0, WordBits(cfg.controller));
  }

  /** A stalled read of the trace stalls the word. */
  lemma WordStalled(controller: nat, read: Session -> Step<ReadResult>, s0: Session, t: seq<Step<ReadResult>>, j: nat)
    requires ValidController(controller) && t == Trace(read, s0, WordBits(controller))
    requires j < |t| && t[j].Stalled?
    ensures BitsOf(read, s0, WordBits(controller)) == Stalled
  {
    TraceStalled(read, s0, WordBits(controller), j);
  }

  /** A channel cut short by an invalid bit ends the word, invalid, with the samples of
      the valid bits. */
  lemma WordPartial(controller: nat, read: Session -> Step<ReadResult>, s0: Session, t: seq<Step<ReadResult>>,
                    words: seq<ReadResult>, channel: nat, u: RGBResult, bits: seq<ReadResult>, next: RGBResult)
    requires ValidController(controller) && t == Trace(read, s0, WordBits(controller))
    requires WordSoFar(controller, t, words, channel, u) && channel < LedChannelCount(controller)
    requires MatchesAt(t, |words|, bits) && |words| + |bits| == |t|
    requires |ValidPrefix(bits)| < BitSize(controller)
    requires next == WithBits(u, channel == 0, ValidPrefix(bits))
    ensures BitsOf(read, s0, WordBits(controller)) == Done(words + bits, Before(s0, t, |words + bits|))
    ensures TripleOf(controller, words + bits) == next
  {
    WordRoom(controller, words, channel);
    MatchesAppend(t, words, bits);
    TraceDone(read, s0, WordBits(controller), words + bits);
    TripleOfPartial(controller, words, bits);
    NoBitsNoChannels(controller, channel);
    UnfinishedAppend(words, ValidPrefix(bits));
  }

  /** Every channel read in full: the word is valid, with the colour of its channels. */
  lemma WordFull(controller: nat, read: Session -> Step<ReadResult>, s0: Session, t: seq<Step<ReadResult>>,
                 words: seq<ReadResult>, u: RGBResult)
    requires ValidController(controller) && t == Trace(read, s0, WordBits(controller))
    requires WordSoFar(controller, t, words, LedChannelCount(controller), u)
    ensures |words| == WordBits(controller)
    ensures BitsOf(read, s0, WordBits(controller)) == Done(words, Before(s0, t, |words|))
    ensures TripleOf(controller, words) == u.(valid := true, rgb := WordColour(controller, words))
  {
    assert |words| == WordBits(controller);
    TraceDone(read, s0, WordBits(controller), words);
    TripleOfFull(controller, words);
  }

  /** The outcome of ReadRGBTriple from session s0: stalled, or the word's result and the
      session after it. */
  predicate TripleRead(cfg: Config, ch: Channel, s0: Session, stalled: bool, result: RGBResult, after: Session)
    requires SessionOk(cfg, ch, s0)
  {
    var st := ReadRgbTriple(cfg, ch, s0);
    (stalled <==> st.Stalled?) && (!stalled ==> result == st.value && after == st.after)
  }

  /** A stalled read j of the word's trace stalls ReadRGBTriple. */
  lemma TripleStalls(cfg: Config, ch: Channel, s0: Session, t: seq<Step<ReadResult>>, j: nat,
                     result: RGBResult, after: Session)
    requires SessionOk(cfg, ch, s0) && IsTrace(BitReader(cfg, ch), s0, WordBits(cfg.controller), t)
    requires j < |t| && t[j].Stalled?
    ensures TripleRead(cfg, ch, s0, true, result, after)
  {
    TraceUnique(BitReader(cfg, ch), s0, WordBits(cfg.controller), t);
    WordStalled(cfg.controller, BitReader(cfg, ch), s0, t, j);
    WordOfBits(cfg, ch, s0);
  }

  /** A channel cut short by an invalid bit: ReadRGBTriple gives the invalid word `next`,
      the session after its last read. */
  lemma TriplePartial(cfg: Config, ch: Channel, s0: Session, t: seq<Step<ReadResult>>, words: seq<ReadResult>,
                      channel: nat, u: RGBResult, bits: seq<ReadResult>, next: RGBResult, after: Session)
    requires SessionOk(cfg, ch, s0) && IsTrace(BitReader(cfg, ch), s0, WordBits(cfg.controller), t)
    requires WordSoFar(cfg.controller, t, words, channel, u) && channel < LedChannelCount(cfg.controller)
    requires MatchesAt(t, |words|, bits) && |words| + |bits| == |t|
    requires |ValidPrefix(bits)| < BitSize(cfg.controller)
    requires next == WithBits(u, channel == 0, ValidPrefix(bits))
    requires after == Before(s0, t, |words| + |bits|)
    ensures TripleRead(cfg, ch, s0, false, next, after)
  {
    TraceUnique(BitReader(cfg, ch), s0, WordBits(cfg.controller), t);
    WordPartial(cfg.controller, BitReader(cfg, ch), s0, t, words, channel, u, bits, next);
    WordOfBits(cfg, ch, s0);
  }

  /** Every channel read in full, the values `cs` of the channels in wire order:
      ReadRGBTriple gives the valid word with their colour. */
  lemma TripleFull(cfg: Config, ch: Channel, rd: Session -> Step<ReadResult>, s0: Session,
                   t: seq<Step<ReadResult>>, words: seq<ReadResult>, channel: nat, u: RGBResult,
                   cs: seq<u16>, after: Session)
    requires WordLoop(cfg, ch, rd, s0, t, words, channel, u, cs, after)
    requires channel >= LedChannelCount(cfg.controller)
    ensures TripleRead(cfg, ch, s0, false,
                       u.(rgb := CreateFromControllerOrder(GetColorLayout(cfg.controller), cs), valid := true), after)
  {
    var controller := cfg.controller;
    TraceUnique(BitReader(cfg, ch), s0, WordBits(controller), t);
    WordFull(controller, BitReader(cfg, ch), s0, t, words, u);
    WordOfBits(cfg, ch, s0);
    ChannelsAsU16(controller, cs, words);
  }

  /** The values of all channels, each below 2^16, are their u16 values. */
  lemma ChannelsAsU16(controller: nat, cs: seq<u16>, words: seq<ReadResult>)
    requires ValidController(controller) && |cs| == LedChannelCount(controller)
    requires ChannelsSoFar(controller, cs, words, |cs|)
    ensures cs == AsU16(ChannelValues(BitValues(words), |cs|, BitSize(controller)))
  {
    Pow2BitSize(controller);
  }

  lemma BitValuesAppend(a: seq<ReadResult>, b: seq<ReadResult>)
    ensures BitValues(a + b) == BitValues(a) + BitValues(b)
  {
    assert forall i :: 0 <= i < |a + b| ==> BitValues(a + b)[i] == (BitValues(a) + BitValues(b))[i];
  }

  /** One more channel of `size` bits adds its value at the end of the channel values. */
  lemma {:induction false} ChannelValuesSnoc(bits: seq<BitState>, more: seq<BitState>, count: nat, size: nat)
    requires |bits| == count * size && |more| == size
    ensures |bits + more| == (count + 1) * size
    ensures ChannelValues(bits + more, count + 1, size) == ChannelValues(bits, count, size) + [MsbValue(more)]
    decreases count
  {
    assert (count + 1) * size == count * size + size;
    if count == 0 {
      assert bits + more == more && more[..size] == more && more[size..] == [];
    } else {
      assert count * size == (count - 1) * size + size;
      assert (bits + more)[..size] == bits[..size];
      assert (bits + more)[size..] == bits[size..] + more;
      ChannelValuesSnoc(bits[size..], more, count - 1, size);
    }
  }

  /** After valid bits only, the valid bits of a read are those bits and the valid bits
      of the rest. */
  lemma ValidPrefixAppend(a: seq<ReadResult>, b: seq<ReadResult>)
    requires AllValid(a)
    ensures ValidPrefix(a + b) == a + ValidPrefix(b)
  {
    if |b| > 0 && !b[|b| - 1].valid {
      assert (a + b)[..|a + b| - 1] == a + b[..|b| - 1];
    } else if |b| == 0 {
      assert a + b == a;
    }
  }

  /** The result of ReadRGBTriple once the valid bits `bits` of a channel are added to
      `u`, the result before them: the begin sample of the first when they open the word
      (`first`), the end sample and reset flag of the last. */
  function WithBits(u: RGBResult, first: bool, bits: seq<ReadResult>): RGBResult
  {
    if |bits| == 0 then u
    else u.(beginSample := if first then bits[0].beginSample else u.beginSample,
            endSample := bits[|bits| - 1].endSample, isReset := bits[|bits| - 1].isReset)
  }

  /** The unfinished result of a word grows channel by channel. */
  lemma UnfinishedAppend(read: seq<ReadResult>, bits: seq<ReadResult>)
    ensures Unfinished(read + bits) == WithBits(Unfinished(read), |read| == 0, bits)
  {
    if |read| > 0 {
      assert (read + bits)[0] == read[0];
    }
    if |bits| > 0 {
      assert (read + bits)[|read + bits| - 1] == bits[|bits| - 1];
    } else {
      assert read + bits == read;
    }
  }

  /** What a valid bit adds to a channel being read: it stays all valid, the result so far
      takes the bit's samples, and the channel value takes the bit as its lowest. */
  lemma ChannelBitAdded(u: RGBResult, first: bool, bits: seq<ReadResult>, r: ReadResult)
    requires r.valid && AllValid(bits)
    ensures AllValid(bits + [r])
    ensures var w := WithBits(u, first, bits);
            WithBits(u, first, bits + [r]) ==
              w.(beginSample := if first && |bits| == 0 then r.beginSample else w.beginSample,
                 endSample := r.endSample, isReset := r.isReset)
    ensures MsbValue(BitValues(bits + [r])) == 2 * MsbValue(BitValues(bits)) + BitOf(r.bitValue)
  {
    assert (bits + [r])[0] == if |bits| == 0 then r else bits[0];
    BitValuesAppend(bits, [r]);
    MsbValueSnoc(BitValues(bits), r.bitValue);
  }

  lemma AllValidPrefix(rs: seq<ReadResult>)
    requires AllValid(rs)
    ensures ValidPrefix(rs) == rs
  {
    if |rs| > 0 {
      assert rs[|rs| - 1].valid;
    }
  }

  /** A word some of whose bits were not read validly is the unfinished result of the
      valid ones. */
  lemma TripleOfPartial(controller: nat, read: seq<ReadResult>, bits: seq<ReadResult>)
    requires ValidController(controller) && AllValid(read)
    requires |read| + |ValidPrefix(bits)| < WordBits(controller)
    ensures TripleOf(controller, read + bits) == Unfinished(read + ValidPrefix(bits))
  {
    ValidPrefixAppend(read, bits);
  }

  /** A word all of whose bits were read validly has the colour of its channel values. */
  lemma TripleOfFull(controller: nat, rs: seq<ReadResult>)
    requires ValidController(controller) && AllValid(rs) && |rs| == WordBits(controller)
    ensures TripleOf(controller, rs) == Unfinished(rs).(valid := true, rgb := WordColour(controller, rs))
  {
    AllValidPrefix(rs);
  }

  /** An invalid bit ends a read: the valid bits are those before it. */
  lemma InvalidBitEnds(bits: seq<ReadResult>, r: ReadResult)
    requires !r.valid
    ensures ValidPrefix(bits + [r]) == bits
  {
    assert (bits + [r])[..|bits|] == bits;
  }

  /** The first three channel values as U16s. */
  function AsU16Prefix3(vs: seq<nat>): seq<u16>
    requires |vs| >= 3 && forall i :: 0 <= i < |vs| ==> vs[i] < 0x1_0000
  {
    [vs[0] as u16, vs[1] as u16, vs[2] as u16]
  }

  // ---------------------------------------------------------------------------
  // Properties of a whole capture

  /** Frame indices count up from 0 within each packet. */
  predicate IndexedFrom(evs: seq<Event>, k: nat)
    decreases |evs|
  {
    || evs == []
    || (evs[0].PacketStart? && IndexedFrom(evs[1..], 0))
    || (evs[0].Frame? && evs[0].data2 == k && IndexedFrom(evs[1..], k + 1))
  }

  /** The record starts with a packet (or is empty) and its frames are indexed from 0
      in each packet. */
  predicate WellIndexed(evs: seq<Event>)
  {
    evs == [] || (evs[0].PacketStart? && IndexedFrom(evs[1..], 0))
  }

  /** Every frame starts no earlier than b. */
  predicate FramesFrom(evs: seq<Event>, b: nat)
  {
    forall i :: 0 <= i < |evs| && evs[i].Frame? ==> b <= evs[i].startSample
  }

  /** Every frame spans at least two samples, and each ends before the next one starts. */
  predicate FramesOrdered(evs: seq<Event>)
  {
    && (forall i :: 0 <= i < |evs| && evs[i].Frame? ==> evs[i].startSample < evs[i].endSample)
    && (forall i, j :: 0 <= i < j < |evs| && evs[i].Frame? && evs[j].Frame? ==> evs[i].endSample < evs[j].startSample)
  }

  /** Every frame's colour unpacks to channels within the controller's bit size. */
  predicate FramesBounded(controller: nat, evs: seq<Event>)
    requires ValidController(controller)
  {
    forall i :: 0 <= i < |evs| && evs[i].Frame? ==>
      var v := CreateFromU64(evs[i].data1);
      && (v.red as int) < Pow2(BitSize(controller)) && (v.green as int) < Pow2(BitSize(controller))
      && (v.blue as int) < Pow2(BitSize(controller)) && v.padding == 0
  }

  lemma ConsFrame(f: Event, rest: seq<Event>, b: nat, m: nat)
    requires f.Frame? && b <= f.startSample < f.endSample < m
    requires FramesOrdered(rest) && FramesFrom(rest, m)
    ensures FramesOrdered([f] + rest) && FramesFrom([f] + rest, b)
  {
    assert forall i :: 1 <= i < |rest| + 1 ==> ([f] + rest)[i] == rest[i - 1];
  }

  lemma ConsPacketStart(rest: seq<Event>, b: nat)
    requires FramesOrdered(rest) && FramesFrom(rest, b)
    ensures FramesOrdered([PacketStart] + rest) && FramesFrom([PacketStart] + rest, b)
  {
    assert forall i :: 1 <= i < |rest| + 1 ==> ([PacketStart] + rest)[i] == rest[i - 1];
  }

  lemma WeakerFrom(evs: seq<Event>, b: nat, b2: nat)
    requires FramesFrom(evs, b2) && b <= b2
    ensures FramesFrom(evs, b)
  {
  }

  /** Frames never overlap: each ends before the next begins, across words, packets and
      resynchronisations, and none starts before the frontier the run starts from. */
  lemma {:induction false} RunOrdered(cfg: Config, ch: Channel, c: Cursor, highSpeed: bool, resync: bool)
    requires ConfigOk(cfg) && WellFormed(ch) && CursorValid(ch, c)
    requires highSpeed ==> IsHighSpeedSupported(cfg.controller)
    ensures var evs := Run(cfg, ch, c, highSpeed, resync);
            FramesOrdered(evs) && FramesFrom(evs, Frontier(ch, c))
    decreases Remaining(ch, c), 2
  {
    if resync {
      match Synchronize(cfg, ch, c)
      case SyncStalled =>
      case Synced(_, at) =>
        FrontierMonotone(ch, c, at);
        PacketOrdered(cfg, ch, at, highSpeed);
        WeakerFrom(Packet(cfg, ch, at, highSpeed), Frontier(ch, c), Frontier(ch, at));
    } else {
      PacketOrdered(cfg, ch, c, highSpeed);
    }
  }

  lemma {:induction false} PacketOrdered(cfg: Config, ch: Channel, c: Cursor, highSpeed: bool)
    requires ConfigOk(cfg) && WellFormed(ch) && CursorValid(ch, c)
    requires highSpeed ==> IsHighSpeedSupported(cfg.controller)
    ensures var evs := Packet(cfg, ch, c, highSpeed);
            FramesOrdered(evs) && FramesFrom(evs, Frontier(ch, c))
    decreases Remaining(ch, c), 1
  {
    WordsOrdered(cfg, ch, Session(c, true, highSpeed), 0);
    ConsPacketStart(Words(cfg, ch, Session(c, true, highSpeed), 0), Frontier(ch, c));
  }

  lemma {:induction false} WordsOrdered(cfg: Config, ch: Channel, s: Session, index: nat)
    requires SessionOk(cfg, ch, s)
    ensures var evs := Words(cfg, ch, s, index);
            FramesOrdered(evs) && FramesFrom(evs, Frontier(ch, s.cursor))
    decreases Remaining(ch, s.cursor), 0
  {
    ReadRgbTripleOrdered(cfg, ch, s);
    match ReadRgbTriple(cfg, ch, s)
    case Stalled =>
    case Done(t, s1) =>
      var b, b1 := Frontier(ch, s.cursor), Frontier(ch, s1.cursor);
      var rest := if !t.valid || t.isReset then Run(cfg, ch, s1.cursor, s1.didDetectHighSpeed, !t.valid)
                  else Words(cfg, ch, s1, index + 1);
      if !t.valid || t.isReset {
        RunOrdered(cfg, ch, s1.cursor, s1.didDetectHighSpeed, !t.valid);
      } else {
        WordsOrdered(cfg, ch, s1, index + 1);
      }
      if t.valid {
        ConsFrame(Frame(t.beginSample, t.endSample, ConvertToU64(t.rgb), index), rest, b, b1);
      } else {
        WeakerFrom(rest, b, b1);
      }
  }

  lemma WellIndexedFrom(evs: seq<Event>, k: nat)
    requires WellIndexed(evs)
    ensures IndexedFrom(evs, k)
  {
  }

  /** A valid word read by ReadRGBTriple has its channels within the bit size. */
  lemma ReadRgbTripleBounded(cfg: Config, ch: Channel, s: Session)
    requires SessionOk(cfg, ch, s)
    ensures var st := ReadRgbTriple(cfg, ch, s);
            st.Done? && st.value.valid ==>
              var v := st.value.rgb;
              && (v.red as int) < Pow2(BitSize(cfg.controller)) && (v.green as int) < Pow2(BitSize(cfg.controller))
              && (v.blue as int) < Pow2(BitSize(cfg.controller)) && v.padding == 0
  {
    var st := ReadBits(cfg, ch, s, WordBits(cfg.controller));
    if st.Done? {
      TripleBounded(cfg.controller, st.value);
    }
  }

  lemma ConsFrameRecord(controller: nat, f: Event, rest: seq<Event>, k: nat)
    requires ValidController(controller)
    requires f.Frame? && f.data2 == k && IndexedFrom(rest, k + 1) && FramesBounded(controller, rest)
    requires var v := CreateFromU64(f.data1);
             && (v.red as int) < Pow2(BitSize(controller)) && (v.green as int) < Pow2(BitSize(controller))
             && (v.blue as int) < Pow2(BitSize(controller)) && v.padding == 0
    ensures IndexedFrom([f] + rest, k) && FramesBounded(controller, [f] + rest)
  {
    assert ([f] + rest)[1..] == rest;
    assert forall i :: 1 <= i < |rest| + 1 ==> ([f] + rest)[i] == rest[i - 1];
  }

  /** The record WorkerThread builds: packets whose frames are indexed 0, 1, 2, ...,
      each frame's colour unpacking to channels within the controller's bit size with
      no padding. */
  lemma {:induction false} RunRecordWellFormed(cfg: Config, ch: Channel, c: Cursor, highSpeed: bool, resync: bool)
    requires ConfigOk(cfg) && WellFormed(ch) && CursorValid(ch, c)
    requires highSpeed ==> IsHighSpeedSupported(cfg.controller)
    ensures var evs := Run(cfg, ch, c, highSpeed, resync);
            WellIndexed(evs) && FramesBounded(cfg.controller, evs)
    decreases Remaining(ch, c), 2
  {
    if resync {
      match Synchronize(cfg, ch, c)
      case SyncStalled =>
      case Synced(_, at) => PacketRecordWellFormed(cfg, ch, at, highSpeed);
    } else {
      PacketRecordWellFormed(cfg, ch, c, highSpeed);
    }
  }

  lemma {:induction false} PacketRecordWellFormed(cfg: Config, ch: Channel, c: Cursor, highSpeed: bool)
    requires ConfigOk(cfg) && WellFormed(ch) && CursorValid(ch, c)
    requires highSpeed ==> IsHighSpeedSupported(cfg.controller)
    ensures var evs := Packet(cfg, ch, c, highSpeed);
            WellIndexed(evs) && FramesBounded(cfg.controller, evs)
    decreases Remaining(ch, c), 1
  {
    var rest := Words(cfg, ch, Session(c, true, highSpeed), 0);
    WordsRecordWellFormed(cfg, ch, Session(c, true, highSpeed), 0);
    assert ([PacketStart] + rest)[1..] == rest;
    assert forall i :: 1 <= i < |rest| + 1 ==> ([PacketStart] + rest)[i] == rest[i - 1];
  }

  lemma {:induction false} WordsRecordWellFormed(cfg: Config, ch: Channel, s: Session, index: nat)
    requires SessionOk(cfg, ch, s)
    ensures var evs := Words(cfg, ch, s, index);
            IndexedFrom(evs, index) && FramesBounded(cfg.controller, evs)
    decreases Remaining(ch, s.cursor), 0
  {
    ReadRgbTripleBounded(cfg, ch, s);
    match ReadRgbTriple(cfg, ch, s)
    case Stalled =>
    case Done(t, s1) =>
      if !t.valid || t.isReset {
        var rest := Run(cfg, ch, s1.cursor, s1.didDetectHighSpeed, !t.valid);
        RunRecordWellFormed(cfg, ch, s1.cursor, s1.didDetectHighSpeed, !t.valid);
        WellIndexedFrom(rest, index);
        WellIndexedFrom(rest, index + 1);
        if t.valid {
          U64RoundTrip(t.rgb);
          ConsFrameRecord(cfg.controller, Frame(t.beginSample, t.endSample, ConvertToU64(t.rgb), index), rest, index);
        }
      } else {
        WordsRecordWellFormed(cfg, ch, s1, index + 1);
        U64RoundTrip(t.rgb);
        ConsFrameRecord(cfg.controller, Frame(t.beginSample, t.endSample, ConvertToU64(t.rgb), index),
                        Words(cfg, ch, s1, index + 1), index);
      }
  }

  /** The whole record of a capture: well indexed, bounded and free of overlaps. */
  lemma DecodeWellFormed(cfg: Config, ch: Channel)
    requires ConfigOk(cfg) && WellFormed(ch)
    ensures var evs := Decode(cfg, ch);
            WellIndexed(evs) && FramesBounded(cfg.controller, evs) && FramesOrdered(evs)
  {
    RunRecordWellFormed(cfg, ch, Start(ch), false, true);
    RunOrdered(cfg, ch, Start(ch), false, true);
  }
}
