/**
 * The analyzer of src/AsyncRgbLedAnalyzer.cpp as a class: the decoder state it keeps in
 * its members, its methods updating them and the channel cursor step by step. Each
 * method is proved to compute what the functions of module Decoding state.
 *
 * The SDK's blocking calls (AdvanceToNextEdge, GetSampleOfNextEdge with no edge left)
 * appear as a `stalled` result, on which every caller returns at once; WorkerThread
 * then returns with everything recorded so far.
 */
module Analyzer {
  import opened Helpers
  import opened Settings
  import opened ChannelData
  import opened Bits
  import opened Decoding

  class AsyncRgbLedAnalyzer {
    /** The controller chosen in the settings. */
    const controller: nat
    var sampleRateHz: nat
    var channelData: AnalyzerChannelData?
    var minimumLowDurationNs: nat
    var firstBitAfterReset: bool
    var didDetectHighSpeed: bool
    /** What the results object has been given: packet starts and frames, in order. */
    var results: seq<Event>

    /** What holds once WorkerThread has set the analysis up. */
    ghost predicate Valid()
      reads this, channelData
    {
      && ValidController(controller) && sampleRateHz > 0
      && channelData != null && channelData.Valid()
      && minimumLowDurationNs == MinimumLowDuration(controller)
      && (didDetectHighSpeed ==> IsHighSpeedSupported(controller))
    }

    function Cfg(): Config
      reads this
    {
      Config(controller, sampleRateHz)
    }

    function CurrentSession(): Session
      requires channelData != null
      reads this, channelData
    {
      Session(channelData.State(), firstBitAfterReset, didDetectHighSpeed)
    }

    /** The member initialisers of the class. */
    constructor (controller: nat)
      requires ValidController(controller)
      ensures this.controller == controller && sampleRateHz == 0 && channelData == null
      ensures minimumLowDurationNs == 0 && !firstBitAfterReset && !didDetectHighSpeed && results == []
    {
      this.controller := controller;
      sampleRateHz := 0;
      channelData := null;
      minimumLowDurationNs := 0;
      firstBitAfterReset := false;
      didDetectHighSpeed := false;
      results := [];
    }

    /** WorkerThread over the capture `capture` sampled at `rateHz` samples per second
        (what GetAnalyzerChannelData and GetSampleRate give): the minimum low duration
        cached, then packets for ever, each after a resynchronisation when one is needed.
        It returns where the SDK would wait for more data; what it has recorded by then is
        Run from the start of the capture, which for a freshly constructed analyzer is
        Decode. */
    method WorkerThread(rateHz: nat, capture: Channel)
      requires ValidController(controller) && rateHz > 0 && WellFormed(capture)
      requires didDetectHighSpeed ==> IsHighSpeedSupported(controller)
      modifies this
      ensures results == old(results) + Run(Config(controller, rateHz), capture, Start(capture), old(didDetectHighSpeed), true)
      ensures !old(didDetectHighSpeed) ==> results == old(results) + Decode(Config(controller, rateHz), capture)
    {
      ghost var r0, hs0 := results, didDetectHighSpeed;
      sampleRateHz := rateHz;
      channelData := new AnalyzerChannelData(capture);
      ghost var cfg := Cfg();
      ghost var goal := r0 + Run(cfg, capture, Start(capture), hs0, true);
      // the shortest low time of the selected controller, looked up once per run
      if IsHighSpeedSupported(controller) {
        minimumLowDurationNs := Min(DataTiming(controller, Low, true).negative.minimum,
                                    DataTiming(controller, High, true).negative.minimum);
      } else {
        minimumLowDurationNs := Min(DataTiming(controller, Low, false).negative.minimum,
                                    DataTiming(controller, High, false).negative.minimum);
      }
      var isResyncNeeded := true;
      while true
        invariant fresh(channelData) && Valid() && Cfg() == cfg && channelData.channel == capture
        invariant results + Run(cfg, capture, channelData.State(), didDetectHighSpeed, isResyncNeeded) == goal
        decreases Remaining(capture, channelData.State())
      {
        ghost var c := channelData.State();
        if isResyncNeeded {
          var stalled := SynchronizeToReset();
          RunSynced(cfg, capture, c, didDetectHighSpeed, stalled, channelData.State());
          if stalled {
            return;
          }
          isResyncNeeded := false;
        }
        var stalled;
        stalled, isResyncNeeded := ReadPacket(cfg, capture, goal);
        if stalled {
          return;
        }
      }
    }

    /** The body of the outer loop of WorkerThread once synchronised: a new packet, then
        the data word loop, until a word is invalid (`resync`) or ends in a reset. */
    method ReadPacket(ghost cfg: Config, ghost ch: Channel, ghost goal: seq<Event>) returns (stalled: bool, resync: bool)
      requires Valid() && Cfg() == cfg && channelData.channel == ch
      requires results + Packet(cfg, ch, channelData.State(), didDetectHighSpeed) == goal
      modifies this`results, this`didDetectHighSpeed, this`firstBitAfterReset, channelData
      ensures Valid() && Cfg() == cfg && channelData.channel == ch
      ensures stalled ==> results == goal
      ensures !stalled ==> && results + Run(cfg, ch, channelData.State(), didDetectHighSpeed, resync) == goal
                           && Remaining(ch, channelData.State()) < old(Remaining(ch, channelData.State()))
    {
      ghost var c := channelData.State();
      PacketWords(cfg, ch, c, didDetectHighSpeed);
      AppendAssociative(results, [PacketStart], Words(cfg, ch, Session(c, true, didDetectHighSpeed), 0));
      firstBitAfterReset := true;
      var frameInPacketIndex := 0;
      results := results + [PacketStart];
      resync := false;
      // one iteration reads one word of the packet
      while true
        invariant Valid() && Cfg() == cfg && channelData.channel == ch
        invariant results + Words(cfg, ch, CurrentSession(), frameInPacketIndex) == goal
        invariant Remaining(ch, channelData.State()) <= Remaining(ch, c)
        decreases Remaining(ch, channelData.State())
      {
        var done;
        stalled, done, resync, frameInPacketIndex := ReadWord(frameInPacketIndex, cfg, ch, goal);
        if stalled || done {
          return;
        }
      }
    }

    /** The body of the data word loop of WorkerThread: one ReadRGBTriple; a valid word
        recorded as a frame with the next index in the packet, an invalid one calling for
        a resynchronisation. `done` when the packet ends: after an invalid word or one
        ending in a reset. */
    method ReadWord(frameInPacketIndex: nat, ghost cfg: Config, ghost ch: Channel, ghost goal: seq<Event>)
      returns (stalled: bool, done: bool, resync: bool, nextIndex: nat)
      requires Valid() && Cfg() == cfg && channelData.channel == ch
      requires results + Words(cfg, ch, CurrentSession(), frameInPacketIndex) == goal
      modifies this`results, this`didDetectHighSpeed, this`firstBitAfterReset, channelData
      ensures Valid() && Cfg() == cfg && channelData.channel == ch
      ensures stalled ==> results == goal
      ensures !stalled ==> Remaining(ch, channelData.State()) < old(Remaining(ch, channelData.State()))
      ensures !stalled && done ==> results + Run(cfg, ch, channelData.State(), didDetectHighSpeed, resync) == goal
      ensures !stalled && !done ==> results + Words(cfg, ch, CurrentSession(), nextIndex) == goal
    {
      ghost var s := CurrentSession();
      var result;
      stalled, result := ReadRGBTriple();
      WordsStep(cfg, ch, s, frameInPacketIndex, stalled, result, CurrentSession());
      resync, nextIndex := false, frameInPacketIndex;
      if stalled {
        return stalled, false, resync, nextIndex;
      }
      if result.valid {
        var frame := Frame(result.beginSample, result.endSample, ConvertToU64(result.rgb), frameInPacketIndex);
        AppendAssociative(results, [frame], if result.isReset then Run(cfg, ch, channelData.State(), didDetectHighSpeed, false)
                                       else Words(cfg, ch, CurrentSession(), frameInPacketIndex + 1));
        results := results + [frame];
        nextIndex := frameInPacketIndex + 1;
      } else {
        // an invalid word sends decoding back to SynchronizeToReset
        resync := true;
      }
      done := resync || result.isReset;
    }

    /** DetectSpeedMode: clears the high-speed flag, then tries the low-speed timings of
        0 and 1 and, if the controller has them, the high-speed ones. */
    method DetectSpeedMode(positiveNs: real, negativeNs: real, value: BitState) returns (ok: bool, valueOut: BitState)
      requires ValidController(controller)
      modifies this`didDetectHighSpeed, this`firstBitAfterReset
      ensures match DetectSpeed(controller, positiveNs, negativeNs)
              case None =>
                !ok && valueOut == value && !didDetectHighSpeed && firstBitAfterReset == old(firstBitAfterReset)
              case Some(d) =>
                ok && valueOut == d.value && didDetectHighSpeed == d.highSpeed && !firstBitAfterReset
    {
      didDetectHighSpeed := false;
      var bits := [Low, High];
      var i := 0;
      while i < 2
        invariant 0 <= i <= 2
        invariant forall j :: 0 <= j < i ==> !DataTiming(controller, bits[j], false).WithinTolerance(positiveNs, negativeNs)
        invariant !didDetectHighSpeed && firstBitAfterReset == old(firstBitAfterReset)
      {
        if DataTiming(controller, bits[i], false).WithinTolerance(positiveNs, negativeNs) {
          firstBitAfterReset := false;
          return true, bits[i];
        }
        i := i + 1;
      }
      assert bits[0] == Low && bits[1] == High;
      if IsHighSpeedSupported(controller) {
        i := 0;
        while i < 2
          invariant 0 <= i <= 2
          invariant forall j :: 0 <= j < i ==> !DataTiming(controller, bits[j], true).WithinTolerance(positiveNs, negativeNs)
          invariant !didDetectHighSpeed && firstBitAfterReset == old(firstBitAfterReset)
        {
          if DataTiming(controller, bits[i], true).WithinTolerance(positiveNs, negativeNs) {
            didDetectHighSpeed := true;
            firstBitAfterReset := false;
            return true, bits[i];
          }
          i := i + 1;
        }
      }
      return false, value;
    }

    /** ReadBit: the high pulse (ToFallingEdge), then the rest from its falling edge. */
    method ReadBit() returns (stalled: bool, result: ReadResult)
      requires Valid()
      modifies this`didDetectHighSpeed, this`firstBitAfterReset, channelData
      ensures Valid()
      ensures var st := Decoding.ReadBit(Cfg(), channelData.channel, old(CurrentSession()));
              (stalled <==> st.Stalled?) && (!stalled ==> result == st.value && CurrentSession() == st.after)
    {
      ghost var s := CurrentSession();
      result := ReadResult(false, false, Low, 0, 0);
      var begin;
      stalled, begin := ToFallingEdge();
      if stalled {
        return;
      }
      result := ReadAfterFallingEdge(begin, s);
    }

    /** The start of ReadBit: onto the rising edge if the line is low, then onto the
        falling edge; `begin` is the sample the line was high from. */
    method ToFallingEdge() returns (stalled: bool, begin: nat)
      requires Valid()
      modifies channelData
      ensures Valid()
      ensures var p := HighPulse(channelData.channel, old(channelData.State()));
              (stalled <==> p.None?) && (!stalled ==> p == Some(Pulse(begin, channelData.State())))
    {
      if channelData.GetBitState() == Low {
        if !channelData.HasNextEdge() {
          return true, 0;
        }
        channelData.AdvanceToNextEdge();
      }
      begin := channelData.GetSampleNumber();
      if !channelData.HasNextEdge() {
        return true, begin;
      }
      channelData.AdvanceToNextEdge();
      stalled := false;
    }

    /** ReadBit from the falling edge: the positive pulse is classified unless the speed
        is still to be detected, then the low pulse is examined (ReadLowPulse). */
    method ReadAfterFallingEdge(begin: nat, ghost s: Session) returns (result: ReadResult)
      requires Valid() && SessionOk(Cfg(), channelData.channel, s)
      requires s.firstBitAfterReset == firstBitAfterReset && s.didDetectHighSpeed == didDetectHighSpeed
      requires begin < channelData.position && channelData.nextEdge > s.cursor.next
      modifies this`didDetectHighSpeed, this`firstBitAfterReset, channelData
      ensures Valid()
      ensures var st := BitAfterFallingEdge(Cfg(), channelData.channel, s, begin, old(channelData.State()));
              result == st.value && CurrentSession() == st.after
    {
      var falling := channelData.GetSampleNumber();
      var highNs := SamplesToNs(falling - begin, sampleRateHz);
      var value := Low;
      if !firstBitAfterReset {
        if DataTiming(controller, Low, didDetectHighSpeed).positive.WithinTolerance(highNs) {
          value := Low;
        } else if DataTiming(controller, High, didDetectHighSpeed).positive.WithinTolerance(highNs) {
          value := High;
        } else {
          // the high time lies outside both positive windows of the locked speed
          channelData.AdvanceToAbsPosition(falling);
          return ReadResult(false, false, Low, begin, 0);
        }
      }
      result := ReadLowPulse(begin, value, s);
    }

    /** The rest of ReadBit once the positive pulse gave `value`: the too-short test,
        the reset test, then the low pulse up to the next edge (ReadLowPulseEnd). */
    method ReadLowPulse(begin: nat, value: BitState, ghost s: Session) returns (result: ReadResult)
      requires Valid() && begin < channelData.position && SessionOk(Cfg(), channelData.channel, s)
      requires s.firstBitAfterReset == firstBitAfterReset && s.didDetectHighSpeed == didDetectHighSpeed
      modifies this`didDetectHighSpeed, this`firstBitAfterReset, channelData
      ensures Valid()
      ensures var st := LowPulse(Cfg(), channelData.channel, s, begin, old(channelData.State()), value);
              result == st.value && CurrentSession() == st.after
    {
      var falling := channelData.GetSampleNumber();
      if channelData.WouldAdvancingCauseTransition(NsToSamples(minimumLowDurationNs, sampleRateHz)) {
        // an edge within the minimum low time
        channelData.AdvanceToNextEdge();
        return ReadResult(false, false, value, begin, 0);
      }
      var minResetSamples := NsToSamples(ResetTiming(controller).minimum, sampleRateHz);
      if !channelData.WouldAdvancingCauseTransition(minResetSamples) {
        if firstBitAfterReset {
          // the first bit after a reset, with no edge within the reset minimum
          return ReadResult(false, false, value, begin, 0);
        }
        channelData.Advance(minResetSamples);
        var nominalNegative := DataTiming(controller, value, didDetectHighSpeed).negative.nominal;
        return ReadResult(true, true, value, begin, falling + NsToSamples(nominalNegative, sampleRateHz));
      }
      result := ReadLowPulseEnd(begin, value, s);
    }

    /** The low pulse ends on the next edge: onto it, then the low time checked against
        the value's timing, or DetectSpeedMode on the first bit after a reset. */
    method ReadLowPulseEnd(begin: nat, value: BitState, ghost s: Session) returns (result: ReadResult)
      requires Valid() && begin < channelData.position && channelData.HasNextEdge()
      requires SessionOk(Cfg(), channelData.channel, s)
      requires s.firstBitAfterReset == firstBitAfterReset && s.didDetectHighSpeed == didDetectHighSpeed
      modifies this`didDetectHighSpeed, this`firstBitAfterReset, channelData
      ensures Valid()
      ensures var st := LowPulseEnd(Cfg(), channelData.channel, s, begin, old(channelData.State()), value);
              result == st.value && CurrentSession() == st.after
    {
      var falling := channelData.GetSampleNumber();
      channelData.AdvanceToNextEdge();
      var end := channelData.GetSampleNumber() - 1;
      var highNs := SamplesToNs(falling - begin, sampleRateHz);
      var lowNs := SamplesToNs(end - falling, sampleRateHz);
      var valid := false;
      var bitValue := value;
      if firstBitAfterReset {
        valid, bitValue := DetectSpeedMode(highNs, lowNs, value);
      } else {
        valid := DataTiming(controller, value, didDetectHighSpeed).negative.WithinTolerance(lowNs);
      }
      result := ReadResult(valid, false, bitValue, begin, end);
    }

    /** ReadRGBTriple: the channels of one word in wire order, each of BitSize bits read
        most significant first (ReadChannel); the colour and validity only when every
        channel was read in full. The method follows the trace of the word's reads from
        the session it starts from, which the lemmas about traces relate to ReadBits. */
    method ReadRGBTriple() returns (stalled: bool, result: RGBResult)
      requires Valid()
      modifies this`didDetectHighSpeed, this`firstBitAfterReset, channelData
      ensures Valid()
      ensures TripleRead(Cfg(), channelData.channel, old(CurrentSession()), stalled, result, CurrentSession())
    {
      ghost var cfg, ch, s0 := Cfg(), channelData.channel, CurrentSession();
      ghost var rd := BitReader(cfg, ch);
      ghost var n := WordBits(controller);
      ghost var t := SomeTrace(rd, s0, n);
      var bitSize := BitSize(controller);
      var channelCount := LedChannelCount(controller);
      var channels := new u16[channelCount](_ => 0);
      result := RGBResult(false, false, RGBValue(0, 0, 0, 0), 0, 0);
      ghost var words: seq<ReadResult> := [];
      // the values stored in channels, as a sequence
      ghost var cs := channels[..];
      WordStart(cfg, ch, rd, s0, t, cs);
      var channel := 0;
      while channel < channelCount
        invariant Valid() && Cfg() == cfg && channelData.channel == ch
        invariant WordLoop(cfg, ch, rd, s0, t, words, channel, result, cs, CurrentSession())
        invariant forall k :: 0 <= k < channelCount ==> channels[k] == cs[k]
        decreases channelCount - channel
      {
        var done, channelStalled, value, next, bits := ReadWordChannel(channel, bitSize, result, cfg, ch, rd, s0, t, words, cs);
        if done {
          // a stall, or an invalid bit before the channel filled: the word stays invalid
          return channelStalled, next;
        }
        channels[channel] := value;
        cs := cs[channel := value];
        result := next;
        words := words + bits;
        channel := channel + 1;
      }
      // all channelCount channels were read: the word is valid
      assert channels[..] == cs;
      TripleFull(cfg, ch, rd, s0, t, words, channel, result, cs, CurrentSession());
      stalled, result := false, result.(rgb := CreateFromControllerOrder(GetColorLayout(controller), channels[..]), valid := true);
    }

    /** The body of the outer loop of ReadRGBTriple, without the store into `channels`:
        channel `channel` read (ReadChannel) after the channels `words` with values `cs`.
        `done` when it stalled or was cut short, which settles the word. */
    method ReadWordChannel(channel: nat, bitSize: nat, result0: RGBResult, ghost cfg: Config, ghost ch: Channel,
                           ghost rd: Session -> Step<ReadResult>, ghost s0: Session, ghost t: seq<Step<ReadResult>>,
                           ghost words: seq<ReadResult>, ghost cs: seq<u16>)
      returns (done: bool, stalled: bool, value: u16, result: RGBResult, ghost bits: seq<ReadResult>)
      requires Valid() && Cfg() == cfg && channelData.channel == ch && bitSize == BitSize(controller)
      requires WordLoop(cfg, ch, rd, s0, t, words, channel, result0, cs, CurrentSession())
      requires channel < LedChannelCount(controller)
      modifies this`didDetectHighSpeed, this`firstBitAfterReset, channelData
      ensures Valid() && Cfg() == cfg && channelData.channel == ch
      ensures done ==> TripleRead(cfg, ch, s0, stalled, result, CurrentSession())
      ensures !done ==> WordLoop(cfg, ch, rd, s0, t, words + bits, channel + 1, result, cs[channel := value],
                                 CurrentSession())
    {
      ghost var s := CurrentSession();
      WordNext(cfg, ch, rd, s0, t, words, channel, result0, cs, s);
      var complete, v;
      stalled, complete, v, result, bits := ReadChannel(channel, bitSize, result0, cfg, ch, rd, s0, WordBits(controller), t, |words|);
      WordChannelStep(cfg, ch, rd, s0, t, words, channel, result0, cs, s, stalled, complete, v, result,
                      bits, CurrentSession());
      done := stalled || !complete;
      value := if done then 0 else v as u16;
    }

    /** The inner loop of ReadRGBTriple: up to bitSize bits of one channel, built into
        `value` most significant bit first (DataBuilder with MsbFirst), stopping at the
        first invalid bit. The word's reads are the trace t, of which the channels before
        made the first `base`; `bits` are the reads of this channel. */
    method ReadChannel(channel: nat, bitSize: nat, result0: RGBResult, ghost cfg: Config, ghost ch: Channel,
                       ghost rd: Session -> Step<ReadResult>, ghost s0: Session, ghost n: nat,
                       ghost t: seq<Step<ReadResult>>, ghost base: nat)
      returns (stalled: bool, complete: bool, value: nat, result: RGBResult, ghost bits: seq<ReadResult>)
      requires Valid() && Cfg() == cfg && channelData.channel == ch
      requires AtRead(cfg, ch, rd, s0, n, t, base, CurrentSession()) && base < |t| && base + bitSize <= n
      modifies this`didDetectHighSpeed, this`firstBitAfterReset, channelData
      ensures Valid() && Cfg() == cfg && channelData.channel == ch
      ensures ChannelRead(t, base, n, bitSize, result0, channel == 0, stalled, complete, value, result, bits)
      ensures !stalled ==> AtRead(cfg, ch, rd, s0, n, t, base + |bits|, CurrentSession())
    {
      result := result0;
      value := 0;
      bits := [];
      var i := 0;
      while i < bitSize
        invariant Valid() && Cfg() == cfg && channelData.channel == ch
        invariant AtRead(cfg, ch, rd, s0, n, t, base + i, CurrentSession())
        invariant i <= bitSize && |bits| == i
        invariant ChannelSoFar(t, base, n, bits, value, result, result0, channel == 0)
      {
        var bitStalled, r := ReadWordBit(cfg, ch, rd, s0, n, t, base + i);
        if bitStalled {
          ChannelBitStalled(t, base, n, bitSize, bits, value, result, result0, channel == 0, r);
          return true, false, value, result, bits;
        }
        if !r.valid {
          ChannelBitInvalid(t, base, n, bitSize, bits, value, result, result0, channel == 0, r);
          return false, false, value, result, bits + [r];
        }
        value, result := AddBit(i, channel, value, result, r, t, base, n, result0, bits);
        bits := bits + [r];
        i := i + 1;
      }
      ChannelComplete(t, base, n, bitSize, bits, value, result, result0, channel == 0);
      return false, true, value, result, bits;
    }

    /** Read j of a word: the ReadBit the word's trace t makes there. */
    method ReadWordBit(ghost cfg: Config, ghost ch: Channel, ghost rd: Session -> Step<ReadResult>, ghost s0: Session,
                       ghost n: nat, ghost t: seq<Step<ReadResult>>, ghost j: nat)
      returns (stalled: bool, r: ReadResult)
      requires Valid() && Cfg() == cfg && channelData.channel == ch
      requires AtRead(cfg, ch, rd, s0, n, t, j, CurrentSession()) && j < |t|
      modifies this`didDetectHighSpeed, this`firstBitAfterReset, channelData
      ensures Valid() && Cfg() == cfg && channelData.channel == ch
      ensures BitRead(t, j, n, stalled, r)
      ensures !stalled ==> AtRead(cfg, ch, rd, s0, n, t, j + 1, CurrentSession())
    {
      assert TraceStep(rd, s0, n, t, j);
      stalled, r := ReadBit();
    }

    /** The body of the inner loop of ReadRGBTriple for a valid bit `r`, bit i of channel
        `channel`: the begin sample on the first bit of the word, the end sample, the bit
        into the channel value, the reset flag. The bits before it are `bits`, read from
        read `base` of the word's trace t on, and `u` is the word's result before the
        channel. */
    method AddBit(i: nat, channel: nat, value0: nat, result0: RGBResult, r: ReadResult,
                  ghost t: seq<Step<ReadResult>>, ghost base: nat, ghost n: nat, ghost u: RGBResult,
                  ghost bits: seq<ReadResult>)
      returns (value: nat, result: RGBResult)
      requires ChannelSoFar(t, base, n, bits, value0, result0, u, channel == 0) && |bits| == i
      requires BitRead(t, base + i, n, false, r) && r.valid
      ensures ChannelSoFar(t, base, n, bits + [r], value, result, u, channel == 0)
    {
      ChannelBitAdded(u, channel == 0, bits, r);
      MatchesAtSnoc(t, base, bits, r);
      result := result0;
      // the word starts where its first bit starts
      if i == 0 && channel == 0 {
        result := result.(beginSample := r.beginSample);
      }
      result := result.(endSample := r.endSample);
      value := 2 * value0 + BitOf(r.bitValue);
      result := result.(isReset := r.isReset);
    }

    /** SynchronizeToReset: off a high level onto the falling edge, then the loop over
        low gaps until one exceeds the reset minimum. */
    method SynchronizeToReset() returns (stalled: bool)
      requires Valid()
      modifies channelData
      ensures Valid()
      ensures var r := Synchronize(Cfg(), channelData.channel, old(channelData.State()));
              (stalled <==> r.SyncStalled?) && (!stalled ==> channelData.State() == r.at)
    {
      ghost var cfg, ch := Cfg(), channelData.channel;
      ghost var goal := Synchronize(cfg, ch, channelData.State());
      if channelData.GetBitState() == High {
        if !channelData.HasNextEdge() {
          return true;
        }
        channelData.AdvanceToNextEdge();
      }
      while true
        invariant Valid() && Level(ch, channelData.State()) == Low
        invariant goal == FindReset(cfg, ch, channelData.State())
        decreases Remaining(ch, channelData.State())
      {
        var done;
        done, stalled := SynchronizeStep();
        if done {
          return stalled;
        }
      }
    }

    /** One turn of the loop of SynchronizeToReset, from a falling edge: the low gap up to
        the next edge is a reset (the cursor stays on the rising edge that ends it), or
        the cursor moves on to the falling edge after that rising edge. */
    method SynchronizeStep() returns (done: bool, stalled: bool)
      requires Valid() && Level(channelData.channel, channelData.State()) == Low
      modifies channelData
      ensures Valid()
      ensures var r := FindReset(Cfg(), channelData.channel, old(channelData.State()));
              if done then (stalled <==> r.SyncStalled?) && (!stalled ==> channelData.State() == r.at)
              else && Level(channelData.channel, channelData.State()) == Low
                   && channelData.State().next > old(channelData.State()).next
                   && r == FindReset(Cfg(), channelData.channel, channelData.State())
    {
      ghost var cfg, ch, c := Cfg(), channelData.channel, channelData.State();
      var lowTransition := channelData.GetSampleNumber();
      if !channelData.HasNextEdge() {
        return true, true;
      }
      var highTransition := channelData.GetSampleOfNextEdge();
      var lowNs := SamplesToNs(highTransition - lowTransition, sampleRateHz);
      if lowNs > ResetTiming(controller).minimum as real {
        // the gap exceeds the reset minimum: stop on the rising edge that ends it
        channelData.AdvanceToAbsPosition(highTransition);
        return true, false;
      }
      // skip the short gap and the high pulse after it, onto the next falling edge
      channelData.AdvanceToAbsPosition(highTransition);
      if !channelData.HasNextEdge() {
        return true, true;
      }
      FindResetSkip(cfg, ch, c);
      channelData.AdvanceToNextEdge();
      return false, false;
    }
  }
}
