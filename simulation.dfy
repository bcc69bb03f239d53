/**
 * The simulation encoder of AsyncRgbLedSimulationDataGenerator: it writes a test
 * waveform of packets, each packet one reset followed by six colour words, each bit
 * one high pulse and one low pulse of the nominal widths the catalogue gives for the
 * bit value and the current speed mode.
 *
 * The analyzer SDK's SimulationChannelDescriptor is the class of that name below: the
 * waveform is the sequence of (level, duration) segments that its Advance calls
 * append. A duration is the exact nominal time in nanoseconds. The SDK's
 * ClockGenerator rounds each such time to whole samples and carries the rounding
 * error forward; the model leaves that rounding out. A waveform's sample position is
 * the number of whole samples its total duration spans at the sample rate.
 *
 * rand() is the parameter `rand`, the k-th value that rand() returns after
 * srand(42). The generator counts the values it has drawn.
 */
module Simulation {
  import opened Helpers
  import opened Settings
  import opened Bits

  /** One stretch of the simulated line: a level held for ns nanoseconds. */
  datatype Segment = Segment(level: BitState, ns: nat)

  /** A waveform: its segments in order, a new one always going after the last. */
  datatype Wave = Empty | Then(init: Wave, last: Segment)

  /** The waveform a followed by the waveform b. */
  function Concat(a: Wave, b: Wave): Wave
    decreases b
  {
    match b
    case Empty => a
    case Then(init, s) => Then(Concat(a, init), s)
  }

  lemma {:induction false} ConcatAssociative(a: Wave, b: Wave, c: Wave)
    ensures Concat(Concat(a, b), c) == Concat(a, Concat(b, c))
    decreases c
  {
    match c
    case Empty =>
    case Then(init, s) => ConcatAssociative(a, b, init);
  }

  lemma {:induction false} ConcatEmptyLeft(w: Wave)
    ensures Concat(Empty, w) == w
  {
    match w
    case Empty =>
    case Then(init, s) => ConcatEmptyLeft(init);
  }

  function Duration(w: Wave): nat
  {
    match w
    case Empty => 0
    case Then(init, s) => Duration(init) + s.ns
  }

  lemma {:induction false} DurationConcat(a: Wave, b: Wave)
    ensures Duration(Concat(a, b)) == Duration(a) + Duration(b)
    decreases b
  {
    match b
    case Empty =>
    case Then(init, s) => DurationConcat(a, init);
  }

  /** The whole samples that the waveform w spans at rateHz. */
  function SampleNumber(w: Wave, rateHz: nat): nat
  {
    Duration(w) * rateHz / Second
  }

  /** The SDK's SimulationChannelDescriptor, as the generator uses it. */
  class SimulationChannelDescriptor {
    var sampleRateHz: nat
    var currentLevel: BitState
    var waveform: Wave

    constructor ()
      ensures waveform == Empty && currentLevel == Low
    {
      currentLevel := Low;
      waveform := Empty;
    }

    method SetSampleRate(rateHz: nat)
      modifies this
      ensures sampleRateHz == rateHz
      ensures currentLevel == old(currentLevel) && waveform == old(waveform)
    {
      sampleRateHz := rateHz;
    }

    /** Starts the waveform at level b. */
    method SetInitialBitState(b: BitState)
      modifies this
      ensures currentLevel == b && waveform == Empty && sampleRateHz == old(sampleRateHz)
    {
      currentLevel := b;
      waveform := Empty;
    }

    function GetCurrentBitState(): BitState
      reads this
    {
      currentLevel
    }

    function GetCurrentSampleNumber(): nat
      reads this
    {
      SampleNumber(waveform, sampleRateHz)
    }

    /** The line changes level here. */
    method Transition()
      modifies this
      ensures currentLevel == Flip(old(currentLevel))
      ensures waveform == old(waveform) && sampleRateHz == old(sampleRateHz)
    {
      currentLevel := Flip(currentLevel);
    }

    /** The line holds its level for ns nanoseconds. */
    method Advance(ns: nat)
      modifies this
      ensures waveform == Then(old(waveform), Segment(currentLevel, ns))
      ensures currentLevel == old(currentLevel) && sampleRateHz == old(sampleRateHz)
    {
      waveform := Then(waveform, Segment(currentLevel, ns));
    }
  }

  // ---------------------------------------------------------------------------
  // The waveform the generator writes

  /** The pulse pair of bit value b: high for the nominal positive time, then low for the
      nominal negative time. */
  function BitWave(controller: nat, highSpeed: bool, b: BitState): Wave
    requires ValidController(controller) && (highSpeed ==> IsHighSpeedSupported(controller))
  {
    var t := DataTiming(controller, b, highSpeed);
    Then(Then(Empty, Segment(High, t.positive.nominal)), Segment(Low, t.negative.nominal))
  }

  /** The pulse pairs of a run of bits, in order. */
  function BitsWave(controller: nat, highSpeed: bool, bits: seq<BitState>): Wave
    requires ValidController(controller) && (highSpeed ==> IsHighSpeedSupported(controller))
  {
    if bits == [] then Empty
    else Concat(BitsWave(controller, highSpeed, bits[..|bits| - 1]), BitWave(controller, highSpeed, bits[|bits| - 1]))
  }

  /** A value as `bitCount` bits: the higher bits first, the lowest bit last. */
  function WordWave(controller: nat, highSpeed: bool, value: nat, bitCount: nat): Wave
    requires ValidController(controller) && (highSpeed ==> IsHighSpeedSupported(controller))
  {
    if bitCount == 0 then Empty
    else Concat(WordWave(controller, highSpeed, value / 2, bitCount - 1),
                BitWave(controller, highSpeed, if value % 2 == 1 then High else Low))
  }

  /** One step of WriteUIntData's loop: a prefix of a run of bits grows by one pulse pair. */
  lemma BitsWavePrefix(controller: nat, highSpeed: bool, bits: seq<BitState>, i: nat)
    requires ValidController(controller) && (highSpeed ==> IsHighSpeedSupported(controller))
    requires i < |bits|
    ensures BitsWave(controller, highSpeed, bits[..i + 1])
              == Concat(BitsWave(controller, highSpeed, bits[..i]), BitWave(controller, highSpeed, bits[i]))
  {
    assert bits[..i + 1][..i] == bits[..i];
  }

  /** The bits of a run of pulse pairs can be split anywhere. */
  lemma {:induction false} BitsWaveAppend(controller: nat, highSpeed: bool, a: seq<BitState>, b: seq<BitState>)
    requires ValidController(controller) && (highSpeed ==> IsHighSpeedSupported(controller))
    ensures BitsWave(controller, highSpeed, a + b)
              == Concat(BitsWave(controller, highSpeed, a), BitsWave(controller, highSpeed, b))
    decreases |b|
  {
    if b == [] {
      assert a + b == a;
    } else {
      var init, last := b[..|b| - 1], b[|b| - 1];
      assert (a + b)[..|a + b| - 1] == a + init;
      assert (a + b)[|a + b| - 1] == last;
      BitsWaveAppend(controller, highSpeed, a, init);
      ConcatAssociative(BitsWave(controller, highSpeed, a), BitsWave(controller, highSpeed, init),
                        BitWave(controller, highSpeed, last));
    }
  }

  /** WriteUIntData's order: the pulse pairs of a word are those of its bits as a
      BitExtractor hands them out, most significant first. */
  lemma {:induction false} WordWaveMsbFirst(controller: nat, highSpeed: bool, value: nat, bitCount: nat)
    requires ValidController(controller) && (highSpeed ==> IsHighSpeedSupported(controller))
    ensures WordWave(controller, highSpeed, value, bitCount) == BitsWave(controller, highSpeed, MsbBits(value, bitCount))
  {
    if bitCount > 0 {
      WordWaveMsbFirst(controller, highSpeed, value / 2, bitCount - 1);
      var bits := MsbBits(value, bitCount);
      assert bits[..|bits| - 1] == MsbBits(value / 2, bitCount - 1);
    }
  }

  /** The wire bits of channel values, each `size` bits wide and most significant first. */
  function WireBits(values: seq<u16>, size: nat): (bits: seq<BitState>)
    ensures |bits| == |values| * size
  {
    if values == [] then [] else MsbBits(values[0] as nat, size) + WireBits(values[1..], size)
  }

  lemma {:induction false} WireBitsSnoc(values: seq<u16>, v: u16, size: nat)
    ensures WireBits(values + [v], size) == WireBits(values, size) + MsbBits(v as nat, size)
  {
    if values == [] {
      assert WireBits([v], size) == MsbBits(v as nat, size) + WireBits([], size);
    } else {
      assert (values + [v])[1..] == values[1..] + [v];
      WireBitsSnoc(values[1..], v, size);
    }
  }

  /** Channel values in turn, each BitSize bits wide. */
  function ValuesWave(controller: nat, highSpeed: bool, values: seq<u16>): Wave
    requires ValidController(controller) && (highSpeed ==> IsHighSpeedSupported(controller))
  {
    if values == [] then Empty
    else
      Concat(ValuesWave(controller, highSpeed, values[..|values| - 1]),
             WordWave(controller, highSpeed, values[|values| - 1] as nat, BitSize(controller)))
  }

  /** WriteRGBTriple's channels one after the other: the pulse pairs of their wire bits. */
  lemma {:induction false} ValuesWaveBits(controller: nat, highSpeed: bool, values: seq<u16>)
    requires ValidController(controller) && (highSpeed ==> IsHighSpeedSupported(controller))
    ensures ValuesWave(controller, highSpeed, values) == BitsWave(controller, highSpeed, WireBits(values, BitSize(controller)))
    decreases |values|
  {
    if values != [] {
      var size := BitSize(controller);
      var init, last := values[..|values| - 1], values[|values| - 1];
      assert init + [last] == values;
      ValuesWaveBits(controller, highSpeed, init);
      WordWaveMsbFirst(controller, highSpeed, last as nat, size);
      WireBitsSnoc(init, last, size);
      BitsWaveAppend(controller, highSpeed, WireBits(init, size), MsbBits(last as nat, size));
    }
  }

  /** A colour: its three channels in the controller's wire order. */
  function TripleWave(controller: nat, highSpeed: bool, rgb: RGBValue): Wave
    requires ValidController(controller) && (highSpeed ==> IsHighSpeedSupported(controller))
  {
    ValuesWave(controller, highSpeed, ControllerOrder(GetColorLayout(controller), rgb))
  }

  /** The line low for the nominal reset time. */
  function ResetWave(controller: nat): Wave
    requires ValidController(controller)
  {
    Then(Empty, Segment(Low, ResetTiming(controller).nominal))
  }

  /** RandomRGBValue: three draws, each reduced modulo the maximum channel value, for red,
      green and blue in that order. */
  function RandomRgb(rand: imap<nat, nat>, draws: nat, maximum: nat): (rgb: RGBValue)
    requires 0 < maximum <= 0x1_0000 && Total(rand)
    ensures rgb.red as nat < maximum && rgb.green as nat < maximum && rgb.blue as nat < maximum
    ensures rgb.padding == 0
  {
    Rgb((rand[draws] % maximum) as u16, (rand[draws + 1] % maximum) as u16,
        (rand[draws + 2] % maximum) as u16)
  }

  /** rand() as a table: the value of every draw. */
  ghost predicate Total(rand: imap<nat, nat>)
  {
    forall k: nat :: k in rand
  }

  const WordsPerPacket: nat := 6
  const DrawsPerWord: nat := 3

  /** The first `count` random words of a packet, drawn from draw number `draws` on. */
  function WordsWave(controller: nat, highSpeed: bool, rand: imap<nat, nat>, draws: nat, maximum: nat,
                     count: nat): Wave
    requires ValidController(controller) && (highSpeed ==> IsHighSpeedSupported(controller))
    requires 0 < maximum <= 0x1_0000 && Total(rand)
  {
    if count == 0 then Empty
    else
      Concat(WordsWave(controller, highSpeed, rand, draws, maximum, count - 1),
             TripleWave(controller, highSpeed, RandomRgb(rand, draws + DrawsPerWord * (count - 1), maximum)))
  }

  function PacketWave(controller: nat, highSpeed: bool, rand: imap<nat, nat>, draws: nat, maximum: nat): Wave
    requires ValidController(controller) && (highSpeed ==> IsHighSpeedSupported(controller))
    requires 0 < maximum <= 0x1_0000 && Total(rand)
  {
    Concat(ResetWave(controller), WordsWave(controller, highSpeed, rand, draws, maximum, WordsPerPacket))
  }

  /** The generator state that changes from packet to packet. */
  datatype GenState = GenState(frameCount: u32, highSpeedMode: bool, draws: nat)

  /** The state after one packet: the 32-bit frame counter is incremented (wrapping), the
      speed mode toggles when the new count is a multiple of 7 and high-speed generation
      is enabled, and six words have drawn three values each. */
  function AfterPacket(doGenerateHighSpeedMode: bool, st: GenState): (r: GenState)
    ensures r.highSpeedMode != st.highSpeedMode <==> (r.frameCount % 7 == 0 && doGenerateHighSpeedMode)
    ensures r.frameCount as int == (st.frameCount as int + 1) % 0x1_0000_0000
    ensures r.draws == st.draws + WordsPerPacket * DrawsPerWord
  {
    var count := ((st.frameCount as int + 1) % 0x1_0000_0000) as u32;
    GenState(count, if count % 7 == 0 && doGenerateHighSpeedMode then !st.highSpeedMode else st.highSpeedMode,
             st.draws + WordsPerPacket * DrawsPerWord)
  }

  function StateAfter(doGenerateHighSpeedMode: bool, st: GenState, packets: nat): (r: GenState)
    ensures r.highSpeedMode ==> st.highSpeedMode || doGenerateHighSpeedMode
  {
    if packets == 0 then st else AfterPacket(doGenerateHighSpeedMode, StateAfter(doGenerateHighSpeedMode, st, packets - 1))
  }

  /** After k packets the 32-bit frame counter has advanced by k, modulo 2^32, and
      18 values have been drawn per packet. */
  lemma {:induction false} FrameCountAfter(doGenerateHighSpeedMode: bool, st: GenState, k: nat)
    ensures StateAfter(doGenerateHighSpeedMode, st, k).frameCount as int == (st.frameCount as int + k) % 0x1_0000_0000
    ensures StateAfter(doGenerateHighSpeedMode, st, k).draws == st.draws + WordsPerPacket * DrawsPerWord * k
  {
    if k > 0 {
      FrameCountAfter(doGenerateHighSpeedMode, st, k - 1);
      var m := 0x1_0000_0000;
      var x := st.frameCount as int + k - 1;
      DivMod(x, m);
      DivUnique(x + 1, m, x / m + (x % m + 1) / m, (x % m + 1) % m);
    }
  }

  /** Without high-speed generation the speed mode never changes. */
  lemma {:induction false} SpeedFixedWithoutHighSpeedGeneration(st: GenState, k: nat)
    ensures StateAfter(false, st, k).highSpeedMode == st.highSpeedMode
  {
    if k > 0 {
      SpeedFixedWithoutHighSpeedGeneration(st, k - 1);
    }
  }

  /** With high-speed generation, from frame 0 in low speed (the state after
      construction), the speed is high exactly in the odd runs of seven packets: it
      toggles after packets 7, 14, 21, and so on, while the counter has not wrapped. */
  lemma {:induction false} SpeedCadence(draws: nat, k: nat)
    requires k < 0x1_0000_0000
    ensures StateAfter(true, GenState(0, false, draws), k).frameCount as int == k
    ensures StateAfter(true, GenState(0, false, draws), k).highSpeedMode == ((k / 7) % 2 == 1)
  {
    if k > 0 {
      SpeedCadence(draws, k - 1);
      var q, r := (k - 1) / 7, (k - 1) % 7;
      DivMod(k - 1, 7);
      if r == 6 {
        DivUnique(k, 7, q + 1, 0);
      } else {
        DivUnique(k, 7, q, r + 1);
      }
    }
  }

  /** The first `packets` packets written from state st on. */
  function PacketsWave(controller: nat, doGenerateHighSpeedMode: bool, rand: imap<nat, nat>, maximum: nat,
                       st: GenState, packets: nat): Wave
    requires ValidController(controller) && 0 < maximum <= 0x1_0000 && Total(rand)
    requires st.highSpeedMode || doGenerateHighSpeedMode ==> IsHighSpeedSupported(controller)
  {
    if packets == 0 then Empty
    else
      var s := StateAfter(doGenerateHighSpeedMode, st, packets - 1);
      Concat(PacketsWave(controller, doGenerateHighSpeedMode, rand, maximum, st, packets - 1),
             PacketWave(controller, s.highSpeedMode, rand, s.draws, maximum))
  }

  // ---------------------------------------------------------------------------
  // The generator

  class AsyncRgbLedSimulationDataGenerator {
    /** The selected catalogue entry of the settings (mSettings). */
    var controller: nat
    var simulationSampleRateHz: u32
    var maximumChannelValue: u32
    var frameCount: u32
    var doGenerateHighSpeedMode: bool
    var highSpeedMode: bool
    /** The values drawn from rand() since srand(42). */
    var draws: nat
    const ledSimulationData: SimulationChannelDescriptor

    ghost predicate Valid()
      reads this, ledSimulationData
    {
      && ValidController(controller)
      && simulationSampleRateHz > 0
      && 0 < maximumChannelValue as nat <= 0x1_0000
      && (doGenerateHighSpeedMode ==> IsHighSpeedSupported(controller))
      && (highSpeedMode ==> doGenerateHighSpeedMode)
      && ledSimulationData.sampleRateHz == simulationSampleRateHz as nat
    }

    function State(): GenState
      reads this
    {
      GenState(frameCount, highSpeedMode, draws)
    }

    /** The member initialisers of the class; the settings and the sample rate are set by
        Initialize. */
    constructor ()
      ensures maximumChannelValue == 255 && frameCount == 0
      ensures !doGenerateHighSpeedMode && !highSpeedMode
      ensures fresh(ledSimulationData) && ledSimulationData.waveform == Empty
    {
      maximumChannelValue := 255;
      frameCount := 0;
      doGenerateHighSpeedMode := false;
      highSpeedMode := false;
      ledSimulationData := new SimulationChannelDescriptor();
    }

    /** Initialize: seeds rand(), takes the settings and the sample rate, sets the maximum
        channel value to 2^BitSize - 1, starts the waveform low, and enables high-speed
        generation when the controller supports it and the rate is above 18 MHz. */
    method Initialize(simulationSampleRate: u32, settingsController: nat)
      requires ValidController(settingsController)
      modifies this, ledSimulationData
      ensures controller == settingsController && simulationSampleRateHz == simulationSampleRate && draws == 0
      ensures maximumChannelValue as nat == Pow2(BitSize(controller)) - 1
      ensures doGenerateHighSpeedMode ==
                (old(doGenerateHighSpeedMode) || (IsHighSpeedSupported(controller) && simulationSampleRate > 18_000_000))
      ensures frameCount == old(frameCount) && highSpeedMode == old(highSpeedMode)
      ensures ledSimulationData.sampleRateHz == simulationSampleRate as nat
      ensures ledSimulationData.currentLevel == Low && ledSimulationData.waveform == Empty
      ensures simulationSampleRate > 0 && !old(doGenerateHighSpeedMode) && !old(highSpeedMode) ==> Valid()
    {
      draws := 0;
      simulationSampleRateHz := simulationSampleRate;
      controller := settingsController;
      Pow2BitSize(controller);
      maximumChannelValue := (Pow2(BitSize(controller)) - 1) as u32;
      ledSimulationData.SetSampleRate(simulationSampleRate as nat);
      ledSimulationData.SetInitialBitState(Low);
      if IsHighSpeedSupported(controller) {
        if simulationSampleRateHz > 18_000_000 {
          doGenerateHighSpeedMode := true;
        }
      }
    }

    /** WriteBit: from a low line, one pulse pair of the current speed mode; the line
        ends low. */
    method WriteBit(b: bool)
      requires Valid() && ledSimulationData.currentLevel == Low
      modifies ledSimulationData
      ensures Valid() && ledSimulationData.currentLevel == Low
      ensures ledSimulationData.waveform ==
                Concat(old(ledSimulationData.waveform), BitWave(controller, highSpeedMode, if b then High else Low))
    {
      var bs := if b then High else Low;
      var timing := DataTiming(controller, bs, highSpeedMode);
      var highNs := timing.positive.nominal;
      var lowNs := timing.negative.nominal;
      ledSimulationData.Transition();
      ledSimulationData.Advance(highNs);
      ledSimulationData.Transition();
      ledSimulationData.Advance(lowNs);
      assert Concat(old(ledSimulationData.waveform), Then(Empty, Segment(High, highNs)))
               == Then(old(ledSimulationData.waveform), Segment(High, highNs));
    }

    /** WriteUIntData: `bitCount` bits of the value, most significant first; the SDK's
        BitExtractor hands out bit bitCount - 1 - i of the value as the i-th bit. */
    method WriteUIntData(data: u16, bitCount: u8)
      requires Valid() && ledSimulationData.currentLevel == Low
      modifies ledSimulationData
      ensures Valid() && ledSimulationData.currentLevel == Low
      ensures ledSimulationData.waveform ==
                Concat(old(ledSimulationData.waveform), WordWave(controller, highSpeedMode, data as nat, bitCount as nat))
    {
      ghost var w0 := ledSimulationData.waveform;
      ghost var bits := MsbBits(data as nat, bitCount as nat);
      var bit: nat := 0;
      while bit < bitCount as nat
        invariant bit <= bitCount as nat
        invariant Valid() && ledSimulationData.currentLevel == Low
        invariant ledSimulationData.waveform == Concat(w0, BitsWave(controller, highSpeedMode, bits[..bit]))
      {
        var next := data as nat / Pow2(bitCount as nat - 1 - bit) % 2 == 1;
        MsbBitsAt(data as nat, bitCount as nat, bit);
        BitsWavePrefix(controller, highSpeedMode, bits, bit);
        ConcatAssociative(w0, BitsWave(controller, highSpeedMode, bits[..bit]),
                          BitWave(controller, highSpeedMode, bits[bit]));
        WriteBit(next);
        bit := bit + 1;
      }
      assert bits[..bit] == bits;
      WordWaveMsbFirst(controller, highSpeedMode, data as nat, bitCount as nat);
    }

    /** WriteRGBTriple: the three channels in the controller's wire order, each BitSize
        bits wide. */
    method WriteRGBTriple(rgb: RGBValue)
      requires Valid() && ledSimulationData.currentLevel == Low
      modifies ledSimulationData
      ensures Valid() && ledSimulationData.currentLevel == Low
      ensures ledSimulationData.waveform ==
                Concat(old(ledSimulationData.waveform), TripleWave(controller, highSpeedMode, rgb))
    {
      var values := new u16[3];
      ConvertToControllerOrder(rgb, GetColorLayout(controller), values);
      ghost var order := ControllerOrder(GetColorLayout(controller), rgb);
      assert values[..] == values[..3] == order;
      ghost var w0 := ledSimulationData.waveform;
      var bitSize := BitSize(controller) as u8;
      var i := 0;
      while i < 3
        invariant 0 <= i <= 3
        invariant Valid() && ledSimulationData.currentLevel == Low
        invariant values[..] == order
        invariant ledSimulationData.waveform == Concat(w0, ValuesWave(controller, highSpeedMode, order[..i]))
      {
        assert order[..i + 1][..i] == order[..i];
        ConcatAssociative(w0, ValuesWave(controller, highSpeedMode, order[..i]),
                          WordWave(controller, highSpeedMode, order[i] as nat, BitSize(controller)));
        WriteUIntData(values[i], bitSize);
        i := i + 1;
      }
      assert order[..i] == order;
    }

    /** WriteReset: from a low line, low for the nominal reset time. */
    method WriteReset()
      requires Valid() && ledSimulationData.currentLevel == Low
      modifies ledSimulationData
      ensures Valid() && ledSimulationData.currentLevel == Low
      ensures ledSimulationData.waveform == Concat(old(ledSimulationData.waveform), ResetWave(controller))
    {
      ledSimulationData.Advance(ResetTiming(controller).nominal);
    }

    /** RandomRGBValue: the next three draws, below the maximum channel value. */
    method RandomRGBValue(rand: imap<nat, nat>) returns (rgb: RGBValue)
      requires Total(rand)
      requires Valid()
      modifies this`draws
      ensures draws == old(draws) + DrawsPerWord
      ensures rgb == RandomRgb(rand, old(draws), maximumChannelValue as nat)
    {
      var red := (rand[draws] % maximumChannelValue as nat) as u16;
      var green := (rand[draws + 1] % maximumChannelValue as nat) as u16;
      var blue := (rand[draws + 2] % maximumChannelValue as nat) as u16;
      draws := draws + 3;
      rgb := Rgb(red, green, blue);
    }

    /** CreateRGBWord, as the t-th word of a run of words drawn from draw number d0 on. */
    method CreateRGBWord(rand: imap<nat, nat>, ghost start: Wave, ghost d0: nat, ghost t: nat)
      requires Total(rand)
      requires Valid() && ledSimulationData.currentLevel == Low
      requires draws == d0 + DrawsPerWord * t
      requires ledSimulationData.waveform
                 == Concat(start, WordsWave(controller, highSpeedMode, rand, d0, maximumChannelValue as nat, t))
      modifies this`draws, ledSimulationData
      ensures Valid() && ledSimulationData.currentLevel == Low
      ensures draws == d0 + DrawsPerWord * (t + 1)
      ensures ledSimulationData.waveform
                == Concat(start, WordsWave(controller, highSpeedMode, rand, d0, maximumChannelValue as nat, t + 1))
    {
      ghost var words := WordsWave(controller, highSpeedMode, rand, d0, maximumChannelValue as nat, t);
      ghost var word := TripleWave(controller, highSpeedMode, RandomRgb(rand, draws, maximumChannelValue as nat));
      ConcatAssociative(start, words, word);
      var rgb := RandomRGBValue(rand);
      WriteRGBTriple(rgb);
    }

    /** The six random words of a packet. */
    method WriteWords(rand: imap<nat, nat>)
      requires Total(rand)
      requires Valid() && ledSimulationData.currentLevel == Low
      modifies this`draws, ledSimulationData
      ensures Valid() && ledSimulationData.currentLevel == Low
      ensures draws == old(draws) + WordsPerPacket * DrawsPerWord
      ensures ledSimulationData.waveform == Concat(old(ledSimulationData.waveform),
                WordsWave(controller, highSpeedMode, rand, old(draws), maximumChannelValue as nat, WordsPerPacket))
    {
      ghost var start, d0 := ledSimulationData.waveform, draws;
      var t := 0;
      while t < WordsPerPacket
        invariant 0 <= t <= WordsPerPacket
        invariant Valid() && ledSimulationData.currentLevel == Low
        invariant draws == d0 + DrawsPerWord * t
        invariant ledSimulationData.waveform
                    == Concat(start, WordsWave(controller, highSpeedMode, rand, d0, maximumChannelValue as nat, t))
      {
        CreateRGBWord(rand, start, d0, t);
        t := t + 1;
      }
    }

    /** The end of a packet: the 32-bit frame counter is incremented, and the speed mode
        toggles every seventh frame when high-speed generation is enabled. */
    method AdvanceFrame()
      requires Valid()
      modifies this`frameCount, this`highSpeedMode
      ensures Valid()
      ensures frameCount as int == (old(frameCount) as int + 1) % 0x1_0000_0000
      ensures highSpeedMode == if frameCount % 7 == 0 && doGenerateHighSpeedMode then !old(highSpeedMode)
                               else old(highSpeedMode)
    {
      frameCount := ((frameCount as int + 1) % 0x1_0000_0000) as u32;
      if frameCount % 7 == 0 && doGenerateHighSpeedMode {
        highSpeedMode := !highSpeedMode;
      }
    }

    /** One pass of the packet loop of GenerateSimulationData: a reset, six random words,
        then the frame counter and the speed-mode toggle. */
    method WritePacket(rand: imap<nat, nat>)
      requires Total(rand)
      requires Valid() && ledSimulationData.currentLevel == Low
      modifies this`frameCount, this`highSpeedMode, this`draws, ledSimulationData
      ensures Valid() && ledSimulationData.currentLevel == Low
      ensures State() == AfterPacket(doGenerateHighSpeedMode, old(State()))
      ensures ledSimulationData.waveform == Concat(old(ledSimulationData.waveform),
                PacketWave(controller, old(highSpeedMode), rand, old(draws), maximumChannelValue as nat))
    {
      ghost var w0 := ledSimulationData.waveform;
      WriteReset();
      WriteWords(rand);
      ConcatAssociative(w0, ResetWave(controller),
                        WordsWave(controller, highSpeedMode, rand, old(draws), maximumChannelValue as nat, WordsPerPacket));
      AdvanceFrame();
    }

    /** The state of the packet loop after k packets: the settings are those of g, the
        waveform is g.w0 followed by those packets, each of which started below the
        target sample. */
    ghost predicate Progress(g: Packing, rand: imap<nat, nat>, k: nat, target: nat)
      requires Total(rand)
      reads this, ledSimulationData
    {
      && Valid() && ledSimulationData.currentLevel == Low
      && g.controller == controller && g.maximum == maximumChannelValue as nat
      && g.doGenerateHighSpeedMode == doGenerateHighSpeedMode && g.rateHz == simulationSampleRateHz as nat
      && (g.st0.highSpeedMode ==> g.doGenerateHighSpeedMode)
      && State() == StateAfter(g.doGenerateHighSpeedMode, g.st0, k)
      && ledSimulationData.waveform
           == Concat(g.w0, PacketsWave(g.controller, g.doGenerateHighSpeedMode, rand, g.maximum, g.st0, k))
      && StartedBelow(g.w0, g.controller, g.doGenerateHighSpeedMode, rand, g.maximum, g.st0, k, g.rateHz, target)
    }

    /** The pass of the packet loop that writes packet number k, when the waveform is
        still below the target sample. */
    method WriteNextPacket(rand: imap<nat, nat>, target: nat, ghost g: Packing, ghost k: nat)
      requires Total(rand)
      requires Progress(g, rand, k, target) && ledSimulationData.GetCurrentSampleNumber() < target
      modifies this`frameCount, this`highSpeedMode, this`draws, ledSimulationData
      ensures Progress(g, rand, k + 1, target)
      ensures Duration(old(ledSimulationData.waveform)) * g.rateHz < Duration(ledSimulationData.waveform) * g.rateHz
    {
      ghost var wk := ledSimulationData.waveform;
      ghost var sk := State();
      WritePacket(rand);
      ghost var packet := PacketWave(g.controller, sk.highSpeedMode, rand, sk.draws, g.maximum);
      ConcatAssociative(g.w0, PacketsWave(g.controller, g.doGenerateHighSpeedMode, rand, g.maximum, g.st0, k), packet);
      PacketAdvances(g.controller, sk.highSpeedMode, rand, sk.draws, g.maximum, wk, g.rateHz);
    }

    /** GenerateSimulationData: whole packets until the waveform reaches the requested
        sample. It returns the number of simulated channels, 1. `packets` is the number of
        packets written: every one started below the target, and the waveform now
        reaches it. */
    method GenerateSimulationData(adjustedLargestSampleRequested: nat, rand: imap<nat, nat>)
      returns (channels: nat, ghost packets: nat)
      requires Total(rand)
      requires Valid() && ledSimulationData.currentLevel == Low
      modifies this, ledSimulationData
      ensures channels == 1
      ensures Valid() && ledSimulationData.currentLevel == Low
      ensures controller == old(controller) && simulationSampleRateHz == old(simulationSampleRateHz)
      ensures maximumChannelValue == old(maximumChannelValue)
      ensures doGenerateHighSpeedMode == old(doGenerateHighSpeedMode)
      ensures State() == StateAfter(doGenerateHighSpeedMode, old(State()), packets)
      ensures ledSimulationData.waveform == Concat(old(ledSimulationData.waveform),
                PacketsWave(controller, doGenerateHighSpeedMode, rand, maximumChannelValue as nat, old(State()), packets))
      ensures ledSimulationData.GetCurrentSampleNumber() >= adjustedLargestSampleRequested
      ensures StartedBelow(old(ledSimulationData.waveform), controller, doGenerateHighSpeedMode, rand,
                           maximumChannelValue as nat, old(State()), packets, simulationSampleRateHz as nat,
                           adjustedLargestSampleRequested)
    {
      ghost var g := Packing(controller, maximumChannelValue as nat, doGenerateHighSpeedMode,
                             simulationSampleRateHz as nat, ledSimulationData.waveform, State());
      packets := 0;
      while ledSimulationData.GetCurrentSampleNumber() < adjustedLargestSampleRequested
        invariant Progress(g, rand, packets, adjustedLargestSampleRequested)
        decreases adjustedLargestSampleRequested * Second - Duration(ledSimulationData.waveform) * g.rateHz
      {
        BelowTarget(Duration(ledSimulationData.waveform), g.rateHz, adjustedLargestSampleRequested);
        WriteNextPacket(rand, adjustedLargestSampleRequested, g, packets);
        packets := packets + 1;
      }
      channels := 1;
    }
  }

  /** What the packet loop keeps fixed, and where it started. */
  datatype Packing = Packing(controller: nat, maximum: nat, doGenerateHighSpeedMode: bool, rateHz: nat,
                             w0: Wave, st0: GenState)

  /** Each of the first `packets` packets written from w on started below the target
      sample. */
  ghost predicate StartedBelow(w: Wave, controller: nat, doGenerateHighSpeedMode: bool, rand: imap<nat, nat>,
                               maximum: nat, st: GenState, packets: nat, rateHz: nat, target: nat)
    requires ValidController(controller) && 0 < maximum <= 0x1_0000 && Total(rand)
    requires st.highSpeedMode || doGenerateHighSpeedMode ==> IsHighSpeedSupported(controller)
  {
    packets == 0 ||
    (&& StartedBelow(w, controller, doGenerateHighSpeedMode, rand, maximum, st, packets - 1, rateHz, target)
     && SampleNumber(Concat(w, PacketsWave(controller, doGenerateHighSpeedMode, rand, maximum, st, packets - 1)),
                     rateHz) < target)
  }

  lemma BelowTarget(duration: nat, rateHz: nat, target: nat)
    requires duration * rateHz / Second < target
    ensures duration * rateHz < target * Second
  {
    var x := duration * rateHz;
    DivMod(x, Second);
    assert x < Second * (x / Second + 1);
  }

  /** A packet lasts at least its reset, which is at least one nanosecond, so at a
      positive rate it moves the waveform on. */
  lemma PacketAdvances(controller: nat, highSpeed: bool, rand: imap<nat, nat>, draws: nat, maximum: nat,
                       w: Wave, rateHz: nat)
    requires ValidController(controller) && (highSpeed ==> IsHighSpeedSupported(controller))
    requires 0 < maximum <= 0x1_0000 && rateHz > 0 && Total(rand)
    ensures Duration(Concat(w, PacketWave(controller, highSpeed, rand, draws, maximum))) * rateHz
              >= Duration(w) * rateHz + 1
  {
    var packet := PacketWave(controller, highSpeed, rand, draws, maximum);
    DurationConcat(w, packet);
    DurationConcat(ResetWave(controller), WordsWave(controller, highSpeed, rand, draws, maximum, WordsPerPacket));
    MulStep(Duration(Concat(w, packet)), Duration(w), rateHz);
  }

  lemma MulStep(a: nat, b: nat, r: nat)
    requires a >= b + 1 && r > 0
    ensures a * r >= b * r + 1
  {
    assert a * r >= (b + 1) * r;
  }
}
