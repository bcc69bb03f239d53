/**
 * The controller catalogue of AsyncRgbLedAnalyzerSettings (InitControllerData) and
 * its accessors. The catalogue is an immutable table; the selected controller is an
 * index into it, and every accessor reads the entry at that index (`mControllers.at`,
 * which throws for an index past the end: here a precondition).
 * All durations are integer nanoseconds.
 */
module Settings {
  import opened Helpers

  /** The timings of one speed mode: mDataTiming[BIT_LOW] and mDataTiming[BIT_HIGH]. */
  datatype SpeedTable = SpeedTable(zero: BitTiming, one: BitTiming)
  {
    function At(value: BitState): BitTiming
    {
      if value == Low then zero else one
    }
  }

  /** LedControllerData, without the UI-only description string. */
  datatype LedControllerData = LedControllerData(
    name: string,
    bitsPerChannel: nat,
    channelCount: nat,
    resetTiming: TimingTolerance,
    dataTiming: SpeedTable,
    hasHighSpeed: bool,
    dataTimingHighSpeed: SpeedTable,
    layout: ColorLayout)

  /** The Controller enum; its eight constants name catalogue entries 0 to 7. */
  datatype Controller =
    | LedWs2811 | LedWs2812b | LedWs2813 | LedTm1809 | LedTm1804 | LedUcs1903
    | LedLpd1886With8Bit | LedLpd1886With12Bit

  function ControllerIndex(c: Controller): nat
  {
    match c
    case LedWs2811 => 0
    case LedWs2812b => 1
    case LedWs2813 => 2
    case LedTm1809 => 3
    case LedTm1804 => 4
    case LedUcs1903 => 5
    case LedLpd1886With8Bit => 6
    case LedLpd1886With12Bit => 7
  }

  function Tol(minimum: nat, nominal: nat, maximum: nat): TimingTolerance
  {
    TimingTolerance(minimum, nominal, maximum)
  }

  function Bit(positive: TimingTolerance, negative: TimingTolerance): BitTiming
  {
    BitTiming(positive, negative)
  }

  /** A default-constructed BitTiming: all three values of both windows are 0. */
  const NoTiming: BitTiming := Bit(Tol(0, 0, 0), Tol(0, 0, 0))
  const NoSpeedTable: SpeedTable := SpeedTable(NoTiming, NoTiming)

  const Us: nat := 1000
  const Second: nat := 1_000_000_000

  /** InitControllerData: the catalogue, in the order of the Controller enum. */
  const Controllers: seq<LedControllerData> := [
    LedControllerData("WS2811", 8, 3, Tol(50 * Us, 50 * Us, 50 * Us),
      SpeedTable(Bit(Tol(350, 500, 650), Tol(1850, 2000, 2150)),
                 Bit(Tol(1050, 1200, 1350), Tol(1150, 1300, 1450))),
      true,
      SpeedTable(Bit(Tol(175, 250, 325), Tol(925, 1000, 1075)),
                 Bit(Tol(525, 600, 675), Tol(1225, 1300, 1375))),
      LayoutRgb),
    LedControllerData("WS2812B", 8, 3, Tol(50 * Us, 50 * Us, 50 * Us),
      SpeedTable(Bit(Tol(200, 400, 550), Tol(700, 850, 1050)),
                 Bit(Tol(650, 800, 1050), Tol(200, 450, 600))),
      false, NoSpeedTable, LayoutGrb),
    LedControllerData("WS2813", 8, 3, Tol(50 * Us, 50 * Us, 50 * Us),
      SpeedTable(Bit(Tol(300, 375, 450), Tol(300, 875, 100 * Us)),
                 Bit(Tol(750, 875, 1000), Tol(300, 375, 100 * Us))),
      false, NoSpeedTable, LayoutGrb),
    LedControllerData("TM1809", 8, 9, Tol(24 * Us, 24 * Us, Second),
      SpeedTable(Bit(Tol(450, 600, 750), Tol(1050, 1200, 1350)),
                 Bit(Tol(1050, 1200, 1350), Tol(450, 600, 750))),
      true,
      SpeedTable(Bit(Tol(250, 320, 390), Tol(530, 600, 670)),
                 Bit(Tol(530, 600, 670), Tol(250, 320, 390))),
      LayoutRgb),
    LedControllerData("TM1804", 8, 3, Tol(10 * Us, 10 * Us, Second),
      SpeedTable(Bit(Tol(850, 1 * Us, 1150), Tol(1850, 2 * Us, 2150)),
                 Bit(Tol(1850, 2 * Us, 2150), Tol(850, 1 * Us, 1150))),
      false, NoSpeedTable, LayoutRgb),
    LedControllerData("UCS1903", 8, 3, Tol(24 * Us, 24 * Us, Second),
      SpeedTable(Bit(Tol(350, 500, 650), Tol(1850, 2000, 2150)),
                 Bit(Tol(1850, 2000, 2150), Tol(350, 500, 650))),
      true,
      SpeedTable(Bit(Tol(175, 250, 325), Tol(925, 1000, 1075)),
                 Bit(Tol(925, 1000, 1075), Tol(175, 250, 325))),
      LayoutRgb),
    LedControllerData("LPD1886 - 24 bit", 8, 3, Tol(24 * Us, 30 * Us, Second),
      SpeedTable(Bit(Tol(150, 200, 280), Tol(500, 600, 10 * Us)),
                 Bit(Tol(450, 600, 9 * Us), Tol(150, 200, 10 * Us))),
      false, NoSpeedTable, LayoutRgb),
    LedControllerData("LPD1886 - 36 bit", 12, 3, Tol(24 * Us, 30 * Us, Second),
      SpeedTable(Bit(Tol(150, 200, 280), Tol(500, 600, 10 * Us)),
                 Bit(Tol(450, 600, 9 * Us), Tol(150, 200, 10 * Us))),
      false, NoSpeedTable, LayoutRgb),
    LedControllerData("SK6812 RGBW", 8, 4, Tol(50 * Us, 50 * Us, 50 * Us),
      SpeedTable(Bit(Tol(200, 400, 550), Tol(700, 850, 1050)),
                 Bit(Tol(650, 800, 1050), Tol(200, 450, 600))),
      false, NoSpeedTable, LayoutGrb)
  ]

  /** What every catalogue entry satisfies. */
  predicate EntryWellFormed(e: LedControllerData)
  {
    && (e.bitsPerChannel == 8 || e.bitsPerChannel == 12)
    && (e.channelCount == 3 || e.channelCount == 4 || e.channelCount == 9)
    && e.resetTiming.WellFormed() && e.resetTiming.minimum > 0
    && e.dataTiming.zero.WellFormed() && e.dataTiming.one.WellFormed()
    && e.dataTimingHighSpeed.zero.WellFormed() && e.dataTimingHighSpeed.one.WellFormed()
    && (!e.hasHighSpeed ==> e.dataTimingHighSpeed == NoSpeedTable)
  }

  /** Every entry has 8 or 12 bits per channel, 3, 4 or 9 channels, well-formed windows
      (min <= nominal <= max) and a positive reset minimum; an entry without high-speed
      support carries empty high-speed tables. */
  lemma CatalogueWellFormed()
    ensures |Controllers| == ControllerCount
    ensures forall i :: 0 <= i < |Controllers| ==> EntryWellFormed(Controllers[i])
  {
    forall i | 0 <= i < |Controllers|
      ensures EntryWellFormed(Controllers[i])
    {
      if i == 0 { assert EntryWellFormed(Controllers[0]); }
      else if i == 1 { assert EntryWellFormed(Controllers[1]); }
      else if i == 2 { assert EntryWellFormed(Controllers[2]); }
      else if i == 3 { assert EntryWellFormed(Controllers[3]); }
      else if i == 4 { assert EntryWellFormed(Controllers[4]); }
      else if i == 5 { assert EntryWellFormed(Controllers[5]); }
      else if i == 6 { assert EntryWellFormed(Controllers[6]); }
      else if i == 7 { assert EntryWellFormed(Controllers[7]); }
      else { assert EntryWellFormed(Controllers[8]); }
    }
  }

  /** Entries 0 to 7 are the controllers the enum names, in enum order; entry 8
      (SK6812 RGBW) has no enum constant. */
  lemma CatalogueFollowsEnum(c: Controller)
    ensures ControllerIndex(c) < |Controllers| - 1
    ensures Controllers[ControllerIndex(c)].name ==
              match c
              case LedWs2811 => "WS2811"
              case LedWs2812b => "WS2812B"
              case LedWs2813 => "WS2813"
              case LedTm1809 => "TM1809"
              case LedTm1804 => "TM1804"
              case LedUcs1903 => "UCS1903"
              case LedLpd1886With8Bit => "LPD1886 - 24 bit"
              case LedLpd1886With12Bit => "LPD1886 - 36 bit"
    ensures c == LedLpd1886With8Bit ==> Controllers[ControllerIndex(c)].bitsPerChannel == 8
    ensures c == LedLpd1886With12Bit ==> Controllers[ControllerIndex(c)].bitsPerChannel == 12
    ensures forall d: Controller :: ControllerIndex(d) == ControllerIndex(c) ==> d == c
  {
  }

  // ---------------------------------------------------------------------------
  // Accessors: each reads the selected entry

  /** The number of catalogue entries (CatalogueWellFormed shows it is the length of the
      catalogue). */
  const ControllerCount: nat := 9

  predicate ValidController(controller: nat)
  {
    controller < ControllerCount
  }

  /** BitSize: bits per LED channel. */
  function BitSize(controller: nat): (bits: nat)
    requires ValidController(controller)
    ensures bits == 8 || bits == 12
  {
    CatalogueWellFormed();
    Controllers[controller].bitsPerChannel
  }

  /** LEDChannelCount: channels per colour word. */
  function LedChannelCount(controller: nat): (count: nat)
    requires ValidController(controller)
    ensures count == 3 || count == 4 || count == 9
  {
    CatalogueWellFormed();
    Controllers[controller].channelCount
  }

  function IsHighSpeedSupported(controller: nat): bool
    requires ValidController(controller)
  {
    CatalogueWellFormed();
    Controllers[controller].hasHighSpeed
  }

  /** A channel value has 2^8 or 2^12 values, so it fits the 16-bit fields of RGBValue. */
  lemma Pow2BitSize(controller: nat)
    requires ValidController(controller)
    ensures Pow2(BitSize(controller)) == 256 || Pow2(BitSize(controller)) == 4096
    ensures Pow2(BitSize(controller)) <= 0x1_0000
  {
    assert Pow2(8) == 256 && Pow2(12) == 4096;
  }

  /** DataTiming: the timing of one bit value in the requested speed mode. High speed
      may only be requested of a controller that supports it (the source asserts it). */
  function DataTiming(controller: nat, value: BitState, isHighSpeed: bool): (t: BitTiming)
    requires ValidController(controller)
    requires !isHighSpeed || IsHighSpeedSupported(controller)
    ensures t.WellFormed()
  {
    CatalogueWellFormed();
    var c := Controllers[controller];
    if isHighSpeed then c.dataTimingHighSpeed.At(value) else c.dataTiming.At(value)
  }

  /** ResetTiming: the low time beyond which the line is in reset. */
  function ResetTiming(controller: nat): (t: TimingTolerance)
    requires ValidController(controller)
    ensures t.WellFormed() && t.minimum > 0
  {
    CatalogueWellFormed();
    Controllers[controller].resetTiming
  }

  function GetColorLayout(controller: nat): ColorLayout
    requires ValidController(controller)
  {
    CatalogueWellFormed();
    Controllers[controller].layout
  }

  /** DataTiming yields the high-speed entry exactly when high speed is requested:
      for every controller that supports high speed the two tables differ in every bit
      value, the high-speed pulse being the shorter one. */
  lemma DataTimingSelectsSpeed(controller: nat, value: BitState)
    requires ValidController(controller) && IsHighSpeedSupported(controller)
    ensures DataTiming(controller, value, true).positive.nominal < DataTiming(controller, value, false).positive.nominal
    ensures DataTiming(controller, value, true).negative.nominal <= DataTiming(controller, value, false).negative.nominal
    ensures DataTiming(controller, value, true) != DataTiming(controller, value, false)
  {
    assert controller == 0 || controller == 3 || controller == 5;
  }

  /** Every controller without high-speed support has empty high-speed tables. */
  lemma NoHighSpeedMeansEmptyTables(controller: nat)
    requires ValidController(controller) && !IsHighSpeedSupported(controller)
    ensures Controllers[controller].dataTimingHighSpeed.zero == NoTiming
    ensures Controllers[controller].dataTimingHighSpeed.one == NoTiming
  {
    CatalogueWellFormed();
    assert EntryWellFormed(Controllers[controller]);
  }

  /** WS2811 cannot be classified by its positive pulse alone: 600 ns lies in both the
      low-speed 0-bit window [350, 650] and the high-speed 1-bit window [525, 675]. But
      the matching negative windows [1850, 2150] and [1225, 1375] are disjoint, so the
      joint (positive, negative) test accepts at most one of the four timings. */
  lemma Ws2811NeedsJointCheck(p: real, n: real)
    ensures DataTiming(0, Low, false).positive.WithinTolerance(600.0)
    ensures DataTiming(0, High, true).positive.WithinTolerance(600.0)
    ensures !(DataTiming(0, Low, false).negative.WithinTolerance(n) &&
              DataTiming(0, High, true).negative.WithinTolerance(n))
    ensures var joint := [DataTiming(0, Low, false), DataTiming(0, High, false),
                          DataTiming(0, Low, true), DataTiming(0, High, true)];
            forall i, j :: 0 <= i < j < 4 ==> !(joint[i].WithinTolerance(p, n) && joint[j].WithinTolerance(p, n))
  {
  }
}
