/**
 * Value types shared by the decoder, the controller catalogue and the simulation
 * encoder: timing windows, the colour value and its wire order, its 64-bit frame
 * packing and its reduction to 8-bit web colour (src/AsyncRgbLedHelpers.h and
 * src/AsyncRgbLedHelpers.cpp).
 *
 * Durations of the timing windows are integer nanoseconds; a measured time is a
 * `real` number of nanoseconds, so the window test needs no floating point.
 */
module Helpers {

  newtype u8 = x: int | 0 <= x < 0x100
  newtype u16 = x: int | 0 <= x < 0x1_0000
  newtype u32 = x: int | 0 <= x < 0x1_0000_0000
  newtype u64 = x: int | 0 <= x < 0x1_0000_0000_0000_0000

  datatype Option<T> = None | Some(value: T)

  /** The analyzer SDK's BitState: a line level, and also the value of a decoded bit. */
  datatype BitState = Low | High

  function Flip(b: BitState): BitState
  {
    if b == Low then High else Low
  }

  function Pow2(n: nat): (r: nat)
    ensures r >= 1
  {
    if n == 0 then 1 else 2 * Pow2(n - 1)
  }

  /** Concatenation is associative. Dafny does not apply this by itself; a record that is
      appended to step by step is related to its specification with it. */
  lemma AppendAssociative<T>(a: seq<T>, b: seq<T>, c: seq<T>)
    ensures a + b + c == a + (b + c)
  {
  }

  lemma {:induction false} Pow2Add(a: nat, b: nat)
    ensures Pow2(a + b) == Pow2(a) * Pow2(b)
  {
    if a > 0 {
      Pow2Add(a - 1, b);
      assert Pow2(a + b) == 2 * Pow2(a - 1 + b);
    }
  }

  lemma {:induction false} Pow2Monotone(a: nat, b: nat)
    requires a <= b
    ensures Pow2(a) <= Pow2(b)
  {
    if a < b {
      Pow2Monotone(a, b - 1);
    }
  }

  // ---------------------------------------------------------------------------
  // Timing windows

  /** A timing window [minimum, maximum] around a nominal duration, in nanoseconds. */
  datatype TimingTolerance = TimingTolerance(minimum: nat, nominal: nat, maximum: nat)
  {
    /** The window test of TimingTolerance::WithinTolerance: both bounds inclusive. */
    predicate WithinTolerance(t: real)
    {
      minimum as real <= t && t <= maximum as real
    }

    predicate WellFormed()
    {
      minimum <= nominal <= maximum
    }
  }

  /** The positive (high) and negative (low) pulse windows that encode one bit value. */
  datatype BitTiming = BitTiming(positive: TimingTolerance, negative: TimingTolerance)
  {
    /** BitTiming::WithinTolerance: each pulse must lie in its own window. */
    predicate WithinTolerance(positiveTime: real, negativeTime: real)
    {
      positive.WithinTolerance(positiveTime) && negative.WithinTolerance(negativeTime)
    }

    predicate WellFormed()
    {
      positive.WellFormed() && negative.WellFormed()
    }
  }

  /** Both bounds of a well-formed window are accepted, and so is every time between
      them; nothing outside them is. */
  lemma WithinToleranceInclusive(tol: TimingTolerance, t: real)
    requires tol.WellFormed()
    ensures tol.WithinTolerance(tol.minimum as real)
    ensures tol.WithinTolerance(tol.nominal as real)
    ensures tol.WithinTolerance(tol.maximum as real)
    ensures tol.WithinTolerance(t) <==> tol.minimum as real <= t <= tol.maximum as real
    ensures t < tol.minimum as real || t > tol.maximum as real ==> !tol.WithinTolerance(t)
  {
  }

  /** A bit timing accepts a pulse pair exactly when its positive window accepts the
      high time and its negative window accepts the low time. */
  lemma BitTimingWithinToleranceBoth(bt: BitTiming, p: real, n: real)
    ensures bt.WithinTolerance(p, n) <==>
              (bt.positive.minimum as real <= p <= bt.positive.maximum as real &&
               bt.negative.minimum as real <= n <= bt.negative.maximum as real)
    ensures !bt.positive.WithinTolerance(p) ==> !bt.WithinTolerance(p, n)
    ensures !bt.negative.WithinTolerance(n) ==> !bt.WithinTolerance(p, n)
  {
  }

  // ---------------------------------------------------------------------------
  // Colour values

  /** The two channel orders defined by ColorLayout. */
  datatype ColorLayout = LayoutRgb | LayoutGrb

  /** RGBValue: three 16-bit colour channels and a padding word, 8 bytes in all. */
  datatype RGBValue = RGBValue(red: u16, green: u16, blue: u16, padding: u16)

  /** The three-argument RGBValue constructor: padding keeps its default of 0. */
  function Rgb(r: u16, g: u16, b: u16): RGBValue
  {
    RGBValue(r, g, b, 0)
  }

  /** The three channel values as ConvertToControllerOrder stores them, in wire order. */
  function ControllerOrder(layout: ColorLayout, v: RGBValue): seq<u16>
  {
    match layout
    case LayoutGrb => [v.green, v.red, v.blue]
    case LayoutRgb => [v.red, v.green, v.blue]
  }

  /** RGBValue::ConvertToControllerOrder: writes values[0..2] and leaves the rest alone. */
  method ConvertToControllerOrder(v: RGBValue, layout: ColorLayout, values: array<u16>)
    requires values.Length >= 3
    modifies values
    ensures values[..3] == ControllerOrder(layout, v)
    ensures values[3..] == old(values[3..])
  {
    match layout
    case LayoutGrb =>
      values[0] := v.green;
      values[1] := v.red;
      values[2] := v.blue;
    case LayoutRgb =>
      values[0] := v.red;
      values[1] := v.green;
      values[2] := v.blue;
  }

  /** RGBValue::CreateFromControllerOrder: reads values[0..2] only. */
  function CreateFromControllerOrder(layout: ColorLayout, values: seq<u16>): RGBValue
    requires |values| >= 3
  {
    match layout
    case LayoutGrb => Rgb(values[1], values[0], values[2])
    case LayoutRgb => Rgb(values[0], values[1], values[2])
  }

  /** Reading back what ConvertToControllerOrder wrote restores red, green and blue
      (the padding comes back as 0), for both layouts. */
  lemma ControllerOrderRoundTrip(layout: ColorLayout, v: RGBValue)
    ensures |ControllerOrder(layout, v)| == 3
    ensures CreateFromControllerOrder(layout, ControllerOrder(layout, v)) == Rgb(v.red, v.green, v.blue)
  {
  }

  /** The other direction: re-ordering a decoded value gives back the first three wire
      values, and whatever follows them takes no part. */
  lemma CreateFromControllerOrderRoundTrip(layout: ColorLayout, values: seq<u16>)
    requires |values| >= 3
    ensures ControllerOrder(layout, CreateFromControllerOrder(layout, values)) == values[..3]
    ensures CreateFromControllerOrder(layout, values) == CreateFromControllerOrder(layout, values[..3])
  {
  }

  /** LAYOUT_RGB is the identity, LAYOUT_GRB swaps wire positions 0 and 1 and keeps 2.
      One unfolding of ControllerOrder, written out for the two common layouts. */
  lemma LayoutPermutations(v: RGBValue)
    ensures ControllerOrder(LayoutRgb, v) == [v.red, v.green, v.blue]
    ensures var g := ControllerOrder(LayoutGrb, v); var r := ControllerOrder(LayoutRgb, v);
            g[0] == r[1] && g[1] == r[0] && g[2] == r[2]
  {
  }

  // ---------------------------------------------------------------------------
  // The 64-bit frame word: a byte copy of the 8-byte struct, on a little-endian host

  /** RGBValue::ConvertToU64: red in bits 0-15, green 16-31, blue 32-47, padding 48-63. */
  function ConvertToU64(v: RGBValue): u64
  {
    (v.red as int + 0x1_0000 * v.green as int + 0x1_0000_0000 * v.blue as int
       + 0x1_0000_0000_0000 * v.padding as int) as u64
  }

  /** RGBValue::CreateFromU64: the four 16-bit fields of the word. */
  function CreateFromU64(raw: u64): RGBValue
  {
    var x := raw as int;
    RGBValue((x % 0x1_0000) as u16, (x / 0x1_0000 % 0x1_0000) as u16,
             (x / 0x1_0000_0000 % 0x1_0000) as u16, (x / 0x1_0000_0000_0000) as u16)
  }

  lemma U64RoundTrip(v: RGBValue)
    ensures CreateFromU64(ConvertToU64(v)) == v
  {
    var r, g, b, p := v.red as int, v.green as int, v.blue as int, v.padding as int;
    var x := ConvertToU64(v) as int;
    DivUnique(x, 0x1_0000, g + 0x1_0000 * b + 0x1_0000_0000 * p, r);
    DivUnique(x, 0x1_0000_0000, b + 0x1_0000 * p, r + 0x1_0000 * g);
    DivUnique(x, 0x1_0000_0000_0000, p, r + 0x1_0000 * g + 0x1_0000_0000 * b);
    DivUnique(g + 0x1_0000 * b + 0x1_0000_0000 * p, 0x1_0000, b + 0x1_0000 * p, g);
    DivUnique(b + 0x1_0000 * p, 0x1_0000, p, b);
  }

  lemma U64RoundTripRaw(raw: u64)
    ensures ConvertToU64(CreateFromU64(raw)) == raw
  {
    var x := raw as int;
    var r, h := x % 0x1_0000, x / 0x1_0000;
    DivMod(x, 0x1_0000);
    var g, h2 := h % 0x1_0000, h / 0x1_0000;
    DivMod(h, 0x1_0000);
    var b, p := h2 % 0x1_0000, h2 / 0x1_0000;
    DivMod(h2, 0x1_0000);
    assert x == r + 0x1_0000 * g + 0x1_0000_0000 * b + 0x1_0000_0000_0000 * p;
    DivUnique(x, 0x1_0000_0000, h2, r + 0x1_0000 * g);
    DivUnique(x, 0x1_0000_0000_0000, p, r + 0x1_0000 * g + 0x1_0000_0000 * b);
  }

  /** Euclidean division is determined by any quotient and remainder in range. */
  lemma DivUnique(x: int, m: int, q: int, r: int)
    requires m > 0 && 0 <= r < m && x == m * q + r
    ensures x / m == q && x % m == r
  {
    var q0, r0 := x / m, x % m;
    assert m * q0 + r0 == m * q + r;
    assert m * (q0 - q) == r - r0;
    if q0 > q {
      MulAtLeast(m, q0 - q);
    } else if q0 < q {
      assert m * (q - q0) == r0 - r;
      MulAtLeast(m, q - q0);
    }
  }

  lemma DivMod(x: int, m: int)
    requires m > 0
    ensures x == m * (x / m) + x % m && 0 <= x % m < m
  {
  }

  lemma MulAtLeast(m: int, d: int)
    requires m > 0 && d >= 1
    ensures m * d >= m
  {
    assert m * d == m * (d - 1) + m;
    assert m * (d - 1) >= 0;
  }

  // ---------------------------------------------------------------------------
  // Reduction to 8-bit web colour

  /** One channel of ConvertTo8Bit: shifted right by bitSize - 8, then truncated to a byte. */
  function To8Bit(c: u16, bitSize: nat): u8
    requires bitSize >= 8
  {
    ((c as int / Pow2(bitSize - 8)) % 0x100) as u8
  }

  /** RGBValue::ConvertTo8Bit: writes values[0..2] and leaves the rest alone. */
  method ConvertTo8Bit(v: RGBValue, bitSize: u8, values: array<u8>)
    requires bitSize >= 8
    requires values.Length >= 3
    modifies values
    ensures values[..3] == [To8Bit(v.red, bitSize as nat), To8Bit(v.green, bitSize as nat), To8Bit(v.blue, bitSize as nat)]
    ensures values[3..] == old(values[3..])
  {
    var shift := Pow2(bitSize as nat - 8);
    values[0] := ((v.red as int / shift) % 0x100) as u8;
    values[1] := ((v.green as int / shift) % 0x100) as u8;
    values[2] := ((v.blue as int / shift) % 0x100) as u8;
  }

  /** For 8-bit controllers the reduction is the identity on 8-bit channel values. */
  lemma To8BitIdentity(c: u16)
    requires c < 0x100
    ensures To8Bit(c, 8) == c as int as u8
  {
  }

  /** For a channel value that fits in bitSize bits the byte cast loses nothing: the
      result is the top 8 of the bitSize bits, and full scale maps to 255. */
  lemma {:induction false} To8BitKeepsTopBits(c: u16, bitSize: nat)
    requires bitSize >= 8
    requires (c as int) < Pow2(bitSize)
    ensures To8Bit(c, bitSize) as int == c as int / Pow2(bitSize - 8)
    ensures c as int == Pow2(bitSize) - 1 ==> To8Bit(c, bitSize) == 255
  {
    var k := Pow2(bitSize - 8);
    Pow2Add(bitSize - 8, 8);
    assert Pow2(8) == 256;
    TopByte(c as int, k);
  }

  /** A value below 256 k, divided by k, fits in a byte; the largest divides to 255. */
  lemma TopByte(x: int, k: int)
    requires k > 0 && 0 <= x < k * 256
    ensures 0 <= x / k < 256
    ensures x == k * 256 - 1 ==> x / k == 255
  {
    DivBelow(x, k, 256);
    if x == k * 256 - 1 {
      DivUnique(x, k, 255, k - 1);
    }
  }

  lemma DivBelow(x: int, k: int, n: int)
    requires k > 0 && 0 <= x < k * n
    ensures x / k < n
  {
    var q := x / k;
    assert k * q <= x;
  }
}
