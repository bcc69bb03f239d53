/**
 * Most-significant-bit-first bit order, as the analyzer SDK's DataBuilder (decoder side)
 * and BitExtractor (encoder side) apply it with AnalyzerEnums::MsbFirst. The SDK's own
 * classes are not part of this model; these functions state what the decoder and the
 * simulation encoder use them for.
 */
module Bits {
  import opened Helpers

  function BitOf(b: BitState): nat
  {
    if b == High then 1 else 0
  }

  /** The value of a run of bits, the first bit being the most significant. */
  function MsbValue(bits: seq<BitState>): nat
  {
    if bits == [] then 0 else 2 * MsbValue(bits[..|bits| - 1]) + BitOf(bits[|bits| - 1])
  }

  /** The n low bits of v, most significant first: what a BitExtractor hands out. */
  function MsbBits(v: nat, n: nat): (bits: seq<BitState>)
    ensures |bits| == n
  {
    if n == 0 then [] else MsbBits(v / 2, n - 1) + [if v % 2 == 1 then High else Low]
  }

  /** A run of n bits has a value below 2^n. */
  lemma {:induction false} MsbValueBound(bits: seq<BitState>)
    ensures MsbValue(bits) < Pow2(|bits|)
  {
    if bits != [] {
      MsbValueBound(bits[..|bits| - 1]);
    }
  }

  /** Appending one bit doubles the value and adds the bit. A proof step, one unfolding
      of MsbValue, for MsbValueOfBits and ChannelBitAdded. */
  lemma MsbValueSnoc(bits: seq<BitState>, b: BitState)
    ensures MsbValue(bits + [b]) == 2 * MsbValue(bits) + BitOf(b)
  {
    assert (bits + [b])[..|bits|] == bits;
  }

  /** Extracting n bits and building them back gives the value modulo 2^n. */
  lemma {:induction false} MsbValueOfBits(v: nat, n: nat)
    ensures MsbValue(MsbBits(v, n)) == v % Pow2(n)
  {
    if n > 0 {
      var b := if v % 2 == 1 then High else Low;
      MsbValueOfBits(v / 2, n - 1);
      MsbValueSnoc(MsbBits(v / 2, n - 1), b);
      ModDouble(v, Pow2(n - 1));
    }
  }

  lemma ModDouble(v: nat, p: nat)
    requires p > 0
    ensures v % (2 * p) == 2 * ((v / 2) % p) + v % 2
  {
    var h := v / 2;
    var q, r := h / p, h % p;
    DivMod(h, p);
    var m := 2 * p;
    assert v == 2 * h + v % 2;
    assert 2 * h == m * q + 2 * r;
    DivUnique(v, m, q, 2 * r + v % 2);
  }

  /** The bits come most significant first: bit i of the n is bit n - 1 - i of v. */
  lemma {:induction false} MsbBitsAt(v: nat, n: nat, i: nat)
    requires i < n
    ensures MsbBits(v, n)[i] == if v / Pow2(n - 1 - i) % 2 == 1 then High else Low
  {
    if i < n - 1 {
      MsbBitsAt(v / 2, n - 1, i);
      var p := Pow2(n - 2 - i);
      assert Pow2(n - 1 - i) == 2 * p;
      HalfDiv(v, p);
    }
  }

  lemma HalfDiv(v: nat, p: nat)
    requires p > 0
    ensures v / 2 / p == v / (2 * p)
  {
    var h := v / 2;
    var q, r := h / p, h % p;
    DivMod(h, p);
    assert v == 2 * (p * q) + (2 * r + v % 2);
    assert 2 * (p * q) == (2 * p) * q;
    DivUnique(v, 2 * p, q, 2 * r + v % 2);
  }

  /** Building a value from n bits and extracting n bits of it gives the same bits. */
  lemma {:induction false} MsbBitsOfValue(bits: seq<BitState>)
    ensures MsbBits(MsbValue(bits), |bits|) == bits
  {
    if bits != [] {
      var init, last := bits[..|bits| - 1], bits[|bits| - 1];
      MsbBitsOfValue(init);
      var v := MsbValue(bits);
      assert v == 2 * MsbValue(init) + BitOf(last);
      assert v / 2 == MsbValue(init) && v % 2 == BitOf(last);
      assert bits == init + [last];
    }
  }
}
