/**
 * Bit primitives of the codec (src/bitlogics.rs): reading one bit of a byte
 * or of a 64-bit word, turning a bit into a black or white colour and back,
 * forcing one bit of a byte, and packing eight booleans into a byte.
 */
module BitLogics {
  import opened Common
  import opened BitMath
  import opened InjectionExtraction

  /** `get_bit_at64`: bit `n` of a 64-bit word; positions 64 and above panic. */
  function GetBitAt64(input: u64, n: u8): (r: Outcome<bool>)
    ensures r.Returned? <==> n < 64
    ensures r.Returned? ==> (r.value <==> BitOf(input, n))
  {
    if n < 64 then
      AndPow2(input, n);
      Returned(And(input, Pow2(n)) != 0)
    else
      Panicked("The bit position must be between 0 and 63 inclusively on a 64 bits number")
  }

  /** `get_bit_at`: bit `n` of a byte; positions 8 and above panic. */
  function GetBitAt(input: u8, n: u8): (r: Outcome<bool>)
    ensures r.Returned? <==> n < 8
    ensures r.Returned? ==> (r.value <==> BitOf(input, n))
  {
    if n < 8 then
      AndPow2(input, n);
      Returned(And(input, Pow2(n)) != 0)
    else
      Panicked("The bit position must be between 0 and 7 inclusively on a 8 bits number")
  }

  /** `get_rgb_for_bit`: a set bit is white, a clear bit black. */
  function GetRgbForBit(bit: bool): (c: Color)
    ensures c.r == c.g == c.b
    ensures c.r == (if bit then 255 else 0)
  {
    if bit then Color(255, 255, 255) else Color(0, 0, 0)
  }

  /** Sum of a list of channel samples. */
  function Sum(s: seq<u8>): nat
  {
    if s == [] then 0 else Sum(s[..|s| - 1]) + s[|s| - 1]
  }

  /**
   * `get_bit_from_rgb`: a cell reads as a set bit when its samples add up to
   * at least half of the brightest possible sum (integer division): twice
   * the sum, plus one for the rounding, reaches 255 per sample.
   */
  predicate GetBitFromRgb(rgb: seq<u8>): (isSet: bool)
    ensures isSet <==> 2 * Sum(rgb) + 1 >= 255 * |rgb|
  {
    Sum(rgb) >= (255 * |rgb|) / 2
  }

  /**
   * `mutate_byte`: the byte behind `&mut u8` is given and its new value
   * returned. A position of 8 or more makes the `u8` shift overflow, which
   * panics in a debug build.
   */
  function MutateByte(byteVal: u8, bitVal: bool, position: u8): (r: Outcome<u8>)
    ensures r.Returned? <==> position < 8
    ensures r.Returned? ==> BitOf(r.value, position) == bitVal
    ensures r.Returned? ==> forall k :: k != position ==> BitOf(r.value, k) == BitOf(byteVal, k)
  {
    if position < 8 then
      MutateBits(byteVal, bitVal, position, 8);
      assert Pow2(8) == 256;
      Returned(Mutate(byteVal, bitVal, position, 8))
    else
      Panicked("attempt to shift left with overflow")
  }

  /**
   * `get_byte_from_bits`: adds `2^i * bits[7 - i]` for `i` in `0..8`, so
   * `bits[0]` is the most significant bit. The `u8` accumulator never overflows.
   */
  method GetByteFromBits(bits: seq<bool>) returns (result: u8)
    requires |bits| == 8
    ensures result == FromBitsMsb(bits)
  {
    result := 0;
    for i := 0 to 8
      invariant result == FromBitsMsb(bits[8 - i..])
    {
      var position := 8 - i - 1;
      MsbStep(bits, position);
      Pow2Monotone(i + 1, 8);
      result := result + Pow2(i) * (if bits[position] then 1 else 0);
    }
    assert bits[0..] == bits;
  }

  // ---------------------------------------------------------------- properties

  /** The bits of 54 (0011 0110), from bit 7 down to bit 0. */
  lemma BitsOf54()
    ensures GetBitAt(54, 7) == Returned(false) && GetBitAt(54, 6) == Returned(false)
    ensures GetBitAt(54, 5) == Returned(true) && GetBitAt(54, 4) == Returned(true)
    ensures GetBitAt(54, 3) == Returned(false) && GetBitAt(54, 2) == Returned(true)
    ensures GetBitAt(54, 1) == Returned(true) && GetBitAt(54, 0) == Returned(false)
    ensures GetBitAt64(54, 5) == Returned(true) && GetBitAt64(54, 7) == Returned(false)
  {
  }

  /** The eight bits of a byte, most significant first, as `get_bit_at` reads them. */
  function BitsOfByte(b: u8): (bits: seq<bool>)
    ensures |bits| == 8
  {
    seq(8, j requires 0 <= j < 8 => GetBitAt(b, (7 - j) as u8).value)
  }

  /** Reading a byte's bits with `get_bit_at` and packing them back gives the byte. */
  lemma ByteBitsRoundTrip(b: u8)
    ensures FromBitsMsb(BitsOfByte(b)) == b
  {
    assert BitsOfByte(b) == ToBitsMsb(b, 8);
    assert Pow2(8) == 256;
    FromToBitsMsb(b, 8);
  }

  /** Packing eight booleans and reading bit `7 - j` gives back boolean `j`. */
  lemma BitsByteRoundTrip(bits: seq<bool>)
    requires |bits| == 8
    ensures FromBitsMsb(bits) < 256
    ensures BitsOfByte(FromBitsMsb(bits)) == bits
  {
    FromBitsMsbBound(bits);
    assert Pow2(8) == 256;
    ToFromBitsMsb(bits);
  }

  /** `[1,0,0,1,1,0,1,1]` packs to 155. */
  lemma PackExample()
    ensures FromBitsMsb([true, false, false, true, true, false, true, true]) == 155
  {
    var bits := [true, false, false, true, true, false, true, true];
    assert FromBitsMsb(bits[..1]) == 1;
    assert FromBitsMsb(bits[..2]) == 2;
    assert bits[..3][..2] == bits[..2];
    assert FromBitsMsb(bits[..3]) == 4;
    assert bits[..4][..3] == bits[..3];
    assert FromBitsMsb(bits[..4]) == 9;
    assert bits[..5][..4] == bits[..4];
    assert FromBitsMsb(bits[..5]) == 19;
    assert bits[..6][..5] == bits[..5];
    assert FromBitsMsb(bits[..6]) == 38;
    assert bits[..7][..6] == bits[..6];
    assert FromBitsMsb(bits[..7]) == 77;
    assert bits[..8] == bits;
  }

  /** A white cell reads back as a set bit and a black cell as a clear bit. */
  lemma RgbForBitRoundTrip(bit: bool)
    ensures var c := GetRgbForBit(bit); GetBitFromRgb([c.r, c.g, c.b]) == bit
  {
    var c := GetRgbForBit(bit);
    SumConstant([c.r, c.g, c.b], c.r);
  }

  lemma {:induction false} SumConstant(s: seq<u8>, v: u8)
    requires forall i :: 0 <= i < |s| ==> s[i] == v
    ensures Sum(s) == v * |s|
  {
    if s != [] {
      SumConstant(s[..|s| - 1], v);
    }
  }

  /** All-black samples read as a clear bit (when there is at least one sample). */
  lemma BlackIsClear(rgb: seq<u8>)
    requires |rgb| > 0 && forall i :: 0 <= i < |rgb| ==> rgb[i] == 0
    ensures !GetBitFromRgb(rgb)
  {
    SumConstant(rgb, 0);
  }

  /** All-white samples read as a set bit. */
  lemma WhiteIsSet(rgb: seq<u8>)
    requires forall i :: 0 <= i < |rgb| ==> rgb[i] == 255
    ensures GetBitFromRgb(rgb)
  {
    SumConstant(rgb, 255);
  }

  /** Three white and five black samples: 765 is below half of 2040, so a clear bit. */
  lemma MostlyBlackIsClear()
    ensures !GetBitFromRgb([255, 255, 255, 0, 0, 0, 0, 0])
  {
    var s: seq<u8> := [255, 255, 255, 0, 0, 0, 0, 0];
    assert s[..3] == [255, 255, 255];
    assert Sum(s[..3]) == 765 by {
      SumConstant(s[..3], 255);
    }
    assert s == s[..3] + seq(5, _ => 0);
    SumAppendZeros(s[..3], 5);
  }

  lemma {:induction false} SumAppendZeros(s: seq<u8>, n: nat)
    ensures Sum(s + seq(n, _ => 0)) == Sum(s)
  {
    if n > 0 {
      assert (s + seq(n, _ => 0))[..|s| + n - 1] == s + seq(n - 1, _ => 0);
      SumAppendZeros(s, n - 1);
    } else {
      assert s + seq(n, _ => 0) == s;
    }
  }

  /** The single-bit cases of `mutate_byte`'s tests. */
  lemma MutateByteExamples()
    ensures MutateByte(0, true, 0) == Returned(1)
    ensures MutateByte(0, true, 1) == Returned(2)
    ensures MutateByte(2, false, 1) == Returned(0)
  {
  }

  /** `mutate_byte` on a clear bit: setting it adds `2^p`, clearing it changes nothing. */
  lemma MutateClearBit(x: u8, p: u8)
    requires p < 8 && !BitOf(x, p)
    ensures x + Pow2(p as nat) < 256
    ensures MutateByte(x, true, p) == Returned(x + Pow2(p as nat))
    ensures MutateByte(x, false, p) == Returned(x)
  {
    assert Pow2(8) == 256;
    AddPow2Bound(x, p as nat, 8);
    forall k | 0 <= k < 8
      ensures BitOf(x + Pow2(p as nat), k) == BitOf(MutateByte(x, true, p).value, k)
      ensures BitOf(x, k) == BitOf(MutateByte(x, false, p).value, k)
    {
      BitOfAddPow2(x, p as nat, k);
    }
    BitsEqual(x, MutateByte(x, false, p).value, 8);
    BitsEqual(x + Pow2(p as nat), MutateByte(x, true, p).value, 8);
  }

  /** Eight mutations, bit 7 down to bit 0, build 0011 1011 from 0. */
  lemma MutateByteSequence()
    ensures MutateByte(0, false, 7) == Returned(0) && MutateByte(0, false, 6) == Returned(0)
    ensures MutateByte(0, true, 5) == Returned(32) && MutateByte(32, true, 4) == Returned(48)
    ensures MutateByte(48, true, 3) == Returned(56) && MutateByte(56, false, 2) == Returned(56)
    ensures MutateByte(56, true, 1) == Returned(58) && MutateByte(58, true, 0) == Returned(0x3B)
  {
    assert Pow2(5) == 32 && Pow2(4) == 16 && Pow2(3) == 8 && Pow2(1) == 2 && Pow2(0) == 1;
    MutateClearBit(0, 7);
    MutateClearBit(0, 6);
    MutateClearBit(0, 5);
    MutateClearBit(32, 4);
    MutateClearBit(48, 3);
    MutateClearBit(56, 2);
    MutateClearBit(56, 1);
    MutateClearBit(58, 0);
  }
}
