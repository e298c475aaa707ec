/**
 * The 64-bit length header (src/instructionlogics.rs): a `u64` spread over 64
 * booleans, index 0 holding the most significant bit, and read back either as
 * a number or as eight big-endian bytes.
 */
module InstructionLogics {
  import opened Common
  import opened BitMath
  import opened BitLogics

  /** `Instruction`: the payload length as a `[bool; 64]`, index 0 = most significant bit. */
  datatype Instruction = Instruction(relevantByteCountIn64Bits: seq<bool>)

  /** The 8 header bits that make up byte `p` (0 = most significant byte). */
  function ByteSlice(bits: seq<bool>, p: nat): (s: seq<bool>)
    requires |bits| == 64 && p < 8
    ensures |s| == 8
  {
    bits[8 * p..8 * p + 8]
  }

  /** `Instruction::new`: bit `i` of the header is bit `63 - i` of `byteLen`. */
  method NewInstruction(byteLen: u64) returns (ins: Instruction)
    ensures |ins.relevantByteCountIn64Bits| == 64
    ensures forall i :: 0 <= i < 64 ==> ins.relevantByteCountIn64Bits[i] == BitOf(byteLen, 63 - i)
  {
    var relevantByte := new bool[64](_ => false);
    for i := 0 to 64
      invariant forall j :: 0 <= j < i ==> relevantByte[j] == BitOf(byteLen, 63 - j)
    {
      var bit := GetBitAt64(byteLen, (64 - i - 1) as u8);
      relevantByte[i] := bit.value;
    }
    ins := Instruction(relevantByte[..]);
  }

  /** `get_byte`: byte `p` of the header, most significant byte first; `p >= 8` panics. */
  method GetByte(ins: Instruction, visualPositionFromLeft: u8) returns (r: Outcome<u8>)
    requires |ins.relevantByteCountIn64Bits| == 64
    ensures r.Returned? <==> visualPositionFromLeft < 8
    ensures r.Returned? ==>
      r.value == FromBitsMsb(ByteSlice(ins.relevantByteCountIn64Bits, visualPositionFromLeft))
  {
    if visualPositionFromLeft >= 8 {
      return Panicked("Only position of 0 to 7 inclusively exist in a 64 bits");
    }
    var startPosition := visualPositionFromLeft * 8;
    var slice := ins.relevantByteCountIn64Bits[startPosition..startPosition + 8];
    var b := GetByteFromBits(slice);
    r := Returned(b);
  }

  /** `get_bytes`: the eight bytes of the header, element `i` being `get_byte(i)`. */
  method GetBytes(ins: Instruction) returns (result: seq<u8>)
    requires |ins.relevantByteCountIn64Bits| == 64
    ensures |result| == 8
    ensures forall i :: 0 <= i < 8 ==> result[i] == FromBitsMsb(ByteSlice(ins.relevantByteCountIn64Bits, i))
  {
    var bytes := new u8[8](_ => 0);
    for i := 0 to 8
      invariant forall j :: 0 <= j < i ==> bytes[j] == FromBitsMsb(ByteSlice(ins.relevantByteCountIn64Bits, j))
    {
      var b := GetByte(ins, i as u8);
      bytes[i] := b.value;
    }
    result := bytes[..];
  }

  /**
   * `get_data_size`: for `i` in `0..64`, bit `i` of the result is forced to
   * header element `63 - i`; the header read as a number, most significant bit first.
   */
  method GetDataSize(ins: Instruction) returns (result: u64)
    requires |ins.relevantByteCountIn64Bits| == 64
    ensures result == FromBitsMsb(ins.relevantByteCountIn64Bits)
  {
    var bits := ins.relevantByteCountIn64Bits;
    result := 0;
    for i := 0 to 64
      invariant result == FromBitsMsb(bits[64 - i..])
    {
      var position := 64 - i - 1;
      HeaderStep(bits, i);
      result := Mutate(result, bits[position], i, 64);
    }
    assert bits[0..] == bits;
  }

  /** One step of `get_data_size`: setting bit `i` of the value read so far reads one more bit. */
  lemma HeaderStep(bits: seq<bool>, i: nat)
    requires |bits| == 64 && i < 64
    ensures Mutate(FromBitsMsb(bits[64 - i..]), bits[63 - i], i, 64) == FromBitsMsb(bits[63 - i..])
    ensures FromBitsMsb(bits[63 - i..]) < 0x1_0000_0000_0000_0000
  {
    Pow2Widths();
    FromBitsMsbBound(bits[64 - i..]);
    MutateAboveValue(FromBitsMsb(bits[64 - i..]), bits[63 - i], i, 64);
    MsbStep(bits, 63 - i);
    Pow2Monotone(i + 1, 64);
  }

  // ---------------------------------------------------------------- properties

  /** The header of `v` read back as a number is `v`: `get_data_size(new(v)) == v`. */
  lemma DataSizeRoundTrip(v: u64)
    ensures FromBitsMsb(ToBitsMsb(v, 64)) == v
  {
    Pow2Widths();
    FromToBitsMsb(v, 64);
  }

  /** Every 64-bit header is the header of its own value, so the encoding is a bijection. */
  lemma HeaderRoundTrip(bits: seq<bool>)
    requires |bits| == 64
    ensures FromBitsMsb(bits) < 0x1_0000_0000_0000_0000
    ensures ToBitsMsb(FromBitsMsb(bits), 64) == bits
  {
    FromBitsMsbBound(bits);
    Pow2Widths();
    ToFromBitsMsb(bits);
  }

  /** Running `new` then `get_data_size` gives back the length. */
  method InstructionRoundTrip(byteLen: u64) returns (size: u64)
    ensures size == byteLen
  {
    var ins := NewInstruction(byteLen);
    assert ins.relevantByteCountIn64Bits == ToBitsMsb(byteLen, 64);
    size := GetDataSize(ins);
    DataSizeRoundTrip(byteLen);
  }

  /** The header of 1 has only its last element (index 63) set. */
  lemma HeaderOfOne(i: nat)
    requires i < 64
    ensures ToBitsMsb(1, 64)[i] <==> i == 63
  {
    BitOfPow2(0, 63 - i);
  }

  /** Byte `p` of the header of `v` is `(v >> 8 * (7 - p)) & 0xFF`: the bytes are big-endian. */
  lemma HeaderByteBigEndian(v: u64, p: nat)
    requires p < 8
    ensures FromBitsMsb(ByteSlice(ToBitsMsb(v, 64), p)) == And(Shr(v, 8 * (7 - p)), 0xFF)
  {
    var slice := ByteSlice(ToBitsMsb(v, 64), p);
    var s := 8 * (7 - p);
    var rhs := And(Shr(v, s), 0xFF);
    assert Pow2(8) == 256;
    FromBitsMsbBound(slice);
    AndBound(Shr(v, s), 0xFF);
    forall k | 0 <= k < 8
      ensures BitOf(FromBitsMsb(slice), k) == BitOf(rhs, k)
    {
      BitOfFromBitsMsb(slice, 7 - k);
      assert slice[7 - k] == BitOf(v, s + k);
      BitOfAnd(Shr(v, s), 0xFF, k);
      BitOfShr(v, s, k);
      BitOfAllOnes(8, k);
    }
    BitsEqual(FromBitsMsb(slice), rhs, 8);
  }
}
