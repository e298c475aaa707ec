/**
 * Arithmetic meaning of the bitwise operators the codec uses (`&`, `|`, `!`,
 * `<<`, `>>`) on non-negative integers, and the facts about individual bits
 * that the rest of the model is proved from.
 */
module BitMath {

  /** `1 << n`. */
  function Pow2(n: nat): (r: nat)
    ensures r >= 1
  {
    if n == 0 then 1 else 2 * Pow2(n - 1)
  }

  /** Bit `n` of `x`, counting from the least significant bit (bit 0). */
  predicate BitOf(x: nat, n: nat)
  {
    if n == 0 then x % 2 == 1 else BitOf(x / 2, n - 1)
  }

  /** `x & y`. */
  function And(x: nat, y: nat): nat
    decreases x
  {
    if x == 0 || y == 0 then 0 else 2 * And(x / 2, y / 2) + (x % 2) * (y % 2)
  }

  /** `x | y`. */
  function Or(x: nat, y: nat): nat
    decreases x + y
  {
    if x == 0 then y
    else if y == 0 then x
    else 2 * Or(x / 2, y / 2) + (if x % 2 == 1 || y % 2 == 1 then 1 else 0)
  }

  /** `!x` on a `w`-bit unsigned integer. */
  function Not(x: nat, w: nat): nat
  {
    if w == 0 then 0 else 2 * Not(x / 2, w - 1) + (1 - x % 2)
  }

  /** `x >> n`. */
  function Shr(x: nat, n: nat): nat
  {
    if n == 0 then x else Shr(x / 2, n - 1)
  }

  /** `x & !(1 << p) | (bit << p)` on `w`-bit integers: force bit `p` of `x` to `bit`. */
  function Mutate(x: nat, bit: bool, p: nat, w: nat): nat
  {
    Or(And(x, Not(Pow2(p), w)), (if bit then 1 else 0) * Pow2(p))
  }

  /** Value of a bit string read most significant bit first. */
  function FromBitsMsb(bs: seq<bool>): nat
  {
    if bs == [] then 0 else 2 * FromBitsMsb(bs[..|bs| - 1]) + (if bs[|bs| - 1] then 1 else 0)
  }

  /** The `w` low bits of `x`, most significant first. */
  function ToBitsMsb(x: nat, w: nat): (bs: seq<bool>)
    ensures |bs| == w
  {
    seq(w, j requires 0 <= j < w => BitOf(x, w - 1 - j))
  }

  // ---------------------------------------------------------------- powers of two

  lemma {:induction false} Pow2Monotone(a: nat, b: nat)
    requires a <= b
    ensures Pow2(a) <= Pow2(b)
  {
    if a < b {
      Pow2Monotone(a, b - 1);
    }
  }

  lemma {:induction false} Pow2Add(a: nat, b: nat)
    ensures Pow2(a + b) == Pow2(a) * Pow2(b)
  {
    if a > 0 {
      Pow2Add(a - 1, b);
      assert Pow2(a + b) == 2 * Pow2(a - 1 + b);
    }
  }

  /** The widths the codec uses: a byte and a 64-bit word. */
  lemma Pow2Widths()
    ensures Pow2(8) == 0x100
    ensures Pow2(64) == 0x1_0000_0000_0000_0000
  {
    assert Pow2(8) == 0x100;
    Pow2Add(8, 8);
    assert Pow2(16) == 0x1_0000;
    Pow2Add(16, 16);
    assert Pow2(32) == 0x1_0000_0000;
    Pow2Add(32, 32);
  }

  // ---------------------------------------------------------------- single bits

  lemma {:induction false} BitOfZero(k: nat)
    ensures !BitOf(0, k)
  {
    if k > 0 {
      BitOfZero(k - 1);
    }
  }

  /** A number below `2^w` has no bit at or above `w`. */
  lemma {:induction false} BitAboveWidth(x: nat, w: nat, k: nat)
    requires x < Pow2(w) && w <= k
    ensures !BitOf(x, k)
  {
    if w == 0 {
      BitOfZero(k);
    } else {
      BitAboveWidth(x / 2, w - 1, k - 1);
    }
  }

  lemma {:induction false} BitOfPow2(i: nat, k: nat)
    ensures BitOf(Pow2(i), k) <==> k == i
  {
    if i == 0 {
      if k > 0 {
        BitOfZero(k - 1);
      }
    } else if k > 0 {
      BitOfPow2(i - 1, k - 1);
    }
  }

  /** All bits of `2^w - 1` below `w` are set, and none above. */
  lemma {:induction false} BitOfAllOnes(w: nat, k: nat)
    ensures BitOf(Pow2(w) - 1, k) <==> k < w
  {
    if w == 0 {
      BitOfZero(k);
    } else if k > 0 {
      assert (Pow2(w) - 1) / 2 == Pow2(w - 1) - 1;
      BitOfAllOnes(w - 1, k - 1);
    }
  }

  /** Two numbers below `2^w` with the same `w` low bits are equal. */
  lemma {:induction false} BitsEqual(x: nat, y: nat, w: nat)
    requires x < Pow2(w) && y < Pow2(w)
    requires forall k :: 0 <= k < w ==> BitOf(x, k) == BitOf(y, k)
    ensures x == y
  {
    if w > 0 {
      assert BitOf(x, 0) == BitOf(y, 0);
      forall k | 0 <= k < w - 1
        ensures BitOf(x / 2, k) == BitOf(y / 2, k)
      {
        assert BitOf(x, k + 1) == BitOf(y, k + 1);
      }
      BitsEqual(x / 2, y / 2, w - 1);
    }
  }

  /** Adding `2^p` to a number whose bit `p` is clear sets that bit and keeps the others. */
  lemma {:induction false} BitOfAddPow2(x: nat, p: nat, k: nat)
    requires !BitOf(x, p)
    ensures BitOf(x + Pow2(p), k) <==> k == p || BitOf(x, k)
  {
    if p > 0 && k > 0 {
      assert (x + Pow2(p)) / 2 == x / 2 + Pow2(p - 1);
      BitOfAddPow2(x / 2, p - 1, k - 1);
    }
  }

  /** Setting a clear bit `p < w` of a number below `2^w` keeps it below `2^w`. */
  lemma {:induction false} AddPow2Bound(x: nat, p: nat, w: nat)
    requires x < Pow2(w) && p < w && !BitOf(x, p)
    ensures x + Pow2(p) < Pow2(w)
  {
    var half := x / 2;
    assert x == 2 * half + x % 2;
    assert Pow2(w) == 2 * Pow2(w - 1);
    if p == 0 {
      assert x % 2 == 0 && half < Pow2(w - 1);
    } else {
      assert Pow2(p) == 2 * Pow2(p - 1);
      assert !BitOf(half, p - 1);
      AddPow2Bound(half, p - 1, w - 1);
    }
  }

  /** Adding `c * 2^p` to a number below `2^p` puts `c` at bit `p` and keeps the low bits. */
  lemma {:induction false} BitOfAddHigh(x: nat, c: nat, p: nat, k: nat)
    requires x < Pow2(p) && c <= 1
    ensures BitOf(x + c * Pow2(p), k) == (if k < p then BitOf(x, k) else k == p && c == 1)
  {
    if p == 0 {
      if k > 0 {
        BitOfZero(k - 1);
      }
    } else if k > 0 {
      var m := c * Pow2(p - 1);
      assert c * Pow2(p) == 2 * m;
      assert (x + c * Pow2(p)) / 2 == x / 2 + m;
      BitOfAddHigh(x / 2, c, p - 1, k - 1);
    }
  }

  // ---------------------------------------------------------------- operators

  lemma {:induction false} BitOfAnd(x: nat, y: nat, k: nat)
    ensures BitOf(And(x, y), k) == (BitOf(x, k) && BitOf(y, k))
    decreases x
  {
    if x == 0 || y == 0 {
      BitOfZero(k);
    } else if k > 0 {
      BitOfAnd(x / 2, y / 2, k - 1);
    }
  }

  lemma {:induction false} AndBound(x: nat, y: nat)
    ensures And(x, y) <= y
    decreases x
  {
    if x != 0 && y != 0 {
      AndBound(x / 2, y / 2);
    }
  }

  lemma {:induction false} BitOfOr(x: nat, y: nat, k: nat)
    ensures BitOf(Or(x, y), k) == (BitOf(x, k) || BitOf(y, k))
    decreases x + y
  {
    if x == 0 {
      BitOfZero(k);
    } else if y == 0 {
      BitOfZero(k);
    } else if k > 0 {
      BitOfOr(x / 2, y / 2, k - 1);
    }
  }

  lemma {:induction false} OrBound(x: nat, y: nat, w: nat)
    requires x < Pow2(w) && y < Pow2(w)
    ensures Or(x, y) < Pow2(w)
    decreases x + y
  {
    if x != 0 && y != 0 {
      OrBound(x / 2, y / 2, w - 1);
    }
  }

  lemma {:induction false} BitOfNot(x: nat, w: nat, k: nat)
    ensures BitOf(Not(x, w), k) == (k < w && !BitOf(x, k))
  {
    if w == 0 {
      BitOfZero(k);
    } else if k > 0 {
      BitOfNot(x / 2, w - 1, k - 1);
    }
  }

  lemma {:induction false} NotBound(x: nat, w: nat)
    ensures Not(x, w) < Pow2(w)
  {
    if w > 0 {
      NotBound(x / 2, w - 1);
    }
  }

  lemma {:induction false} BitOfShr(x: nat, s: nat, k: nat)
    ensures BitOf(Shr(x, s), k) == BitOf(x, s + k)
  {
    if s > 0 {
      BitOfShr(x / 2, s - 1, k);
    }
  }

  /** `x & (1 << n)` is non-zero exactly when bit `n` of `x` is set. */
  lemma AndPow2(x: nat, n: nat)
    ensures And(x, Pow2(n)) != 0 <==> BitOf(x, n)
  {
    var a := And(x, Pow2(n));
    BitOfAnd(x, Pow2(n), n);
    BitOfPow2(n, n);
    if a != 0 && !BitOf(x, n) {
      AndBound(x, Pow2(n));
      assert Pow2(n) < Pow2(n + 1);
      forall k | 0 <= k < n + 1
        ensures BitOf(a, k) == BitOf(0, k)
      {
        BitOfAnd(x, Pow2(n), k);
        BitOfPow2(n, k);
        BitOfZero(k);
      }
      BitsEqual(a, 0, n + 1);
    }
    if a == 0 {
      BitOfZero(n);
    }
  }

  /**
   * Forcing bit `p` of a `w`-bit number: bit `p` becomes `bit`, every other
   * bit keeps its value, and the result stays a `w`-bit number.
   */
  lemma MutateBits(x: nat, bit: bool, p: nat, w: nat)
    requires x < Pow2(w) && p < w
    ensures Mutate(x, bit, p, w) < Pow2(w)
    ensures BitOf(Mutate(x, bit, p, w), p) == bit
    ensures forall k :: k != p ==> BitOf(Mutate(x, bit, p, w), k) == BitOf(x, k)
  {
    var mask := Not(Pow2(p), w);
    var high := (if bit then 1 else 0) * Pow2(p);
    NotBound(Pow2(p), w);
    AndBound(x, mask);
    Pow2Monotone(p + 1, w);
    OrBound(And(x, mask), high, w);
    forall k: nat
      ensures BitOf(Mutate(x, bit, p, w), k) == if k == p then bit else BitOf(x, k)
    {
      BitOfOr(And(x, mask), high, k);
      BitOfAnd(x, mask, k);
      BitOfNot(Pow2(p), w, k);
      BitOfPow2(p, k);
      if bit {
        assert high == Pow2(p);
      } else {
        BitOfZero(k);
      }
      if k >= w {
        BitAboveWidth(x, w, k);
      }
    }
  }

  /** When bit `p` and everything above it is still clear, forcing bit `p` adds `bit * 2^p`. */
  lemma MutateAboveValue(x: nat, bit: bool, p: nat, w: nat)
    requires x < Pow2(p) && p < w
    ensures Mutate(x, bit, p, w) == x + (if bit then Pow2(p) else 0)
  {
    var c := if bit then 1 else 0;
    var y := x + c * Pow2(p);
    Pow2Monotone(p, w);
    Pow2Monotone(p + 1, w);
    MutateBits(x, bit, p, w);
    forall k | 0 <= k < w
      ensures BitOf(Mutate(x, bit, p, w), k) == BitOf(y, k)
    {
      BitOfAddHigh(x, c, p, k);
      if k > p {
        BitAboveWidth(x, p, k);
      }
    }
    BitsEqual(Mutate(x, bit, p, w), y, w);
  }

  // ---------------------------------------------------------------- bit strings

  lemma {:induction false} FromBitsMsbBound(bs: seq<bool>)
    ensures FromBitsMsb(bs) < Pow2(|bs|)
  {
    if bs != [] {
      FromBitsMsbBound(bs[..|bs| - 1]);
    }
  }

  /** Element `j` of a bit string is bit `|bs| - 1 - j` of its value. */
  lemma {:induction false} BitOfFromBitsMsb(bs: seq<bool>, j: nat)
    requires j < |bs|
    ensures BitOf(FromBitsMsb(bs), |bs| - 1 - j) == bs[j]
  {
    var init := bs[..|bs| - 1];
    if j < |bs| - 1 {
      BitOfFromBitsMsb(init, j);
      assert init[j] == bs[j];
    }
  }

  /** Reading a concatenation most significant bit first. */
  lemma {:induction false} FromBitsMsbAppend(a: seq<bool>, b: seq<bool>)
    ensures FromBitsMsb(a + b) == FromBitsMsb(a) * Pow2(|b|) + FromBitsMsb(b)
  {
    if b == [] {
      assert a + b == a;
    } else {
      var b' := b[..|b| - 1];
      var e := if b[|b| - 1] then 1 else 0;
      assert FromBitsMsb(a + b) == 2 * FromBitsMsb(a + b') + e by {
        var ab := a + b;
        assert ab[..|ab| - 1] == a + b';
        assert ab[|ab| - 1] == b[|b| - 1];
      }
      FromBitsMsbAppend(a, b');
      ShiftLeftOne(FromBitsMsb(a), Pow2(|b'|), FromBitsMsb(b'), e);
    }
  }

  /** Reading bits from `position` on: the bit at `position` weighs `2^(|bits| - position - 1)`. */
  lemma MsbStep(bits: seq<bool>, position: nat)
    requires position < |bits|
    ensures FromBitsMsb(bits[position..]) ==
      Pow2(|bits| - position - 1) * (if bits[position] then 1 else 0) + FromBitsMsb(bits[position + 1..])
    ensures FromBitsMsb(bits[position..]) < Pow2(|bits| - position)
  {
    var done := bits[position + 1..];
    assert bits[position..] == [bits[position]] + done;
    FromBitsMsbAppend([bits[position]], done);
    assert FromBitsMsb([bits[position]]) == (if bits[position] then 1 else 0) by {
      assert [bits[position]][..0] == [];
    }
    FromBitsMsbBound(bits[position..]);
  }

  lemma ShiftLeftOne(va: nat, p: nat, vb: nat, e: nat)
    ensures 2 * (va * p + vb) + e == va * (2 * p) + (2 * vb + e)
  {
  }

  /** Round trip number -> bits -> number for a `w`-bit number. */
  lemma FromToBitsMsb(x: nat, w: nat)
    requires x < Pow2(w)
    ensures FromBitsMsb(ToBitsMsb(x, w)) == x
  {
    var bs := ToBitsMsb(x, w);
    FromBitsMsbBound(bs);
    forall k | 0 <= k < w
      ensures BitOf(FromBitsMsb(bs), k) == BitOf(x, k)
    {
      BitOfFromBitsMsb(bs, w - 1 - k);
    }
    BitsEqual(FromBitsMsb(bs), x, w);
  }

  /** Round trip bits -> number -> bits. */
  lemma ToFromBitsMsb(bs: seq<bool>)
    ensures ToBitsMsb(FromBitsMsb(bs), |bs|) == bs
  {
    forall j | 0 <= j < |bs|
      ensures ToBitsMsb(FromBitsMsb(bs), |bs|)[j] == bs[j]
    {
      BitOfFromBitsMsb(bs, j);
    }
  }
}
