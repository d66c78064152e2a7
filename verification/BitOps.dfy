/**
  Bitwise operations on nonnegative integers of any size, as Python's integers have them,
  and the laws the checksum and the bit regrouping use.
  */
module BitOps {
  import opened ByteStrings

  /** `v << k` */
  function ShiftLeft(v: nat, k: nat): nat {
    if k == 0 then v else 2 * ShiftLeft(v, k - 1)
  }

  /** `v >> k` */
  function ShiftRight(v: nat, k: nat): nat {
    if k == 0 then v else ShiftRight(v / 2, k - 1)
  }

  /** `v & ((1 << k) - 1)` */
  function LowBits(v: nat, k: nat): (r: nat)
    ensures r < Pow2(k)
  {
    if k == 0 then 0 else 2 * LowBits(v / 2, k - 1) + v % 2
  }

  /** `x ^ y` */
  function Xor(x: nat, y: nat): nat {
    if x == 0 then y else if y == 0 then x
    else 2 * Xor(x / 2, y / 2) + if x % 2 == y % 2 then 0 else 1
  }

  predicate Bit(v: nat, k: nat) {
    ShiftRight(v, k) % 2 == 1
  }

  lemma XorParts(x: nat, y: nat)
    ensures Xor(x, y) / 2 == Xor(x / 2, y / 2)
    ensures Xor(x, y) % 2 == if x % 2 == y % 2 then 0 else 1
  {
  }

  lemma XorDoubled(a: nat, c: nat, b: nat, d: nat)
    requires c < 2 && d < 2
    ensures Xor(2 * a + c, 2 * b + d) == 2 * Xor(a, b) + if c == d then 0 else 1
  {
    var x, y := 2 * a + c, 2 * b + d;
    assert x / 2 == a && x % 2 == c && y / 2 == b && y % 2 == d;
    XorParts(x, y);
  }

  lemma {:induction false} XorCommutes(x: nat, y: nat)
    ensures Xor(x, y) == Xor(y, x)
  {
    if x != 0 && y != 0 {
      XorCommutes(x / 2, y / 2);
    }
  }

  lemma {:induction false} XorAssociates(x: nat, y: nat, z: nat)
    ensures Xor(Xor(x, y), z) == Xor(x, Xor(y, z))
  {
    if x != 0 && y != 0 && z != 0 {
      XorAssociates(x / 2, y / 2, z / 2);
      XorParts(x, y);
      XorParts(y, z);
      XorParts(Xor(x, y), z);
      XorParts(x, Xor(y, z));
    }
  }

  lemma {:induction false} XorSelf(x: nat)
    ensures Xor(x, x) == 0 && Xor(x, 0) == x
  {
    if x != 0 {
      XorSelf(x / 2);
    }
  }

  lemma XorCancel(x: nat, y: nat, v: nat)
    requires Xor(x, v) == Xor(y, v) || Xor(v, x) == Xor(v, y)
    ensures x == y
  {
    XorCommutes(v, x);
    XorCommutes(v, y);
    XorAssociates(x, v, v);
    XorAssociates(y, v, v);
    XorSelf(v);
    XorSelf(x);
    XorSelf(y);
  }

  lemma {:induction false} XorBound(x: nat, y: nat, k: nat)
    requires x < Pow2(k) && y < Pow2(k)
    ensures Xor(x, y) < Pow2(k)
    decreases k
  {
    if k > 0 {
      XorBound(x / 2, y / 2, k - 1);
    }
  }

  lemma {:induction false} XorShiftLeft(x: nat, y: nat, k: nat)
    ensures ShiftLeft(Xor(x, y), k) == Xor(ShiftLeft(x, k), ShiftLeft(y, k))
  {
    if k > 0 {
      XorShiftLeft(x, y, k - 1);
      XorDoubled(ShiftLeft(x, k - 1), 0, ShiftLeft(y, k - 1), 0);
    }
  }

  lemma {:induction false} XorShiftRight(x: nat, y: nat, k: nat)
    ensures ShiftRight(Xor(x, y), k) == Xor(ShiftRight(x, k), ShiftRight(y, k))
    decreases k
  {
    if k > 0 {
      XorParts(x, y);
      XorShiftRight(x / 2, y / 2, k - 1);
    }
  }

  lemma NoLowBits(x: nat, y: nat)
    ensures LowBits(Xor(x, y), 0) == Xor(LowBits(x, 0), LowBits(y, 0))
  {
  }

  lemma LowBitsHalf(v: nat, k: nat)
    requires k > 0
    ensures LowBits(v, k) == 2 * LowBits(v / 2, k - 1) + v % 2
  {
  }

  lemma {:induction false} XorLowBits(x: nat, y: nat, k: nat)
    ensures LowBits(Xor(x, y), k) == Xor(LowBits(x, k), LowBits(y, k))
    decreases k
  {
    hide Xor, LowBits;
    if k == 0 {
      NoLowBits(x, y);
    } else {
      var a, b := LowBits(x / 2, k - 1), LowBits(y / 2, k - 1);
      LowBitsHalf(x, k);
      LowBitsHalf(y, k);
      LowBitsHalf(Xor(x, y), k);
      XorDoubled(a, x % 2, b, y % 2);
      XorLowBits(x / 2, y / 2, k - 1);
      XorParts(x, y);
    }
  }

  lemma XorBit(x: nat, y: nat, k: nat)
    ensures Bit(Xor(x, y), k) <==> Bit(x, k) != Bit(y, k)
  {
    XorShiftRight(x, y, k);
    XorParts(ShiftRight(x, k), ShiftRight(y, k));
  }

  lemma {:induction false} SmallShifts(v: nat, k: nat)
    requires v < Pow2(k)
    ensures ShiftRight(v, k) == 0 && LowBits(v, k) == v
    decreases k
  {
    if k > 0 {
      SmallShifts(v / 2, k - 1);
    }
  }

  lemma {:induction false} ShiftRightBound(v: nat, j: nat, k: nat)
    requires v < Pow2(j + k)
    ensures ShiftRight(v, k) < Pow2(j)
    decreases k
  {
    if k > 0 {
      assert Pow2(j + k) == 2 * Pow2(j + (k - 1));
      ShiftRightBound(v / 2, j, k - 1);
    }
  }

  lemma {:induction false} ShiftLeftBound(v: nat, j: nat, k: nat)
    requires v < Pow2(j)
    ensures ShiftLeft(v, k) < Pow2(j + k)
    decreases k
  {
    if k > 0 {
      ShiftLeftBound(v, j, k - 1);
      assert Pow2(j + k) == 2 * Pow2(j + (k - 1));
    }
  }

  lemma {:induction false} ShiftLeftInjective(x: nat, y: nat, k: nat)
    requires ShiftLeft(x, k) == ShiftLeft(y, k)
    ensures x == y
  {
    if k > 0 {
      ShiftLeftInjective(x, y, k - 1);
    }
  }

  /** Shifting left leaves the low bits zero. */
  lemma {:induction false} ShiftLeftLowBits(v: nat, k: nat)
    ensures LowBits(ShiftLeft(v, k), k) == 0
    decreases k
  {
    if k > 0 {
      ShiftLeftLowBits(v, k - 1);
      assert ShiftLeft(v, k) / 2 == ShiftLeft(v, k - 1);
    }
  }

  /** A value is its high part and its low part. */
  lemma {:induction false} PartsDetermine(x: nat, y: nat, k: nat)
    requires ShiftRight(x, k) == ShiftRight(y, k) && LowBits(x, k) == LowBits(y, k)
    ensures x == y
    decreases k
  {
    if k > 0 {
      PartsDetermine(x / 2, y / 2, k - 1);
    }
  }

  /** The bits below `k` determine the low part. */
  lemma {:induction false} LowBitsBit(v: nat, k: nat, i: nat)
    requires i < k
    ensures Bit(LowBits(v, k), i) == Bit(v, i)
    decreases i
  {
    if i > 0 {
      LowBitsBit(v / 2, k - 1, i - 1);
    }
  }

  /** Two values with the same `k` lowest bits have the same low part. */
  lemma {:induction false} BitsDetermine(x: nat, y: nat, k: nat)
    requires forall i :: 0 <= i < k ==> Bit(x, i) == Bit(y, i)
    ensures LowBits(x, k) == LowBits(y, k)
    decreases k
  {
    if k > 0 {
      assert Bit(x, 0) == Bit(y, 0);
      forall i | 0 <= i < k - 1 ensures Bit(x / 2, i) == Bit(y / 2, i) {
        assert Bit(x, i + 1) == Bit(y, i + 1);
      }
      BitsDetermine(x / 2, y / 2, k - 1);
    }
  }
}
