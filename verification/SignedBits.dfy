/** Bitwise operators on unbounded signed integers in two's complement, and their mask laws. */
module SignedBits {
  function Abs(a: int): nat {
    if a < 0 then -a else a
  }

  function And(a: int, b: int): int
    decreases Abs(a) + Abs(b)
  {
    if a == 0 || b == 0 then 0
    else if a == -1 then b
    else if b == -1 then a
    else 2 * And(a / 2, b / 2) + (a % 2) * (b % 2)
  }

  function Not(a: int): int { -a - 1 }

  function Or(a: int, b: int): int { Not(And(Not(a), Not(b))) }

  function SignedXor(a: int, b: int): int { And(Or(a, b), Not(And(a, b))) }

  lemma AndZero(a: int)
    ensures And(a, 0) == 0 && And(0, a) == 0 && Or(a, 0) == a && Or(0, a) == a
  {
  }

  lemma AndOnes(a: int)
    ensures And(a, -1) == a && And(-1, a) == a
  {
  }

  /** Masking with `2^k - 1`, given as `m`, keeps the values below `2^k`. */
  function Ones(k: nat): (m: nat) {
    if k == 0 then 0 else 2 * Ones(k - 1) + 1
  }

  lemma {:induction false} AndOnesBelow(a: nat, k: nat)
    requires a <= Ones(k)
    ensures And(a, Ones(k)) == a
    decreases k
  {
    if k > 0 && a > 0 {
      var m := Ones(k - 1);
      assert (2 * m + 1) / 2 == m && (2 * m + 1) % 2 == 1;
      assert a / 2 <= m by {
        assert a <= 2 * m + 1;
      }
      AndOnesBelow(a / 2, k - 1);
      assert And(a, 2 * m + 1) == 2 * And(a / 2, m) + (a % 2) * 1;
    }
  }

  lemma EightOnes()
    ensures Ones(8) == 255
  {
    assert Ones(4) == 15;
    assert Ones(6) == 63;
  }

  lemma ByteMasked(c: int)
    requires 0 <= c < 256
    ensures And(c, 255) == c
  {
    EightOnes();
    AndOnesBelow(c, 8);
  }

  lemma MaskOfBit(bit: int)
    requires bit == 0 || bit == 1
    ensures And(-bit, 255) == if bit == 1 then 255 else 0
  {
  }

  lemma ComplementMask(mask: int)
    requires mask == 0 || mask == 255
    ensures SignedXor(mask, 255) == 255 - mask
  {
    EightOnes();
    if mask == 255 {
      AndOnesBelow(255, 8);
      assert And(255, 255) == 255;
      NotNot(255);
      assert And(Not(255), Not(255)) == Not(255) by {
        AndSelf(Not(255));
      }
      assert Or(255, 255) == 255;
      AndNotSelf(255);
    } else {
      AndZero(255);
      AndOnes(255);
    }
  }

  lemma NotNot(a: int)
    ensures Not(Not(a)) == a
  {
  }

  lemma {:induction false} AndSelf(a: int)
    ensures And(a, a) == a
    decreases Abs(a)
  {
    if a != 0 && a != -1 {
      AndSelf(a / 2);
    }
  }

  lemma {:induction false} AndNotSelf(a: int)
    ensures And(a, Not(a)) == 0
    decreases Abs(a)
  {
    if a != 0 && a != -1 {
      AndNotSelf(a / 2);
      assert Not(a) / 2 == Not(a / 2) && (a % 2) * (Not(a) % 2) == 0;
    }
  }

  // ----- 0|1 bits ------------------------------------------------------------------

  function Bit(b: bool): int { if b then 1 else 0 }

  lemma BitAnd(a: bool, b: bool)
    ensures And(Bit(a), Bit(b)) == Bit(a && b)
  {
    if a && b {
      AndSelf(1);
    }
  }

  lemma BitOr(a: bool, b: bool)
    ensures Or(Bit(a), Bit(b)) == Bit(a || b)
  {
    if a && b {
      AndSelf(-2);
    } else {
      AndZero(Bit(a));
      AndZero(Bit(b));
    }
  }

  lemma BitFlip(a: bool)
    ensures SignedXor(Bit(a), 1) == Bit(!a)
  {
    BitOr(a, true);
    BitAnd(a, true);
    if a {
      AndNotSelf(1);
    } else {
      AndOnes(1);
    }
  }

  /** `(c & mask) | (s & inv)` under a full or empty byte mask selects `c` or `s`. */
  lemma MaskSelects(c: int, s: int, take: bool)
    requires 0 <= c < 256 && 0 <= s < 256
    ensures var mask := And(-Bit(take), 255);
            Or(And(c, mask), And(s, SignedXor(mask, 255))) == if take then c else s
  {
    MaskOfBit(Bit(take));
    ComplementMask(And(-Bit(take), 255));
    ByteMasked(c);
    ByteMasked(s);
    AndZero(c);
    AndZero(s);
  }

  /** `(i & -first) | (j & ~(-first))` selects `i` or `j`, of either sign. */
  lemma WordSelects(i: int, j: int, take: bool)
    ensures Or(And(i, -Bit(take)), And(j, Not(-Bit(take)))) == if take then i else j
  {
    AndOnes(i);
    AndOnes(j);
    AndZero(i);
    AndZero(j);
  }
}
