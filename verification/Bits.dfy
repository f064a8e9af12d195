/** Bitwise operations on natural numbers and what each does to every bit. */
module Bits {
  import opened Arithmetic

  /** Bit i of x. */
  predicate Bit(x: nat, i: nat) {
    if i == 0 then x % 2 == 1 else Bit(x / 2, i - 1)
  }

  function Digit(b: bool): nat {
    if b then 1 else 0
  }

  function And(x: nat, y: nat): nat {
    if x == 0 then 0 else 2 * And(x / 2, y / 2) + Digit(x % 2 == 1 && y % 2 == 1)
  }

  /** x & ~y. */
  function AndNot(x: nat, y: nat): nat {
    if x == 0 then 0 else 2 * AndNot(x / 2, y / 2) + Digit(x % 2 == 1 && y % 2 == 0)
  }

  function Or(x: nat, y: nat): nat {
    if x == 0 && y == 0 then 0 else 2 * Or(x / 2, y / 2) + Digit(x % 2 == 1 || y % 2 == 1)
  }

  function Shl(x: nat, n: nat): nat {
    if n == 0 then x else 2 * Shl(x, n - 1)
  }

  function Shr(x: nat, n: nat): nat {
    if n == 0 then x else Shr(x / 2, n - 1)
  }

  /** (1 << n) - 1. */
  function Ones(n: nat): nat {
    if n == 0 then 0 else 2 * Ones(n - 1) + 1
  }

  /** Conversion to an n-bit unsigned integer. */
  function Low(x: nat, n: nat): (r: nat)
    ensures r < Pow2(n)
  {
    if n == 0 then 0 else 2 * Low(x / 2, n - 1) + x % 2
  }

  // ---- Bit by bit ----

  lemma {:induction false} BitOfZero(i: nat)
    ensures !Bit(0, i)
  {
    if i > 0 {
      BitOfZero(i - 1);
    }
  }

  lemma Halves(h: nat, b: bool)
    ensures (2 * h + Digit(b)) / 2 == h && ((2 * h + Digit(b)) % 2 == 1 <==> b)
  {
  }

  lemma {:induction false} BitAnd(x: nat, y: nat, i: nat)
    ensures Bit(And(x, y), i) <==> Bit(x, i) && Bit(y, i)
  {
    if x == 0 {
      BitOfZero(i);
    } else {
      Halves(And(x / 2, y / 2), x % 2 == 1 && y % 2 == 1);
      if i > 0 {
        BitAnd(x / 2, y / 2, i - 1);
      }
    }
  }

  lemma {:induction false} BitAndNot(x: nat, y: nat, i: nat)
    ensures Bit(AndNot(x, y), i) <==> Bit(x, i) && !Bit(y, i)
  {
    if x == 0 {
      BitOfZero(i);
    } else {
      Halves(AndNot(x / 2, y / 2), x % 2 == 1 && y % 2 == 0);
      if i > 0 {
        BitAndNot(x / 2, y / 2, i - 1);
      }
    }
  }

  lemma {:induction false} BitOr(x: nat, y: nat, i: nat)
    ensures Bit(Or(x, y), i) <==> Bit(x, i) || Bit(y, i)
  {
    if x == 0 && y == 0 {
      BitOfZero(i);
    } else {
      Halves(Or(x / 2, y / 2), x % 2 == 1 || y % 2 == 1);
      if i > 0 {
        BitOr(x / 2, y / 2, i - 1);
      }
    }
  }

  lemma {:induction false} BitXor(x: nat, y: nat, i: nat)
    ensures Bit(Xor(x, y), i) <==> Bit(x, i) != Bit(y, i)
  {
    XorHalf(x, y);
    if i > 0 {
      BitXor(x / 2, y / 2, i - 1);
    }
  }

  lemma {:induction false} BitShl(x: nat, n: nat, i: nat)
    ensures Bit(Shl(x, n), i) <==> i >= n && Bit(x, i - n)
  {
    if n > 0 {
      Halves(Shl(x, n - 1), false);
      if i > 0 {
        BitShl(x, n - 1, i - 1);
      }
    }
  }

  lemma {:induction false} BitShr(x: nat, n: nat, i: nat)
    ensures Bit(Shr(x, n), i) <==> Bit(x, i + n)
  {
    if n > 0 {
      BitShr(x / 2, n - 1, i);
    }
  }

  lemma {:induction false} BitOnes(n: nat, i: nat)
    ensures Bit(Ones(n), i) <==> i < n
  {
    if n == 0 {
      BitOfZero(i);
    } else {
      Halves(Ones(n - 1), true);
      if i > 0 {
        BitOnes(n - 1, i - 1);
      }
    }
  }

  lemma {:induction false} BitLow(x: nat, n: nat, i: nat)
    ensures Bit(Low(x, n), i) <==> i < n && Bit(x, i)
  {
    if n == 0 {
      BitOfZero(i);
    } else {
      Halves(Low(x / 2, n - 1), x % 2 == 1);
      if i > 0 {
        BitLow(x / 2, n - 1, i - 1);
      }
    }
  }

  lemma {:induction false} BitBeyond(x: nat, n: nat, i: nat)
    requires x < Pow2(n) && i >= n
    ensures !Bit(x, i)
  {
    if n == 0 {
      BitOfZero(i);
    } else {
      BitBeyond(x / 2, n - 1, i - 1);
    }
  }

  /** A single set bit. */
  lemma {:induction false} BitOfOne(n: nat, i: nat)
    ensures Bit(Shl(1, n), i) <==> i == n
  {
    BitShl(1, n, i);
    if i > n {
      assert Pow2(1) == 2;
      BitBeyond(1, 1, i - n);
    }
  }

  /** Numbers below 2^n with the same n bits are equal. */
  lemma {:induction false} SameBits(x: nat, y: nat, n: nat)
    requires x < Pow2(n) && y < Pow2(n)
    requires forall i | 0 <= i < n :: Bit(x, i) == Bit(y, i)
    ensures x == y
  {
    if n > 0 {
      assert Bit(x, 0) == Bit(y, 0);
      forall i | 0 <= i < n - 1
        ensures Bit(x / 2, i) == Bit(y / 2, i)
      {
        assert Bit(x, i + 1) == Bit(y, i + 1);
      }
      SameBits(x / 2, y / 2, n - 1);
    }
  }

  lemma {:induction false} AndBound(x: nat, y: nat, n: nat)
    requires y < Pow2(n)
    ensures And(x, y) < Pow2(n)
    decreases x
  {
    if x > 0 {
      AndBound(x / 2, y / 2, if n > 0 then n - 1 else 0);
    }
  }

  lemma {:induction false} OrBound(x: nat, y: nat, n: nat)
    requires x < Pow2(n) && y < Pow2(n)
    ensures Or(x, y) < Pow2(n)
  {
    if n > 0 {
      OrBound(x / 2, y / 2, n - 1);
    }
  }

  lemma {:induction false} OnesBound(n: nat)
    ensures Ones(n) == Pow2(n) - 1
  {
    if n > 0 {
      OnesBound(n - 1);
    }
  }

  lemma Pow2Of8()
    ensures Pow2(8) == 256
  {
  }

  lemma ConcatHalf(lo: nat, hi: nat, p: nat)
    ensures (lo + 2 * p * hi) / 2 == lo / 2 + p * hi && (lo + 2 * p * hi) % 2 == lo % 2
  {
    Associate(2, p, hi);
    HalveSum(lo, p * hi);
  }

  lemma HalveSum(lo: nat, h: nat)
    ensures (lo + 2 * h) / 2 == lo / 2 + h && (lo + 2 * h) % 2 == lo % 2
  {
  }

  // ---- Bits as quotients and remainders ----

  lemma {:induction false} BitOfQuotient(x: nat, n: nat, j: nat)
    ensures x / Pow2(n) >= 0
    ensures Bit(x / Pow2(n), j) <==> Bit(x, n + j)
  {
    if n > 0 {
      DivDiv(x, 2, Pow2(n - 1));
      BitOfQuotient(x / 2, n - 1, j);
    }
  }

  lemma {:induction false} BitOfRemainder(x: nat, n: nat, r: nat, j: nat)
    requires r == x % Pow2(n)
    ensures Bit(r, j) <==> j < n && Bit(x, j)
  {
    DivMod(x, Pow2(n));
    LowPart(x, x / Pow2(n), r, n, j);
  }

  lemma {:induction false} LowPart(x: nat, q: int, r: nat, n: nat, j: nat)
    requires r < Pow2(n) && x == q * Pow2(n) + r
    ensures Bit(r, j) <==> j < n && Bit(x, j)
  {
    if q < 0 {
      MultipleIsLarge(q, Pow2(n));
    }
    BitConcat(r, q, n, j);
    if j >= n {
      BitBeyond(r, n, j);
    }
  }

  /** Bit i is the i-th binary digit. */
  lemma {:induction false} BitIsDigit(x: nat, i: nat)
    ensures Bit(x, i) <==> x / Pow2(i) % 2 == 1
  {
    BitOfQuotient(x, i, 0);
  }

  lemma {:induction false} ShrIsQuotient(x: nat, n: nat)
    ensures Shr(x, n) == x / Pow2(n)
  {
    if n > 0 {
      DivDiv(x, 2, Pow2(n - 1));
      ShrIsQuotient(x / 2, n - 1);
    }
  }

  lemma {:induction false} ShlIsProduct(x: nat, n: nat)
    ensures Shl(x, n) == x * Pow2(n)
  {
    if n > 0 {
      ShlIsProduct(x, n - 1);
      Associate(x, 2, Pow2(n - 1));
    }
  }

  lemma {:induction false} MaskIsRemainder(x: nat, n: nat, r: nat)
    requires r == x % Pow2(n)
    ensures And(x, Ones(n)) == r
  {
    OnesBound(n);
    AndBound(x, Ones(n), n);
    DivMod(x, Pow2(n));
    forall j | 0 <= j < n
      ensures Bit(And(x, Ones(n)), j) == Bit(r, j)
    {
      BitAnd(x, Ones(n), j);
      BitOnes(n, j);
      BitOfRemainder(x, n, r, j);
    }
    SameBits(And(x, Ones(n)), r, n);
  }

  /** The bits of lo below n and the bits of hi above. */
  lemma {:induction false} BitConcat(lo: nat, hi: nat, n: nat, j: nat)
    requires lo < Pow2(n)
    ensures Bit(lo + Pow2(n) * hi, j) <==> if j < n then Bit(lo, j) else Bit(hi, j - n)
  {
    if n > 0 {
      ConcatHalf(lo, hi, Pow2(n - 1));
      if j > 0 {
        BitConcat(lo / 2, hi, n - 1, j - 1);
      }
    }
  }

  lemma {:induction false} ByteConcat(lo: Byte, hi: nat, j: nat)
    ensures Bit(lo + 0x100 * hi, j) <==> if j < 8 then Bit(lo, j) else Bit(hi, j - 8)
  {
    Pow2Of8();
    BitConcat(lo, hi, 8, j);
  }

  lemma WordHorner(a: nat, b: nat, c: nat, d: nat)
    ensures a + 0x100 * b + 0x1_0000 * c + 0x100_0000 * d == a + 0x100 * (b + 0x100 * (c + 0x100 * d))
  {
  }

  lemma {:induction false} HornerBits(a: Byte, b: Byte, c: Byte, d: nat, j: nat)
    ensures Bit(a + 0x100 * (b + 0x100 * (c + 0x100 * d)), j)
       <==> if j < 8 then Bit(a, j) else if j < 16 then Bit(b, j - 8)
            else if j < 24 then Bit(c, j - 16) else Bit(d, j - 24)
  {
    ByteConcat(a, b + 0x100 * (c + 0x100 * d), j);
    if j >= 8 {
      ByteConcat(b, c + 0x100 * d, j - 8);
    }
    if j >= 16 {
      ByteConcat(c, d, j - 16);
    }
  }

  /** The bits of a 32-bit word are the bits of its bytes. */
  lemma {:induction false} WordBits(s: seq<Byte>, j: nat)
    requires |s| == 4 && j < 32
    ensures Bit(Word(s[0], s[1], s[2], s[3]), j) <==> Bit(s[j / 8], j % 8)
  {
    WordHorner(s[0], s[1], s[2], s[3]);
    HornerBits(s[0], s[1], s[2], s[3], j);
    ByteOfBit(j);
  }

  lemma ByteOfBit(j: nat)
    requires j < 32
    ensures j / 8 == (if j < 8 then 0 else if j < 16 then 1 else if j < 24 then 2 else 3)
    ensures j % 8 == j - 8 * (j / 8)
  {
  }
}
