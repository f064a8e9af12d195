/** The period of the numbers that callers of the generator see, which is shorter than that of its seed. */
module OutputPeriod {
  import opened Arithmetic
  import opened FakeRandom

  const TWO26 := 0x400_0000
  const TWO27 := 0x800_0000

  lemma Pow2Of26And27()
    ensures Pow2(26) == TWO26 && Pow2(27) == TWO27
  {
    assert Pow2(8) == 0x100;
    assert Pow2(16) == 0x1_0000;
    assert Pow2(24) == 0x100_0000;
  }

  // ---- Low bits decide outputs ----

  lemma AdvanceMod(x: nat, p: nat, r: nat)
    requires x < TWO32 && p > 0 && r > 0 && TWO32 == p * r
    ensures Advance(x) % p == (MULTIPLIER * x + INCREMENT) % p
  {
    SmallMod(x, TWO32);
    AdvanceIsAffine(x, x);
    ModOfMod(MULTIPLIER * x + INCREMENT, p, r, TWO32);
  }

  lemma AffineShift(y: int, t: int, p: int)
    ensures MULTIPLIER * (y + t * p) + INCREMENT == (MULTIPLIER * y + INCREMENT) + (MULTIPLIER * t) * p
  {
    Associate(MULTIPLIER, t, p);
  }

  lemma AdvanceLow(x: nat, y: nat, p: nat, r: nat)
    requires x < TWO32 && y < TWO32 && p > 0 && r > 0 && TWO32 == p * r
    requires x % p == y % p
    ensures Advance(x) % p == Advance(y) % p
  {
    var t := EqualModDifference(x, y, p);
    AffineShift(y, t, p);
    ModAddMultiple(MULTIPLIER * y + INCREMENT, MULTIPLIER * t, p);
    AdvanceMod(x, p, r);
    AdvanceMod(y, p, r);
  }

  /** The eleven bits taken from a state are bits 16 to 26. */
  lemma HighDigit(x: nat)
    ensures TakeBits(x, 2048) == (x % TWO27) / 65536
    ensures TakeBits(x, 1024) == TakeBits(x, 2048) % 1024
  {
    DivMod(x, TWO27);
    DivMod(x % TWO27, 65536);
    var q, d, e := x / TWO27, x % TWO27 / 65536, x % TWO27 % 65536;
    DivModUnique(x, q * 2048 + d, e, 65536);
    DivModUnique(x / 65536, q, d, 2048);
    ModOfMod(x / 65536, 1024, 2, 2048);
  }

  lemma SameBitsTaken(x: nat, y: nat)
    requires x % TWO27 == y % TWO27
    ensures TakeBits(x, 2048) == TakeBits(y, 2048) && TakeBits(x, 1024) == TakeBits(y, 1024)
  {
    HighDigit(x);
    HighDigit(y);
  }

  lemma OutputOfLow(x: nat, y: nat)
    requires x < TWO32 && y < TWO32 && x % TWO27 == y % TWO27
    ensures Output(x) == Output(y)
  {
    AdvanceLow(x, y, TWO27, 32);
    AdvanceLow(Advance(x), Advance(y), TWO27, 32);
    AdvanceLow(Advance(Advance(x)), Advance(Advance(y)), TWO27, 32);
    SameBitsTaken(Advance(x), Advance(y));
    SameBitsTaken(Advance(Advance(x)), Advance(Advance(y)));
    SameBitsTaken(Advance(Advance(Advance(x))), Advance(Advance(Advance(y))));
  }

  // ---- Bit 26 decides the top bit of the output ----

  /** An odd multiple of 2^26 is no multiple of 2^27, also after the multiplication. */
  lemma OddStaysOdd(t: int, u: int)
    requires MULTIPLIER * t * TWO26 == u * TWO27
    ensures t % 2 == 0
  {
    assert MULTIPLIER * t == 2 * u;
  }

  lemma AdvanceKeepsApart(x: nat, y: nat)
    requires x < TWO32 && y < TWO32 && x % TWO26 == y % TWO26 && x % TWO27 != y % TWO27
    ensures Advance(x) % TWO27 != Advance(y) % TWO27
  {
    var t := EqualModDifference(x, y, TWO26);
    AdvanceMod(x, TWO27, 32);
    AdvanceMod(y, TWO27, 32);
    if Advance(x) % TWO27 == Advance(y) % TWO27 {
      var u := EqualModDifference(MULTIPLIER * x + INCREMENT, MULTIPLIER * y + INCREMENT, TWO27);
      AffineShift(y, t, TWO26);
      OddStaysOdd(t, u);
      ModAddMultiple(y, t / 2, TWO27);
    }
  }

  lemma DifferentBitsTaken(x: nat, y: nat)
    requires x % TWO26 == y % TWO26 && x % TWO27 != y % TWO27
    ensures TakeBits(x, 2048) != TakeBits(y, 2048)
  {
    HighDigit(x);
    HighDigit(y);
    ModOfMod(x, 65536, 2048, TWO27);
    ModOfMod(y, 65536, 2048, TWO27);
    ModOfMod(x, 65536, 1024, TWO26);
    ModOfMod(y, 65536, 1024, TWO26);
    DivMod(x % TWO27, 65536);
    DivMod(y % TWO27, 65536);
  }

  lemma OutputsDiffer(x: nat, y: nat)
    requires x < TWO32 && y < TWO32 && x % TWO26 == y % TWO26 && x % TWO27 != y % TWO27
    ensures Output(x) != Output(y)
  {
    AdvanceLow(x, y, TWO26, 64);
    AdvanceKeepsApart(x, y);
    DifferentBitsTaken(Advance(x), Advance(y));
    TopDigit(x);
    TopDigit(y);
  }

  lemma TopDigit(x: nat)
    ensures Output(x) / 0x10_0000 == TakeBits(Advance(x), 2048)
  {
  }

  // ---- The period ----

  /** From seed s, every output is the one n calls later. */
  ghost predicate OutputsRepeat(n: nat, s: nat)
    requires s < TWO32
  {
    forall m: nat :: Output(SeedAfter(m, s)) == Output(SeedAfter(m + n, s))
  }

  lemma {:induction false} RepeatMultiple(n: nat, s: nat, k: nat, total: nat)
    requires s < TWO32 && OutputsRepeat(n, s) && total == k * n
    ensures Output(SeedAfter(total, s)) == Output(s)
    decreases k
  {
    if k > 0 {
      PeelMultiple(k, n, total);
      RepeatMultiple(n, s, k - 1, total - n);
      assert Output(SeedAfter(total - n, s)) == Output(SeedAfter(total - n + n, s));
    } else {
      assert SeedAfter(0, s) == s;
    }
  }

  lemma PeriodSuffices(n: nat, s: nat)
    requires s < TWO32 && n % TWO27 == 0
    ensures OutputsRepeat(n, s)
  {
    forall m: nat
      ensures Output(SeedAfter(m, s)) == Output(SeedAfter(m + n, s))
    {
      SeedAfterAdd(n, m, s);
      Pow2Of26And27();
      LowBitsPeriod(27, n, SeedAfter(m, s));
      OutputOfLow(SeedAfter(m, s), SeedAfter(m + n, s));
    }
  }

  /** An odd multiple of 2^26 calls changes the output. */
  lemma HalfPeriodChanges(n: nat, odd: nat, s: nat)
    requires s < TWO32 && odd % 2 == 1 && n == odd * TWO26
    ensures Output(SeedAfter(n, s)) != Output(s)
  {
    Pow2Of26And27();
    LowBitsPeriod(26, n, s);
    LowBitsPeriod(27, n, s);
    ModAddMultiple(0, odd, TWO26);
    DivModUnique(n, odd / 2, TWO26, TWO27);
    OutputsDiffer(SeedAfter(n, s), s);
  }

  lemma {:induction false} ScaleUp(n: nat, j: nat, k: nat, odd: nat)
    requires j <= k && n == odd * Pow2(j)
    ensures Pow2(k - j) * n == odd * Pow2(k)
  {
    Pow2Divides(j, k);
    Rearrange(Pow2(k - j), odd, Pow2(j));
  }

  lemma Rearrange(x: int, y: int, z: int)
    ensures x * (y * z) == y * (z * x)
  {
    Associate(x, y, z);
  }

  /** The numbers that `Random()` returns recur exactly every 2^27 calls, from every seed. */
  lemma OutputPeriodIff(n: nat, s: nat)
    requires s < TWO32
    ensures OutputsRepeat(n, s) <==> n % TWO27 == 0
  {
    if n % TWO27 == 0 {
      PeriodSuffices(n, s);
    } else if OutputsRepeat(n, s) {
      var j, odd := OddPart(n);
      if j >= 27 {
        Pow2Of26And27();
        Pow2Divides(27, j);
        Associate(odd, TWO27, Pow2(j - 27));
        ModAddMultiple(0, odd * Pow2(j - 27), TWO27);
      } else {
        Pow2Of26And27();
        ScaleUp(n, j, 26, odd);
        RepeatMultiple(n, s, Pow2(26 - j), odd * TWO26);
        HalfPeriodChanges(odd * TWO26, odd, s);
      }
    }
  }
}
