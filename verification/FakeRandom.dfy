/** The linear congruential generator of the game server and its full-period theorem. */
module FakeRandom {
  import opened Arithmetic
  import B = Bits

  const MULTIPLIER := 1103515245
  const INCREMENT := 12345

  // ---- One step of the generator, and its unbounded affine shadow ----

  /** One 32-bit multiply-and-add. */
  function Advance(s: int): (r: nat)
    ensures r < TWO32
  {
    U32(U32(s * MULTIPLIER) + INCREMENT)
  }

  /** The seed left behind by one call of `Random()`: three multiply-and-add steps. */
  function NextSeed(s: int): (r: nat)
    ensures r < TWO32
  {
    Advance(Advance(Advance(s)))
  }

  /** The seed after `n` calls of `Random()`. */
  function SeedAfter(n: nat, s: nat): (r: nat)
    requires s < TWO32
    ensures r < TWO32
  {
    if n == 0 then s else NextSeed(SeedAfter(n - 1, s))
  }

  /** `n` applications of x -> a*x + c over the unbounded integers. */
  ghost function Iterate(a: int, c: int, n: nat, x: int): int {
    if n == 0 then x else a * Iterate(a, c, n - 1, x) + c
  }

  lemma {:induction false} IterateAdd(a: int, c: int, m: nat, n: nat, x: int)
    ensures Iterate(a, c, m + n, x) == Iterate(a, c, m, Iterate(a, c, n, x))
  {
    if m > 0 {
      IterateAdd(a, c, m - 1, n, x);
      assert m + n - 1 == (m - 1) + n;
    }
  }

  // ---- 2^k steps at once ----

  ghost function Slope(a: int, k: nat): int {
    if k == 0 then a else Slope(a, k - 1) * Slope(a, k - 1)
  }

  ghost function Offset(a: int, c: int, k: nat): int {
    if k == 0 then c else Offset(a, c, k - 1) * (Slope(a, k - 1) + 1)
  }

  lemma ComposeAffine(s: int, o: int, x: int)
    ensures s * (s * x + o) + o == (s * s) * x + o * (s + 1)
  {
  }

  lemma {:induction false} IteratePow2(a: int, c: int, k: nat, x: int)
    ensures Iterate(a, c, Pow2(k), x) == Slope(a, k) * x + Offset(a, c, k)
  {
    if k == 0 {
      assert Iterate(a, c, 1, x) == a * Iterate(a, c, 0, x) + c;
    } else {
      var y := Iterate(a, c, Pow2(k - 1), x);
      IterateAdd(a, c, Pow2(k - 1), Pow2(k - 1), x);
      IteratePow2(a, c, k - 1, x);
      IteratePow2(a, c, k - 1, y);
      ComposeAffine(Slope(a, k - 1), Offset(a, c, k - 1), x);
    }
  }

  lemma SquareShape(p: int, m: int)
    ensures (1 + 4 * (p * m)) * (1 + 4 * (p * m)) == 1 + 4 * ((2 * p) * (m + 2 * (p * m * m)))
  {
  }

  lemma {:induction false} SlopeShape(a: int, k: nat) returns (m: int)
    requires a % 4 == 1
    ensures Slope(a, k) == 1 + 4 * (Pow2(k) * m)
  {
    if k == 0 {
      m := a / 4;
    } else {
      var m0 := SlopeShape(a, k - 1);
      var p := Pow2(k - 1);
      m := m0 + 2 * (p * m0 * m0);
      SquareShape(p, m0);
    }
  }

  lemma ProductShape(p: int, m: int, u: int)
    ensures (p * (2 * u + 1)) * ((1 + 4 * (p * m)) + 1) == (2 * p) * (2 * (u + p * m * (2 * u + 1)) + 1)
  {
  }

  lemma {:induction false} OffsetShape(a: int, c: int, k: nat) returns (u: int)
    requires a % 4 == 1 && c % 2 == 1
    ensures Offset(a, c, k) == Pow2(k) * (2 * u + 1)
  {
    if k == 0 {
      u := c / 2;
    } else {
      var u0 := OffsetShape(a, c, k - 1);
      var m := SlopeShape(a, k - 1);
      var p := Pow2(k - 1);
      u := u0 + p * m * (2 * u0 + 1);
      ProductShape(p, m, u0);
    }
  }

  lemma ShiftShape(p: int, m: int, u: int, x: int)
    ensures (1 + 4 * (p * m)) * x + p * (2 * u + 1) == x + (2 * (2 * (m * x) + u) + 1) * p
  {
  }

  /** 2^k steps move every x by an odd multiple of 2^k. */
  lemma Pow2StepsShift(a: int, c: int, k: nat, x: int) returns (w: int)
    requires a % 4 == 1 && c % 2 == 1
    ensures Iterate(a, c, Pow2(k), x) == x + (2 * w + 1) * Pow2(k)
  {
    IteratePow2(a, c, k, x);
    var m := SlopeShape(a, k);
    var u := OffsetShape(a, c, k);
    w := 2 * (m * x) + u;
    ShiftShape(Pow2(k), m, u, x);
  }

  /** q * 2^k steps move x by v * 2^k, where v has the parity of q. */
  lemma {:induction false} StepsShift(a: int, c: int, k: nat, q: nat, n: nat, x: int) returns (v: int)
    requires a % 4 == 1 && c % 2 == 1 && n == q * Pow2(k)
    ensures Iterate(a, c, n, x) == x + v * Pow2(k)
    ensures v % 2 == q % 2
    decreases q
  {
    if q == 0 {
      v := 0;
    } else {
      var p := Pow2(k);
      PeelMultiple(q, p, n);
      var v0 := StepsShift(a, c, k, q - 1, n - p, x);
      var w := Pow2StepsShift(a, c, k, Iterate(a, c, n - p, x));
      IterateAdd(a, c, p, n - p, x);
      v := v0 + (2 * w + 1);
      Distribute(v0, 2 * w + 1, p);
      ParityStep(v0, w, q);
    }
  }

  lemma ParityStep(v: int, w: int, q: int)
    requires v % 2 == (q - 1) % 2
    ensures (v + (2 * w + 1)) % 2 == q % 2
  {
  }

  /** If n steps move x by a multiple of 2^k, then 2^k divides n. */
  lemma ShiftNeedsMultiple(a: int, c: int, k: nat, n: nat, x: int, t: int) returns (q: nat)
    requires a % 4 == 1 && c % 2 == 1
    requires Iterate(a, c, n, x) == x + t * Pow2(k)
    ensures n == q * Pow2(k)
  {
    q := 0;
    if n > 0 {
      var j, odd := OddPart(n);
      if j >= k {
        Pow2Divides(k, j);
        Associate(odd, Pow2(j - k), Pow2(k));
        q := odd * Pow2(j - k);
      } else {
        var v := StepsShift(a, c, j, odd, n, x);
        Pow2Divides(j + 1, k);
        var r := Pow2(k - j - 1);
        Associate(t, r, 2 * Pow2(j));
        Associate(t * r, 2, Pow2(j));
        MulCancel(Pow2(j), v, 2 * (t * r));
      }
    }
  }

  /** The Hull-Dobell theorem for powers of two: the low k bits return exactly every 2^k steps. */
  lemma IteratePeriod(a: int, c: int, k: nat, n: nat, x: int)
    requires a % 4 == 1 && c % 2 == 1
    ensures Iterate(a, c, n, x) % Pow2(k) == x % Pow2(k) <==> n % Pow2(k) == 0
  {
    var p := Pow2(k);
    if n % p == 0 {
      DivMod(n, p);
      var v := StepsShift(a, c, k, n / p, n, x);
      ModAddMultiple(x, v, p);
    }
    if Iterate(a, c, n, x) % p == x % p {
      var t := EqualModDifference(Iterate(a, c, n, x), x, p);
      var q := ShiftNeedsMultiple(a, c, k, n, x, t);
      ModAddMultiple(0, q, p);
    }
  }

  // ---- From the unbounded shadow to the 32-bit seed ----

  const TRIPLE_MULTIPLIER := MULTIPLIER * MULTIPLIER * MULTIPLIER
  const TRIPLE_INCREMENT := INCREMENT * (MULTIPLIER * MULTIPLIER + MULTIPLIER + 1)

  lemma TripleIsFullPeriod()
    ensures TRIPLE_MULTIPLIER % 4 == 1 && TRIPLE_INCREMENT % 2 == 1
  {
  }

  lemma AffineOfMod(s: int, x: int)
    requires s % 0x1_0000_0000 == x % 0x1_0000_0000
    ensures ((s * 1103515245) % 0x1_0000_0000 + 12345) % 0x1_0000_0000
         == (1103515245 * x + 12345) % 0x1_0000_0000
  {
    var t := EqualModDifference(s, x, 0x1_0000_0000);
    ModAddMultiple(1103515245 * x, 1103515245 * t, 0x1_0000_0000);
    ModAdd(1103515245 * x, 12345, 0x1_0000_0000);
  }

  lemma AdvanceIsAffine(s: int, x: int)
    requires s == x % TWO32
    ensures Advance(s) == (MULTIPLIER * x + INCREMENT) % TWO32
  {
    AffineOfMod(s, x);
  }

  lemma TripleAffine(x: int)
    ensures MULTIPLIER * (MULTIPLIER * (MULTIPLIER * x + INCREMENT) + INCREMENT) + INCREMENT
         == TRIPLE_MULTIPLIER * x + TRIPLE_INCREMENT
  {
  }

  lemma {:induction false} SeedAfterIsIterate(n: nat, s: nat)
    requires s < TWO32
    ensures SeedAfter(n, s) == Iterate(TRIPLE_MULTIPLIER, TRIPLE_INCREMENT, n, s) % TWO32
  {
    if n > 0 {
      SeedAfterIsIterate(n - 1, s);
      var s0 := SeedAfter(n - 1, s);
      var x0 := Iterate(TRIPLE_MULTIPLIER, TRIPLE_INCREMENT, n - 1, s);
      var x1 := MULTIPLIER * x0 + INCREMENT;
      var x2 := MULTIPLIER * x1 + INCREMENT;
      AdvanceIsAffine(s0, x0);
      AdvanceIsAffine(Advance(s0), x1);
      AdvanceIsAffine(Advance(Advance(s0)), x2);
      TripleAffine(x0);
    }
  }

  /** The low k bits of the seed recur exactly every 2^k calls, for every k up to 32. */
  lemma LowBitsPeriod(k: nat, n: nat, s: nat)
    requires k <= 32 && s < TWO32
    ensures SeedAfter(n, s) % Pow2(k) == s % Pow2(k) <==> n % Pow2(k) == 0
  {
    SeedAfterIsIterate(n, s);
    Pow2Divides(k, 32);
    Pow2Of32();
    var x := Iterate(TRIPLE_MULTIPLIER, TRIPLE_INCREMENT, n, s);
    ModOfMod(x, Pow2(k), Pow2(32 - k), TWO32);
    TripleIsFullPeriod();
    IteratePeriod(TRIPLE_MULTIPLIER, TRIPLE_INCREMENT, k, n, s);
  }

  lemma {:induction false} SeedAfterAdd(m: nat, n: nat, s: nat)
    requires s < TWO32
    ensures SeedAfter(m + n, s) == SeedAfter(m, SeedAfter(n, s))
  {
    if m > 0 {
      SeedAfterAdd(m - 1, n, s);
      assert m + n - 1 == (m - 1) + n;
    }
  }

  /** Within 2^k calls no value of the low k bits occurs twice. */
  lemma LowBitsDistinct(k: nat, i: nat, j: nat, s: nat)
    requires k <= 32 && s < TWO32 && i < j < Pow2(k)
    ensures SeedAfter(i, s) % Pow2(k) != SeedAfter(j, s) % Pow2(k)
  {
    SeedAfterAdd(j - i, i, s);
    SmallMod(j - i, Pow2(k));
    LowBitsPeriod(k, j - i, SeedAfter(i, s));
  }

  /** The low k bits of the seeds met in 2^k calls. */
  ghost function LowBitsMet(k: nat, s: nat): (r: seq<nat>)
    requires s < TWO32
    ensures |r| == Pow2(k)
    ensures forall i | 0 <= i < |r| :: r[i] == SeedAfter(i, s) % Pow2(k)
  {
    seq(Pow2(k), i requires 0 <= i => SeedAfter(i, s) % Pow2(k))
  }

  /** Every value of the low k bits is visited within 2^k calls, from every seed. */
  lemma LowBitsAllVisited(k: nat, s: nat, target: nat) returns (n: nat)
    requires k <= 32 && s < TWO32 && target < Pow2(k)
    ensures n < Pow2(k) && SeedAfter(n, s) % Pow2(k) == target
  {
    var met := LowBitsMet(k, s);
    forall i | 0 <= i < |met|
      ensures met[i] < |met|
    {
      DivMod(SeedAfter(i, s), Pow2(k));
    }
    forall i, j | 0 <= i < j < |met|
      ensures met[i] != met[j]
    {
      LowBitsDistinct(k, i, j, s);
    }
    n := PigeonholeOnto(met, target);
  }

  /** The first 2^32 calls from seed s produce 2^32 different seeds. */
  ghost predicate NoRepeat(s: nat)
    requires s < TWO32
  {
    forall i: nat, j: nat | i < j < TWO32 :: SeedAfter(i, s) != SeedAfter(j, s)
  }

  /** `target` is reached within 2^32 calls from seed s. */
  ghost predicate Reaches(s: nat, target: nat)
    requires s < TWO32
  {
    exists n: nat | n < TWO32 :: SeedAfter(n, s) == target
  }

  /** All 2^32 seeds are visited, and none twice, before the first seed comes back. */
  lemma FullPeriod(s: nat)
    requires s < TWO32
    ensures SeedAfter(TWO32, s) == s
    ensures NoRepeat(s)
    ensures forall target: nat | target < TWO32 :: Reaches(s, target)
  {
    Pow2Of32();
    SmallMod(s, TWO32);
    SmallMod(SeedAfter(TWO32, s), TWO32);
    LowBitsPeriod(32, TWO32, s);
    forall i: nat, j: nat | i < j < TWO32
      ensures SeedAfter(i, s) != SeedAfter(j, s)
    {
      LowBitsDistinct(32, i, j, s);
    }
    forall target: nat | target < TWO32
      ensures Reaches(s, target)
    {
      var n := LowBitsAllVisited(32, s, target);
      SmallMod(SeedAfter(n, s), TWO32);
    }
  }

  // ---- The generator object ----

  /** The low bits of the upper half of a state. */
  function TakeBits(s: nat, m: nat): (r: nat)
    requires m > 0
    ensures r < m
  {
    s / 65536 % m
  }

  /** The 31-bit number drawn from a seed: 11, 10 and 10 bits of three successive states, joined. */
  function Output(s: int): (r: nat)
    ensures r < 0x8000_0000
  {
    var s1 := Advance(s);
    var s2 := Advance(s1);
    var s3 := Advance(s2);
    TakeBits(s1, 2048) * 0x10_0000 + TakeBits(s2, 1024) * 0x400 + TakeBits(s3, 1024)
  }

  /** The number a range draw takes from a seed. */
  function Draw(s: int, range: nat): (r: nat)
    requires range > 0
    ensures r < range
  {
    Output(s) % range
  }

  /** A draw offset by the smaller bound; it needs no wrap-around. */
  function Shifted(s: int, from: nat, to: nat): (r: nat)
    requires from < to
    ensures from <= r < to
  {
    from + Draw(s, to - from)
  }

  /** `result <<= 10; result ^= low` appends ten bits. */
  lemma {:induction false} ShiftXorAppends(result: nat, low: nat)
    requires result < 0x20_0000 && low < 1024
    ensures Xor(U32(result * 1024), low) == result * 1024 + low
  {
    SmallMod(result * 1024, TWO32);
    assert Pow2(10) == 1024;
    XorDisjoint(result, low, 10);
  }

  // ---- Which bit of the output comes from where ----

  /**
   r is drawn from seed s: with x1, x2, x3 the seed multiplied and incremented once, twice and three times,
   the bits of r from the top are bits 26 to 16 of x1, 25 to 16 of x2 and 25 to 16 of x3.
   */
  ghost predicate Drawn(s: nat, r: nat) {
    var x1 := (1103515245 * s + 12345) % 0x1_0000_0000;
    var x2 := (1103515245 * 1103515245 * s + 12345 * (1103515245 + 1)) % 0x1_0000_0000;
    var x3 := (1103515245 * 1103515245 * 1103515245 * s
               + 12345 * (1103515245 * 1103515245 + 1103515245 + 1)) % 0x1_0000_0000;
    && r < 0x8000_0000
    && (forall i: nat | 20 <= i < 31 :: B.Bit(r, i) == B.Bit(x1, i - 4))
    && (forall i: nat | 10 <= i < 20 :: B.Bit(r, i) == B.Bit(x2, i + 6))
    && (forall i: nat | i < 10 :: B.Bit(r, i) == B.Bit(x3, i + 16))
  }

  /** No other number has these bits. */
  lemma DrawnUnique(s: nat, r: nat, q: nat)
    requires Drawn(s, r) && Drawn(s, q)
    ensures r == q
  {
    assert Pow2(31) == 0x8000_0000 by { Pow2Of32(); }
    forall i | 0 <= i < 31
      ensures B.Bit(r, i) == B.Bit(q, i)
    {
    }
    B.SameBits(r, q, 31);
  }

  lemma TripleClosed(s: nat)
    requires s < TWO32
    ensures Advance(s) == (1103515245 * s + 12345) % 0x1_0000_0000
    ensures Advance(Advance(s))
         == (1103515245 * 1103515245 * s + 12345 * (1103515245 + 1)) % 0x1_0000_0000
    ensures NextSeed(s)
         == (1103515245 * 1103515245 * 1103515245 * s
             + 12345 * (1103515245 * 1103515245 + 1103515245 + 1)) % 0x1_0000_0000
  {
    SmallMod(s, TWO32);
    var x1 := MULTIPLIER * s + INCREMENT;
    var x2 := MULTIPLIER * x1 + INCREMENT;
    AdvanceIsAffine(s, s);
    AdvanceIsAffine(Advance(s), x1);
    AdvanceIsAffine(Advance(Advance(s)), x2);
  }

  lemma {:induction false} TakenBits(x: nat, n: nat, j: nat)
    requires j < n
    ensures B.Bit(TakeBits(x, Pow2(n)), j) <==> B.Bit(x, 16 + j)
  {
    assert Pow2(8) == 0x100 && Pow2(16) == 0x1_0000;
    B.BitOfRemainder(x / 65536, n, TakeBits(x, Pow2(n)), j);
    B.BitOfQuotient(x, 16, j);
  }

  /** Bits of three numbers written one after the other. */
  lemma {:induction false} JoinedBits(a: nat, b: nat, c: nat, i: nat)
    requires b < 1024 && c < 1024
    ensures B.Bit(a * 0x10_0000 + b * 0x400 + c, i)
       <==> if i < 10 then B.Bit(c, i) else if i < 20 then B.Bit(b, i - 10) else B.Bit(a, i - 20)
  {
    assert Pow2(10) == 1024;
    assert a * 0x10_0000 + b * 0x400 + c == c + 1024 * (b + 1024 * a);
    B.BitConcat(c, b + 1024 * a, 10, i);
    if i >= 10 {
      B.BitConcat(b, a, 10, i - 10);
    }
  }

  lemma {:induction false} OutputIsDrawn(s: nat)
    requires s < TWO32
    ensures Drawn(s, Output(s))
  {
    var x1, x2, x3 := Advance(s), Advance(Advance(s)), NextSeed(s);
    var a, b, c := TakeBits(x1, 2048), TakeBits(x2, 1024), TakeBits(x3, 1024);
    assert Pow2(11) == 2 * Pow2(10) && Pow2(10) == 1024;
    TripleClosed(s);
    forall i: nat | i < 31
      ensures B.Bit(Output(s), i)
         <==> if i < 10 then B.Bit(x3, i + 16) else if i < 20 then B.Bit(x2, i + 6) else B.Bit(x1, i - 4)
    {
      JoinedBits(a, b, c, i);
      if i < 10 {
        TakenBits(x3, 10, i);
      } else if i < 20 {
        TakenBits(x2, 10, i - 10);
      } else {
        TakenBits(x1, 11, i - 20);
      }
    }
  }

  /** A range draw is the drawn number reduced by the range. */
  lemma DrawIs(s: nat, r: nat, range: nat)
    requires s < TWO32 && Drawn(s, r) && range > 0
    ensures Draw(s, range) == r % range
  {
    OutputIsDrawn(s);
    DrawnUnique(s, r, Output(s));
  }

  class CFakeRandom {
    var seed: nat

    ghost predicate Valid()
      reads this
    {
      seed < TWO32
    }

    constructor ()
      ensures Valid() && seed == 0
    {
      seed := 0;
    }

    method SetSeed(s: nat)
      requires s < TWO32
      modifies this
      ensures Valid() && seed == s
    {
      seed := s;
    }

    method Random() returns (result: nat)
      requires Valid()
      modifies this
      ensures Valid() && seed == NextSeed(old(seed))
      ensures result == Output(old(seed)) && Drawn(old(seed), result)
      ensures seed == (1103515245 * 1103515245 * 1103515245 * old(seed)
                       + 12345 * (1103515245 * 1103515245 + 1103515245 + 1)) % 0x1_0000_0000
    {
      OutputIsDrawn(seed);
      TripleClosed(seed);
      var next := seed;
      next := Advance(next);
      result := TakeBits(next, 2048);

      next := Advance(next);
      ShiftXorAppends(result, TakeBits(next, 1024));
      result := U32(result * 1024);
      result := Xor(result, TakeBits(next, 1024));

      next := Advance(next);
      ShiftXorAppends(result, TakeBits(next, 1024));
      result := U32(result * 1024);
      result := Xor(result, TakeBits(next, 1024));

      seed := next;
    }

    /** A draw from 0..range-1; nothing is drawn when the range is empty. */
    method RandomBelow(range: nat) returns (result: nat)
      requires Valid() && range < TWO32
      modifies this
      ensures Valid()
      ensures range == 0 ==> result == 0 && seed == old(seed)
      ensures range > 0 ==> result < range && result == Draw(old(seed), range)
      ensures range > 0 ==> seed == NextSeed(old(seed))
      ensures range > 0 ==> exists r: nat :: Drawn(old(seed), r) && result == r % range
    {
      if range == 0 {
        return 0;
      }
      var r := Random();
      result := r % range;
    }

    /** A draw from the half-open interval between the two bounds, whichever is the larger. */
    method RandomBetween(lo: nat, hi: nat) returns (result: nat)
      requires Valid() && lo < TWO32 && hi < TWO32
      modifies this
      ensures Valid()
      ensures lo == hi ==> result == lo && seed == old(seed)
      ensures lo != hi ==> seed == NextSeed(old(seed))
      ensures lo < hi ==> lo <= result < hi && result == Shifted(old(seed), lo, hi)
      ensures lo > hi ==> hi <= result < lo && result == Shifted(old(seed), hi, lo)
      ensures lo < hi ==> exists r: nat :: Drawn(old(seed), r) && result == lo + r % (hi - lo)
      ensures lo > hi ==> exists r: nat :: Drawn(old(seed), r) && result == hi + r % (lo - hi)
    {
      OutputIsDrawn(seed);
      if lo == hi {
        return lo;
      }
      if lo > hi {
        result := RandomFrom(hi, lo);
      } else {
        result := RandomFrom(lo, hi);
      }
    }

    /** `Random(to - from) + from`. */
    method RandomFrom(from: nat, to: nat) returns (result: nat)
      requires Valid() && from < to < TWO32
      modifies this
      ensures Valid() && seed == NextSeed(old(seed))
      ensures result == Shifted(old(seed), from, to)
    {
      var r := RandomBelow(to - from);
      SmallMod(r + from, TWO32);
      result := U32(r + from);
    }
  }
}
