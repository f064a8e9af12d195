/** Machine-integer helpers and the number theory shared by the other modules. */
module Arithmetic {
  const TWO32 := 0x1_0000_0000
  const TWO64 := 0x1_0000_0000_0000_0000

  type Byte = b: nat | b < 256
  type Uint32 = x: nat | x < TWO32

  /** Conversion to an unsigned 32-bit integer. */
  function U32(x: int): (r: nat)
    ensures r < TWO32
  {
    x % TWO32
  }

  const TWO31 := 0x8000_0000

  /** Conversion to a signed 32-bit integer. */
  function AsInt(x: int): (r: int)
    ensures -TWO31 <= r < TWO31
  {
    if U32(x) < TWO31 then U32(x) else U32(x) - TWO32
  }

  function Max(a: int, b: int): int {
    if a > b then a else b
  }

  function Pow2(k: nat): (p: nat)
    ensures p >= 1
  {
    if k == 0 then 1 else 2 * Pow2(k - 1)
  }

  lemma Pow2Of32()
    ensures Pow2(32) == TWO32
  {
    assert Pow2(8) == 0x100;
    assert Pow2(16) == 0x1_0000;
    assert Pow2(24) == 0x100_0000;
  }

  lemma {:induction false} Pow2Divides(j: nat, k: nat)
    requires j <= k
    ensures Pow2(k) == Pow2(j) * Pow2(k - j)
    decreases k
  {
    if j < k {
      Pow2Divides(j, k - 1);
      assert Pow2(k - j) == 2 * Pow2(k - 1 - j);
    }
  }

  /** A product with a positive factor is at least that factor in size, unless it is zero. */
  lemma MultipleIsLarge(d: int, m: int)
    requires m > 0
    ensures d >= 1 ==> d * m >= m
    ensures d <= -1 ==> d * m <= -m
  {
  }

  lemma Distribute(d: int, e: int, m: int)
    ensures (d - e) * m == d * m - e * m
    ensures (d + e) * m == d * m + e * m
  {
  }

  lemma PeelMultiple(q: nat, p: nat, n: nat)
    requires q > 0 && n == q * p
    ensures n >= p && n - p == (q - 1) * p
  {
    Distribute(q, 1, p);
    assert (q - 1) * p >= 0;
  }

  lemma Associate(x: int, y: int, z: int)
    ensures (x * y) * z == x * (y * z) == y * (x * z)
  {
  }

  lemma DivMod(x: int, m: int)
    requires m > 0
    ensures x == (x / m) * m + x % m
    ensures 0 <= x % m < m
  {
  }

  /** The quotient and remainder by m are unique. */
  lemma DivModUnique(x: int, q: int, r: int, m: int)
    requires m > 0 && 0 <= r < m && x == q * m + r
    ensures x / m == q && x % m == r
  {
    DivMod(x, m);
    Distribute(x / m, q, m);
    MultipleIsLarge(x / m - q, m);
  }

  lemma ModAddMultiple(x: int, t: int, m: int)
    requires m > 0
    ensures (x + t * m) % m == x % m
  {
    DivMod(x, m);
    Distribute(x / m, t, m);
    DivModUnique(x + t * m, x / m + t, x % m, m);
  }

  lemma ModAdd(y: int, c: int, m: int)
    requires m > 0
    ensures (y % m + c) % m == (y + c) % m
  {
    DivMod(y, m);
    ModAddMultiple(y % m + c, y / m, m);
  }

  lemma EqualModDifference(x: int, y: int, m: int) returns (t: int)
    requires m > 0 && x % m == y % m
    ensures x - y == t * m
  {
    t := x / m - y / m;
    DivMod(x, m);
    DivMod(y, m);
    Distribute(x / m, y / m, m);
  }

  lemma ModOfMod(x: int, m: int, r: int, n: int)
    requires m > 0 && r > 0 && n == m * r && n > 0
    ensures (x % n) % m == x % m
  {
    var q := x / n;
    DivMod(x, n);
    Associate(q, m, r);
    Associate(q * r, m, 1);
    Associate(m, q, r);
    ModAddMultiple(x % n, q * r, m);
  }

  lemma SmallMod(x: int, m: int)
    requires 0 <= x < m
    ensures x % m == x
  {
    DivModUnique(x, 0, x, m);
  }

  lemma {:induction false} DivDiv(x: int, p: nat, q: nat)
    requires p > 0 && q > 0
    ensures x / (p * q) == (x / p) / q
  {
    var a, b := x / p, x / p / q;
    DivMod(x, p);
    DivMod(a, q);
    Associate(b, q, p);
    Distribute(b * q, a % q, p);
    MultipleIsLarge(q - 1 - a % q, p);
    Distribute(q - 1, a % q, p);
    Distribute(q, 1, p);
    DivModUnique(x, b, a % q * p + x % p, p * q);
  }

  lemma U32Small(x: int)
    requires 0 <= x < TWO32
    ensures U32(x) == x
  {
    SmallMod(x, TWO32);
  }

  /** The conversion keeps a 32-bit number exactly when the number has 31 bits. */
  lemma AsIntExact(x: nat)
    requires x < TWO32
    ensures AsInt(x) == if x < TWO31 then x else x - TWO32
    ensures AsInt(x) == x <==> x < TWO31
  {
    U32Small(x);
  }

  lemma MulCancel(m: int, x: int, y: int)
    requires m > 0 && x * m == y * m
    ensures x == y
  {
    Distribute(x, y, m);
    MultipleIsLarge(x - y, m);
  }

  lemma {:induction false} OddPart(n: nat) returns (j: nat, q: nat)
    requires n > 0
    ensures q % 2 == 1 && n == q * Pow2(j)
  {
    if n % 2 == 1 {
      j, q := 0, n;
    } else {
      j, q := OddPart(n / 2);
      j := j + 1;
      Associate(q, 2, Pow2(j - 1));
    }
  }

  // ---- Exclusive or on natural numbers ----

  function Xor(x: nat, y: nat): nat {
    if x == 0 && y == 0 then 0
    else 2 * Xor(x / 2, y / 2) + (if x % 2 == y % 2 then 0 else 1)
  }

  lemma {:induction false} XorZero(x: nat)
    ensures Xor(x, 0) == x
  {
    if x > 0 {
      XorZero(x / 2);
    }
  }

  lemma {:induction false} XorTwice(x: nat, y: nat)
    ensures Xor(Xor(x, y), y) == x
  {
    XorHalves(x, y);
    XorHalves(Xor(x, y), y);
    if x > 0 || y > 0 {
      XorTwice(x / 2, y / 2);
    }
  }

  lemma {:induction false} XorHalves(x: nat, y: nat)
    ensures Xor(x, y) / 2 == Xor(x / 2, y / 2) && Xor(x, y) % 2 == if x % 2 == y % 2 then 0 else 1
  {
  }

  /** Where the operands share no bit position, exclusive or is addition. */
  lemma {:induction false} XorDisjoint(hi: nat, lo: nat, k: nat)
    requires lo < Pow2(k)
    ensures Xor(hi * Pow2(k), lo) == hi * Pow2(k) + lo
  {
    if k == 0 {
      XorZero(hi);
    } else {
      Associate(hi, 2, Pow2(k - 1));
      HalveShifted(hi * Pow2(k - 1), lo);
      XorDisjoint(hi, lo / 2, k - 1);
    }
  }

  lemma HalveShifted(h: nat, lo: nat)
    ensures (2 * h) / 2 == h && (2 * h) % 2 == 0 && lo == 2 * (lo / 2) + lo % 2
  {
  }

  lemma {:induction false} XorBound(x: nat, y: nat, k: nat)
    requires x < Pow2(k) && y < Pow2(k)
    ensures Xor(x, y) < Pow2(k)
  {
    if k > 0 {
      XorBound(x / 2, y / 2, k - 1);
    }
  }

  lemma {:induction false} XorInjective(x: nat, y: nat, z: nat)
    requires Xor(x, z) == Xor(y, z)
    ensures x == y
    decreases x + y + z
  {
    if x + y + z > 0 {
      XorInjective(x / 2, y / 2, z / 2);
    }
  }

  lemma {:induction false} XorCommutes(x: nat, y: nat)
    ensures Xor(x, y) == Xor(y, x)
    decreases x + y
  {
    if x + y > 0 {
      XorCommutes(x / 2, y / 2);
    }
  }

  lemma {:induction false} XorHalf(x: nat, y: nat)
    ensures Xor(x, y) / 2 == Xor(x / 2, y / 2)
    ensures Xor(x, y) % 2 == (x + y) % 2
  {
  }

  lemma LowBitsSplit(x: nat, k: nat)
    requires k > 0
    ensures x % Pow2(k) == 2 * (x / 2 % Pow2(k - 1)) + x % 2
  {
    var p := Pow2(k - 1);
    var h := x / 2;
    DivMod(h, p);
    Associate(h / p, 2, p);
    DivModUnique(x, h / p, 2 * (h % p) + x % 2, 2 * p);
  }

  /** The low k bits of one operand and of the result fix the low k bits of the other. */
  lemma {:induction false} XorLowBits(x: nat, y: nat, x': nat, y': nat, k: nat)
    requires Xor(x, y) == Xor(x', y') && x % Pow2(k) == x' % Pow2(k)
    ensures y % Pow2(k) == y' % Pow2(k)
  {
    if k > 0 {
      LowBitsSplit(x, k);
      LowBitsSplit(x', k);
      LowBitsSplit(y, k);
      LowBitsSplit(y', k);
      XorHalf(x, y);
      XorHalf(x', y');
      EvenOddUnique(x / 2 % Pow2(k - 1), x % 2, x' / 2 % Pow2(k - 1), x' % 2);
      XorLowBits(x / 2, y / 2, x' / 2, y' / 2, k - 1);
    }
  }

  /** The low k bits of the operands fix the low k bits of the result. */
  lemma {:induction false} XorLowBitsResult(x: nat, y: nat, x': nat, y': nat, k: nat)
    requires x % Pow2(k) == x' % Pow2(k) && y % Pow2(k) == y' % Pow2(k)
    ensures Xor(x, y) % Pow2(k) == Xor(x', y') % Pow2(k)
  {
    if k > 0 {
      LowBitsSplit(x, k);
      LowBitsSplit(x', k);
      LowBitsSplit(y, k);
      LowBitsSplit(y', k);
      LowBitsSplit(Xor(x, y), k);
      LowBitsSplit(Xor(x', y'), k);
      XorHalf(x, y);
      XorHalf(x', y');
      EvenOddUnique(x / 2 % Pow2(k - 1), x % 2, x' / 2 % Pow2(k - 1), x' % 2);
      EvenOddUnique(y / 2 % Pow2(k - 1), y % 2, y' / 2 % Pow2(k - 1), y' % 2);
      XorLowBitsResult(x / 2, y / 2, x' / 2, y' / 2, k - 1);
    }
  }

  lemma EvenOddUnique(h: nat, b: nat, h': nat, b': nat)
    requires b < 2 && b' < 2 && 2 * h + b == 2 * h' + b'
    ensures h == h' && b == b'
  {
  }

  // ---- Bytes ----

  /** The 32-bit word stored in four bytes, least significant first. */
  function Word(a: Byte, b: Byte, c: Byte, d: Byte): (w: nat)
    ensures w < TWO32 && w % 256 == a
  {
    a + 0x100 * b + 0x1_0000 * c + 0x100_0000 * d
  }

  lemma WordInjective(a: Byte, b: Byte, c: Byte, d: Byte, a': Byte, b': Byte, c': Byte, d': Byte)
    requires Word(a, b, c, d) == Word(a', b', c', d')
    ensures a == a' && b == b' && c == c' && d == d'
  {
    LowDigit(a, b + 0x100 * c + 0x1_0000 * d, a', b' + 0x100 * c' + 0x1_0000 * d');
    LowDigit(b, c + 0x100 * d, b', c' + 0x100 * d');
    LowDigit(c, d, c', d');
  }

  lemma LowDigit(a: Byte, r: nat, b: Byte, q: nat)
    requires a + 0x100 * r == b + 0x100 * q
    ensures a == b && r == q
  {
  }

  // ---- Pigeonhole ----

  ghost function Below(n: nat): (r: set<nat>)
    ensures |r| == n
    ensures forall i: nat :: i in r <==> i < n
  {
    if n == 0 then {} else Below(n - 1) + {n - 1}
  }

  ghost predicate NoDuplicates<T>(s: seq<T>) {
    forall i, j | 0 <= i < j < |s| :: s[i] != s[j]
  }

  ghost function Elements<T>(s: seq<T>): set<T> {
    set x | x in s
  }

  lemma {:induction false} ElementsSize<T>(s: seq<T>)
    requires NoDuplicates(s)
    ensures |Elements(s)| == |s|
  {
    if s != [] {
      var t, last := s[..|s| - 1], s[|s| - 1];
      ElementsSize(t);
      assert Elements(s) == Elements(t) + {last};
    }
  }

  /** A list of n different numbers below n contains all of them. */
  lemma PigeonholeOnto(s: seq<nat>, target: nat) returns (i: nat)
    requires forall i | 0 <= i < |s| :: s[i] < |s|
    requires NoDuplicates(s)
    requires target < |s|
    ensures i < |s| && s[i] == target
  {
    ElementsSize(s);
    SubsetOfEqualSize(Elements(s), Below(|s|));
    assert target in Below(|s|);
    i :| i < |s| && s[i] == target;
  }

  lemma SubsetOfEqualSize<T>(a: set<T>, b: set<T>)
    requires a <= b && |a| == |b|
    ensures a == b
  {
    if x :| x in b && x !in a {
      assert a <= b - {x};
      SubsetSize(a, b - {x});
    }
  }

  lemma {:induction false} SubsetSize<T>(a: set<T>, b: set<T>)
    requires a <= b
    ensures |a| <= |b|
    decreases a
  {
    if x :| x in a {
      SubsetSize(a - {x}, b - {x});
    }
  }
}
