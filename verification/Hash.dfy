/** The multiplicative string hash: four bytes a step, then the tail byte by byte. */
module Hash {
  import opened Arithmetic

  // ---- One step ----

  /** `(h * 0x3e11ef) ^ x` on unsigned 32-bit integers. */
  function Fold(h: nat, x: nat): (r: nat)
    requires x < TWO32
    ensures r < TWO32
  {
    Pow2Of32();
    XorBound(U32(h * 0x3e11ef), x, 32);
    Xor(U32(h * 0x3e11ef), x)
  }

  /** A `char` widened to 32 bits; whether `char` is signed is up to the platform. */
  function Widen(b: Byte, signedChar: bool): (r: nat)
    ensures r < TWO32 && r % 256 == b
  {
    if signedChar && b >= 128 then b + 0xFFFF_FF00 else b
  }

  function Start(b: Byte, signedChar: bool): (r: nat)
    ensures r < TWO32
  {
    Pow2Of32();
    XorBound(0xe6ee7103, U32(Widen(b, signedChar) * 128), 32);
    Xor(0xe6ee7103, U32(Widen(b, signedChar) * 128))
  }

  /** The multiplier is odd; 0x6a593d0f is its inverse modulo 2^32. */
  lemma MultiplierInjective(h: nat, g: nat)
    requires h < 0x1_0000_0000 && g < 0x1_0000_0000
    requires (h * 0x3e11ef) % 0x1_0000_0000 == (g * 0x3e11ef) % 0x1_0000_0000
    ensures h == g
  {
    var t := EqualModDifference(h * 0x3e11ef, g * 0x3e11ef, 0x1_0000_0000);
    assert h - g == (t * 0x6a593d0f - (h - g) * 1689872) * 0x1_0000_0000;
  }

  /** So a step loses nothing of the state. */
  lemma {:induction false} FoldStateInjective(h: nat, g: nat, x: nat)
    requires h < TWO32 && g < TWO32 && x < TWO32
    requires Fold(h, x) == Fold(g, x)
    ensures h == g
  {
    XorInjective(U32(h * 0x3e11ef), U32(g * 0x3e11ef), x);
    MultiplierInjective(h, g);
  }

  /** Nor of the chunk. */
  lemma {:induction false} FoldChunkInjective(h: nat, x: nat, y: nat)
    requires x < TWO32 && y < TWO32
    requires Fold(h, x) == Fold(h, y)
    ensures x == y
  {
    var m := U32(h * 0x3e11ef);
    XorCommutes(m, x);
    XorCommutes(m, y);
    XorInjective(x, y, m);
  }

  lemma StartIsOdd(b: Byte, signedChar: bool)
    ensures Start(b, signedChar) % 2 == 1
  {
    XorHalf(0xe6ee7103, U32(Widen(b, signedChar) * 128));
  }

  lemma ShiftedLowByte(w: nat, v: nat)
    requires w % 2 == v % 2
    ensures U32(w * 128) % 256 == U32(v * 128) % 256
  {
    var t := EqualModDifference(w, v, 2);
    ModAddMultiple(v * 128, t, 256);
    LowBitsOfU32(w * 128);
    LowBitsOfU32(v * 128);
  }

  lemma StartLowByte(b: Byte, c: Byte, signedChar: bool)
    requires b % 2 == c % 2
    ensures Start(b, signedChar) % 256 == Start(c, signedChar) % 256
  {
    var e, f := U32(Widen(b, signedChar) * 128), U32(Widen(c, signedChar) * 128);
    ShiftedLowByte(Widen(b, signedChar), Widen(c, signedChar));
    assert Pow2(8) == 256;
    XorLowBitsResult(0xe6ee7103, e, 0xe6ee7103, f, 8);
  }

  lemma LowBitsOfU32(x: nat)
    ensures U32(x) % 256 == x % 256 && U32(x) % 2 == x % 2
  {
    ModOfMod(x, 256, 0x100_0000, 0x1_0000_0000);
    ModOfMod(x, 2, 0x8000_0000, 0x1_0000_0000);
  }

  lemma ProductLowByte(h: nat, g: nat)
    requires h % 256 == g % 256
    ensures U32(h * 0x3e11ef) % 256 == U32(g * 0x3e11ef) % 256
  {
    var t := EqualModDifference(h, g, 256);
    ModAddMultiple(g * 0x3e11ef, t * 0x3e11ef, 256);
    LowBitsOfU32(h * 0x3e11ef);
    LowBitsOfU32(g * 0x3e11ef);
  }

  lemma ProductParity(h: nat)
    requires h % 2 == 1
    ensures U32(h * 0x3e11ef) % 2 == 1
  {
    DivMod(h, 2);
    ModAddMultiple(0x3e11ef, h / 2 * 0x3e11ef, 2);
    LowBitsOfU32(h * 0x3e11ef);
  }

  /** The first byte enters both the start value and the first chunk; the two never cancel. */
  lemma {:induction false} FirstStepSeparates(b: Byte, c: Byte, x: nat, y: nat, signedChar: bool)
    requires x < TWO32 && y < TWO32 && x % 256 == b && y % 256 == c
    requires Fold(Start(b, signedChar), x) == Fold(Start(c, signedChar), y)
    ensures b == c
  {
    var h, g := Start(b, signedChar), Start(c, signedChar);
    var m, n := U32(h * 0x3e11ef), U32(g * 0x3e11ef);
    StartIsOdd(b, signedChar);
    StartIsOdd(c, signedChar);
    ProductParity(h);
    ProductParity(g);
    XorHalf(m, x);
    XorHalf(n, y);
    SameParity(m, x, n, y, b, c);
    StartLowByte(b, c, signedChar);
    ProductLowByte(h, g);
    assert Pow2(8) == 256;
    XorLowBits(m, x, n, y, 8);
  }

  lemma SameParity(m: nat, x: nat, n: nat, y: nat, b: Byte, c: Byte)
    requires m % 2 == n % 2 == 1 && (m + x) % 2 == (n + y) % 2
    requires x % 256 == b && y % 256 == c
    ensures b % 2 == c % 2
  {
    ModOfMod(x, 2, 128, 256);
    ModOfMod(y, 2, 128, 256);
    var t := EqualModDifference(m, n, 2);
    var u := EqualModDifference(m + x, n + y, 2);
    ModAddMultiple(y, u - t, 2);
  }

  // ---- Chunks ----

  function Tail(n: nat): (r: nat)
    requires n > 0
    ensures 1 <= r <= 4 && r <= n && (n - r) % 4 == 0
  {
    if n % 4 == 0 then 4 else n % 4
  }

  function WordCount(n: nat): (k: nat)
    requires n > 0
    ensures 4 * k + Tail(n) == n
  {
    (n - Tail(n)) / 4
  }

  function StepCount(n: nat): (k: nat)
    requires n > 0
    ensures k > 0
  {
    WordCount(n) + Tail(n)
  }

  /** The position of the first byte that step i consumes, in a string of n bytes. */
  function ChunkStart(n: nat, i: nat): (p: nat)
    requires n > 0 && i <= StepCount(n)
    ensures p <= n && (i == StepCount(n) ==> p == n)
    ensures i < WordCount(n) ==> p + 4 < n
    ensures i < StepCount(n) ==> p < n
  {
    if i <= WordCount(n) then 4 * i else 4 * WordCount(n) + (i - WordCount(n))
  }

  /** The bytes that step i consumes. */
  function ChunkBytes(str: seq<Byte>, i: nat): (c: seq<Byte>)
    requires |str| > 0 && i < StepCount(|str|)
    ensures |c| == (if i < WordCount(|str|) then 4 else 1)
  {
    str[ChunkStart(|str|, i)..ChunkStart(|str|, i + 1)]
  }

  /** The number that step i folds in. */
  function Chunk(str: seq<Byte>, i: nat): (x: nat)
    requires |str| > 0 && i < StepCount(|str|)
    ensures x < TWO32
  {
    var p := ChunkStart(|str|, i);
    if i < WordCount(|str|) then Word(str[p], str[p + 1], str[p + 2], str[p + 3]) else str[p]
  }

  /** Equal chunk numbers come from equal chunk bytes. */
  lemma ChunkInjective(s: seq<Byte>, t: seq<Byte>, i: nat)
    requires |s| == |t| > 0 && i < StepCount(|s|)
    ensures Chunk(s, i) == Chunk(t, i) <==> ChunkBytes(s, i) == ChunkBytes(t, i)
  {
    var p := ChunkStart(|s|, i);
    var a, b := ChunkBytes(s, i), ChunkBytes(t, i);
    if i < WordCount(|s|) {
      assert a == [s[p], s[p + 1], s[p + 2], s[p + 3]];
      assert b == [t[p], t[p + 1], t[p + 2], t[p + 3]];
      if Chunk(s, i) == Chunk(t, i) {
        WordInjective(s[p], s[p + 1], s[p + 2], s[p + 3], t[p], t[p + 1], t[p + 2], t[p + 3]);
      }
    } else {
      assert a == [s[p]] && b == [t[p]];
    }
  }

  ghost function Joined(str: seq<Byte>, k: nat): seq<Byte>
    requires |str| > 0 && k <= StepCount(|str|)
  {
    if k == 0 then [] else Joined(str, k - 1) + ChunkBytes(str, k - 1)
  }

  /** The steps consume the string from left to right, every byte in exactly one step. */
  lemma {:induction false} ChunksPartition(str: seq<Byte>, k: nat)
    requires |str| > 0 && k <= StepCount(|str|)
    ensures Joined(str, k) == str[..ChunkStart(|str|, k)]
    ensures k == StepCount(|str|) ==> Joined(str, k) == str
  {
    if k > 0 {
      ChunksPartition(str, k - 1);
    }
  }

  /** All the numbers folded in, in order. */
  function Chunks(str: seq<Byte>): (xs: seq<Uint32>)
    requires |str| > 0
    ensures |xs| == StepCount(|str|)
  {
    seq(StepCount(|str|), i requires 0 <= i < StepCount(|str|) => Chunk(str, i))
  }

  // ---- The hash ----

  /** The accumulator after the first k chunks. */
  function State(h: Uint32, xs: seq<Uint32>, k: nat): Uint32
    requires k <= |xs|
  {
    if k == 0 then h else Fold(State(h, xs, k - 1), xs[k - 1])
  }

  function Finish(h: nat, n: nat): nat {
    Xor(Xor(h, n), 0x1a8fed1f)
  }

  function HashOf(str: seq<Byte>, signedChar: bool): nat
    requires |str| > 0
  {
    Finish(State(Start(str[0], signedChar), Chunks(str), StepCount(|str|)), |str|)
  }

  lemma WordChunk(str: seq<Byte>, i: nat)
    requires |str| > 0 && i < WordCount(|str|)
    ensures 4 * i + 4 < |str|
    ensures Chunks(str)[i] == Word(str[4 * i], str[4 * i + 1], str[4 * i + 2], str[4 * i + 3])
  {
  }

  lemma TailChunk(str: seq<Byte>, i: nat)
    requires |str| > 0 && i < Tail(|str|)
    ensures 4 * WordCount(|str|) + i < |str|
    ensures Chunks(str)[WordCount(|str|) + i] == str[4 * WordCount(|str|) + i]
  {
  }

  method GetHash(str: seq<Byte>, signedChar: bool) returns (index: nat)
    requires 0 < |str| < TWO32
    ensures index == HashOf(str, signedChar)
  {
    var remain := |str| % 4;
    if remain == 0 {
      remain := 4;
    }
    var len := (|str| - remain) / 4;
    index := 0xe6ee7103;
    index := Xor(index, U32(Widen(str[0], signedChar) * 128));
    ghost var start, xs := Start(str[0], signedChar), Chunks(str);
    var i := 0;
    while i < len
      invariant i <= len == WordCount(|str|)
      invariant index == State(start, xs, i)
    {
      WordChunk(str, i);
      index := Fold(index, Word(str[4 * i], str[4 * i + 1], str[4 * i + 2], str[4 * i + 3]));
      i := i + 1;
    }
    index := FoldTail(str, 4 * i, remain, start, index);
    index := Xor(index, |str|);
    index := Xor(index, 0x1a8fed1f);
  }

  /** The byte loop of `GetHash`. */
  method FoldTail(str: seq<Byte>, first: nat, remain: nat, ghost start: Uint32, h: nat) returns (index: nat)
    requires |str| > 0 && remain == Tail(|str|) && first == 4 * WordCount(|str|)
    requires h == State(start, Chunks(str), WordCount(|str|))
    ensures index == State(start, Chunks(str), StepCount(|str|))
  {
    ghost var xs, len := Chunks(str), WordCount(|str|);
    var byte := first;
    index := h;
    var i := 0;
    while i < remain
      invariant i <= remain && byte == first + i
      invariant index == State(start, xs, len + i)
    {
      TailChunk(str, i);
      LastStep(start, xs, len + i + 1);
      index := Fold(index, str[byte]);
      byte := byte + 1;
      i := i + 1;
    }
  }

  // ---- The hash as a recurrence ----

  /** The hash without its last two exclusive ors. */
  ghost function Accumulated(str: seq<Byte>, signedChar: bool): nat
    requires |str| > 0
  {
    Xor(Xor(HashOf(str, signedChar), 0x1a8fed1f), |str|)
  }

  lemma AccumulatedIsState(str: seq<Byte>, signedChar: bool)
    requires |str| > 0
    ensures Accumulated(str, signedChar) == State(Start(str[0], signedChar), Chunks(str), StepCount(|str|))
  {
    var h := State(Start(str[0], signedChar), Chunks(str), StepCount(|str|));
    XorTwice(Xor(h, |str|), 0x1a8fed1f);
    XorTwice(h, |str|);
  }

  /** One byte: the start value, multiplied, and the byte again. */
  lemma {:induction false} OneByte(b: Byte, signedChar: bool, widened: nat)
    requires widened == if signedChar && b >= 128 then b + 0xFFFF_FF00 else b
    ensures Accumulated([b], signedChar)
         == Xor(Xor(0xe6ee7103, widened * 128 % 0x1_0000_0000) * 0x3e11ef % 0x1_0000_0000, b)
  {
    var xs, h := Chunks([b]), Start(b, signedChar);
    AccumulatedIsState([b], signedChar);
    TailChunk([b], 0);
    assert State(h, xs, 1) == Fold(State(h, xs, 0), b);
  }

  /** Within a tail the last byte is one more step. */
  lemma {:induction false} ByteStep(str: seq<Byte>, signedChar: bool)
    requires |str| > 1 && |str| % 4 != 1
    ensures Accumulated(str, signedChar)
         == Xor(Accumulated(str[..|str| - 1], signedChar) * 0x3e11ef % 0x1_0000_0000, str[|str| - 1])
  {
    var n := |str|;
    var front := str[..n - 1];
    TailGrows(n);
    AccumulatedIsState(str, signedChar);
    AccumulatedIsState(front, signedChar);
    SameChunks(str, front, StepCount(n) - 1);
    StatesAgree(Start(str[0], signedChar), Chunks(str), Chunks(front), StepCount(n) - 1);
    TailChunk(str, Tail(n) - 1);
  }

  lemma TailGrows(n: nat)
    requires n > 1 && n % 4 != 1
    ensures Tail(n) == Tail(n - 1) + 1 && WordCount(n) == WordCount(n - 1)
  {
  }

  /** Strings with a common beginning share the steps that both of them take in it. */
  lemma {:induction false} SameChunks(s: seq<Byte>, t: seq<Byte>, k: nat)
    requires 0 < |t| <= |s| && s[..|t|] == t
    requires k <= StepCount(|s|) && k <= StepCount(|t|)
    requires WordCount(|s|) == WordCount(|t|) || k <= WordCount(|t|) <= WordCount(|s|)
    ensures forall i | 0 <= i < k :: Chunks(s)[i] == Chunks(t)[i]
  {
    forall i | 0 <= i < k
      ensures Chunks(s)[i] == Chunks(t)[i]
    {
      if i < WordCount(|t|) {
        WordChunk(s, i);
        WordChunk(t, i);
      } else {
        TailChunk(s, i - WordCount(|t|));
        TailChunk(t, i - WordCount(|t|));
      }
    }
  }

  /**
   From accumulator w, byte a leads to `before`; the little-endian word of a, b, c, d and then the byte
   `last` lead to `after`.
   */
  ghost predicate WordAndByte(w: nat, before: nat, after: nat, a: nat, b: nat, c: nat, d: nat, last: nat) {
    && w < 0x1_0000_0000
    && before == Xor(w * 0x3e11ef % 0x1_0000_0000, a)
    && after == Xor(Xor(w * 0x3e11ef % 0x1_0000_0000, a + 0x100 * b + 0x1_0000 * c + 0x100_0000 * d)
                    * 0x3e11ef % 0x1_0000_0000, last)
  }

  /** At length 4k + 1 the four bytes before the last, so far a word's first byte and a tail, become one word. */
  lemma {:induction false} WordStep(str: seq<Byte>, signedChar: bool, n: nat, front: seq<Byte>) returns (w: nat)
    requires n == |str| > 1 && n % 4 == 1 && front == str[..n - 4]
    ensures WordAndByte(w, Accumulated(front, signedChar), Accumulated(str, signedChar),
                        str[n - 5], str[n - 4], str[n - 3], str[n - 2], str[n - 1])
  {
    NewWord(n);
    w := State(Start(str[0], signedChar), Chunks(str), WordCount(n) - 1);
    FrontState(str, signedChar, n, front);
    FullState(str, signedChar, n);
    FoldsWritten(w, str[n - 5], str[n - 4], str[n - 3], str[n - 2], str[n - 1]);
  }

  lemma NewWord(n: nat)
    requires n > 1 && n % 4 == 1
    ensures Tail(n) == Tail(n - 4) == 1 && n == 4 * WordCount(n) + 1 && WordCount(n - 4) == WordCount(n) - 1
  {
  }

  lemma {:induction false} FoldsWritten(w: nat, a: Byte, b: Byte, c: Byte, d: Byte, last: Byte)
    requires w < TWO32
    ensures WordAndByte(w, Fold(w, a), Fold(Fold(w, Word(a, b, c, d)), last), a, b, c, d, last)
  {
  }

  lemma {:induction false} TwoSteps(h: Uint32, xs: seq<Uint32>, k: nat)
    requires k + 2 <= |xs|
    ensures State(h, xs, k + 2) == Fold(Fold(State(h, xs, k), xs[k]), xs[k + 1])
  {
    assert State(h, xs, k + 1) == Fold(State(h, xs, k), xs[k]);
  }

  lemma {:induction false} FullState(str: seq<Byte>, signedChar: bool, n: nat)
    requires n == |str| > 1 && n % 4 == 1
    ensures WordCount(n) > 0
    ensures Accumulated(str, signedChar)
         == Fold(Fold(State(Start(str[0], signedChar), Chunks(str), WordCount(n) - 1),
                      Word(str[n - 5], str[n - 4], str[n - 3], str[n - 2])), str[n - 1])
  {
    NewWord(n);
    AccumulatedIsState(str, signedChar);
    WordChunk(str, WordCount(n) - 1);
    TailChunk(str, 0);
    TwoSteps(Start(str[0], signedChar), Chunks(str), WordCount(n) - 1);
  }

  lemma {:induction false} FrontState(str: seq<Byte>, signedChar: bool, n: nat, front: seq<Byte>)
    requires n == |str| > 1 && n % 4 == 1 && front == str[..n - 4]
    ensures WordCount(n) > 0
    ensures Accumulated(front, signedChar)
         == Fold(State(Start(str[0], signedChar), Chunks(str), WordCount(n) - 1), str[n - 5])
  {
    NewWord(n);
    var h, k := Start(str[0], signedChar), WordCount(n);
    AccumulatedIsState(front, signedChar);
    SameChunks(str, front, k - 1);
    StatesAgree(h, Chunks(str), Chunks(front), k - 1);
    assert Chunks(front)[k - 1] == str[n - 5] && StepCount(n - 4) == k by { TailChunk(front, 0); }
    assert front[0] == str[0];
    LastStep(h, Chunks(front), k);
  }

  lemma {:induction false} LastStep(h: Uint32, xs: seq<Uint32>, k: nat)
    requires 0 < k <= |xs|
    ensures State(h, xs, k) == Fold(State(h, xs, k - 1), xs[k - 1])
  {
  }

  /** And there is only one such accumulator. */
  lemma StepSource(w: nat, v: nat, b: Byte)
    requires w < 0x1_0000_0000 && v < 0x1_0000_0000
    requires Xor(w * 0x3e11ef % 0x1_0000_0000, b) == Xor(v * 0x3e11ef % 0x1_0000_0000, b)
    ensures w == v
  {
    XorInjective(w * 0x3e11ef % 0x1_0000_0000, v * 0x3e11ef % 0x1_0000_0000, b);
    MultiplierInjective(w, v);
  }

  // ---- Separation ----

  lemma {:induction false} StatesAgree(h: Uint32, xs: seq<Uint32>, ys: seq<Uint32>, k: nat)
    requires k <= |xs| && k <= |ys|
    requires forall i | 0 <= i < k :: xs[i] == ys[i]
    ensures State(h, xs, k) == State(h, ys, k)
  {
    if k > 0 {
      StatesAgree(h, xs, ys, k - 1);
    }
  }

  /** Once apart, equal chunks never bring two accumulators together again. */
  lemma {:induction false} StatesStayApart(h: Uint32, g: Uint32, xs: seq<Uint32>, ys: seq<Uint32>, j: nat, k: nat)
    requires j <= k <= |xs| == |ys|
    requires State(h, xs, j) != State(g, ys, j)
    requires forall i | j <= i < k :: xs[i] == ys[i]
    ensures State(h, xs, k) != State(g, ys, k)
  {
    if j < k {
      StatesStayApart(h, g, xs, ys, j, k - 1);
      if State(h, xs, k) == State(g, ys, k) {
        FoldStateInjective(State(h, xs, k - 1), State(g, ys, k - 1), xs[k - 1]);
      }
    }
  }

  /** Strings of one length whose chunks agree everywhere except at j, where they differ. */
  ghost predicate DifferOnlyAt(s: seq<Byte>, t: seq<Byte>, j: nat) {
    && |s| == |t| > 0
    && j < StepCount(|s|)
    && ChunkBytes(s, j) != ChunkBytes(t, j)
    && forall i: nat | i < StepCount(|s|) && i != j :: ChunkBytes(s, i) == ChunkBytes(t, i)
  }

  lemma ChunksDifferOnlyAt(s: seq<Byte>, t: seq<Byte>, j: nat)
    requires DifferOnlyAt(s, t, j)
    ensures Chunks(s)[j] != Chunks(t)[j]
    ensures forall i: nat | i < StepCount(|s|) && i != j :: Chunks(s)[i] == Chunks(t)[i]
  {
    ChunkInjective(s, t, j);
    forall i: nat | i < StepCount(|s|) && i != j
      ensures Chunks(s)[i] == Chunks(t)[i]
    {
      ChunkInjective(s, t, i);
    }
  }

  lemma FirstChunkHoldsFirstByte(s: seq<Byte>)
    requires |s| > 0
    ensures Chunks(s)[0] % 256 == s[0]
  {
  }

  /** From one start, the first differing chunk parts the accumulators. */
  lemma {:induction false} StatesPartAt(h: Uint32, xs: seq<Uint32>, ys: seq<Uint32>, j: nat)
    requires j < |xs| == |ys| && xs[j] != ys[j]
    requires forall i | 0 <= i < j :: xs[i] == ys[i]
    ensures State(h, xs, j + 1) != State(h, ys, j + 1)
  {
    StatesAgree(h, xs, ys, j);
    if State(h, xs, j + 1) == State(h, ys, j + 1) {
      FoldChunkInjective(State(h, xs, j), xs[j], ys[j]);
    }
  }

  /** So do two first chunks, even though their first bytes also give two different starts. */
  lemma {:induction false} FirstChunksPart(b: Byte, c: Byte, signedChar: bool, xs: seq<Uint32>, ys: seq<Uint32>)
    requires |xs| > 0 && |ys| > 0 && xs[0] % 256 == b && ys[0] % 256 == c && b != c
    ensures State(Start(b, signedChar), xs, 1) != State(Start(c, signedChar), ys, 1)
  {
    var h, g := Start(b, signedChar), Start(c, signedChar);
    assert State(h, xs, 1) == Fold(State(h, xs, 0), xs[0]);
    assert State(g, ys, 1) == Fold(State(g, ys, 0), ys[0]);
    if Fold(h, xs[0]) == Fold(g, ys[0]) {
      FirstStepSeparates(b, c, xs[0], ys[0], signedChar);
    }
  }

  /** A difference confined to one aligned word or one tail byte always changes the hash. */
  lemma {:induction false} OneChunkSeparates(s: seq<Byte>, t: seq<Byte>, signedChar: bool, j: nat)
    requires DifferOnlyAt(s, t, j)
    ensures HashOf(s, signedChar) != HashOf(t, signedChar)
  {
    var h, g, xs, ys := Start(s[0], signedChar), Start(t[0], signedChar), Chunks(s), Chunks(t);
    ChunksDifferOnlyAt(s, t, j);
    FirstChunkHoldsFirstByte(s);
    FirstChunkHoldsFirstByte(t);
    if s[0] != t[0] {
      FirstChunksPart(s[0], t[0], signedChar, xs, ys);
    } else {
      StatesPartAt(h, xs, ys, j);
    }
    StatesStayApart(h, g, xs, ys, j + 1, |xs|);
    if HashOf(s, signedChar) == HashOf(t, signedChar) {
      XorInjective(Xor(State(h, xs, |xs|), |s|), Xor(State(g, ys, |ys|), |t|), 0x1a8fed1f);
      XorInjective(State(h, xs, |xs|), State(g, ys, |ys|), |s|);
    }
  }
}
