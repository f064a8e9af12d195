/** A bitmap in 32-bit words, updated byte by byte, against a set of indices. */
module Bitmap {
  import opened Arithmetic
  import opened Bits

  /** no_words_in_map. */
  function Words(nBits: nat): nat {
    (nBits + 31) / 32
  }

  /** Bit number i of a byte buffer. */
  predicate IsSetIn(bytes: seq<Byte>, i: nat)
    requires i < 8 * |bytes|
  {
    Bit(bytes[i / 8], i % 8)
  }

  /** The indices below nBits whose bit is set. */
  ghost function Indices(bytes: seq<Byte>, nBits: nat): set<nat>
    requires nBits <= 8 * |bytes|
  {
    set i: nat | i < nBits && IsSetIn(bytes, i)
  }

  /** An index is in the set when binary digit i % 8 of byte i / 8 is one. */
  lemma {:induction false} IndexIsDigit(bytes: seq<Byte>, nBits: nat, i: nat)
    requires nBits <= 8 * |bytes|
    ensures i in Indices(bytes, nBits) <==> i < nBits && bytes[i / 8] / Pow2(i % 8) % 2 == 1
  {
    if i < nBits {
      BitIsDigit(bytes[i / 8], i % 8);
    }
  }

  // ---- One byte ----

  function SetIn(b: Byte, i: nat): Byte
    requires i < 8
  {
    Pow2Of8();
    Low(Or(b, Shl(1, i)), 8)
  }

  function FlipIn(b: Byte, i: nat): Byte
    requires i < 8
  {
    Pow2Of8();
    Low(Xor(b, Shl(1, i)), 8)
  }

  function ClearIn(b: Byte, i: nat): Byte
    requires i < 8
  {
    Pow2Of8();
    Low(AndNot(b, Shl(1, i)), 8)
  }

  lemma {:induction false} SetInBits(b: Byte, i: nat, j: nat)
    requires i < 8 && j < 8
    ensures Bit(SetIn(b, i), j) <==> j == i || Bit(b, j)
  {
    BitLow(Or(b, Shl(1, i)), 8, j);
    BitOr(b, Shl(1, i), j);
    BitOfOne(i, j);
  }

  lemma {:induction false} FlipInBits(b: Byte, i: nat, j: nat)
    requires i < 8 && j < 8
    ensures Bit(FlipIn(b, i), j) <==> (j == i) != Bit(b, j)
  {
    BitLow(Xor(b, Shl(1, i)), 8, j);
    BitXor(b, Shl(1, i), j);
    BitOfOne(i, j);
  }

  lemma {:induction false} ClearInBits(b: Byte, i: nat, j: nat)
    requires i < 8 && j < 8
    ensures Bit(ClearIn(b, i), j) <==> j != i && Bit(b, j)
  {
    BitLow(AndNot(b, Shl(1, i)), 8, j);
    BitAndNot(b, Shl(1, i), j);
    BitOfOne(i, j);
  }

  /** The test `b & (1 << i)`. */
  lemma {:induction false} TestBit(b: Byte, i: nat)
    requires i < 8
    ensures And(b, Shl(1, i)) != 0 <==> Bit(b, i)
  {
    var m := Shl(1, i);
    BitAnd(b, m, i);
    BitOfOne(i, i);
    BitOfZero(i);
    if !Bit(b, i) {
      Pow2Of8();
      assert And(b, m) < Pow2(8) by { AndCommutes(b, m); AndBound(m, b, 8); }
      forall j | 0 <= j < 8
        ensures Bit(And(b, m), j) == Bit(0, j)
      {
        BitAnd(b, m, j);
        BitOfOne(i, j);
        BitOfZero(j);
      }
      SameBits(And(b, m), 0, 8);
    }
  }

  lemma {:induction false} AndCommutes(x: nat, y: nat)
    ensures And(x, y) == And(y, x)
    decreases x + y
  {
    if x + y > 0 {
      AndCommutes(x / 2, y / 2);
    }
  }

  // ---- The whole buffer ----

  lemma SameIndex(i: nat, bit: nat)
    ensures i / 8 == bit / 8 && i % 8 == bit % 8 <==> i == bit
  {
  }

  datatype Op = Set(bit: nat) | Flip(bit: nat) | Clear(bit: nat) | ClearAll | SetAll

  /** The operations on sets of indices below n. */
  ghost function OnSet(s: set<nat>, op: Op, n: nat): set<nat> {
    match op
    case Set(bit) => s + {bit}
    case Flip(bit) => if bit in s then s - {bit} else s + {bit}
    case Clear(bit) => s - {bit}
    case ClearAll => {}
    case SetAll => Below(n)
  }

  function AllBytes(b: Byte, n: nat): (r: seq<Byte>)
    ensures |r| == n && forall i | 0 <= i < n :: r[i] == b
  {
    seq(n, _ => b)
  }

  /** The buffer that an operation leaves behind. */
  function OnBytes(bytes: seq<Byte>, op: Op): (r: seq<Byte>)
    requires op.Set? || op.Flip? || op.Clear? ==> op.bit < 8 * |bytes|
    ensures |r| == |bytes|
  {
    match op
    case Set(bit) => bytes[bit / 8 := SetIn(bytes[bit / 8], bit % 8)]
    case Flip(bit) => bytes[bit / 8 := FlipIn(bytes[bit / 8], bit % 8)]
    case Clear(bit) => bytes[bit / 8 := ClearIn(bytes[bit / 8], bit % 8)]
    case ClearAll => AllBytes(0, |bytes|)
    case SetAll => AllBytes(255, |bytes|)
  }

  lemma {:induction false} OpAtIndex(bytes: seq<Byte>, op: Op, n: nat, i: nat)
    requires i < n <= 8 * |bytes|
    requires op.Set? || op.Flip? || op.Clear? ==> op.bit < n
    ensures IsSetIn(OnBytes(bytes, op), i)
       <==> match op
            case Set(bit) => i == bit || IsSetIn(bytes, i)
            case Flip(bit) => (i == bit) != IsSetIn(bytes, i)
            case Clear(bit) => i != bit && IsSetIn(bytes, i)
            case ClearAll => false
            case SetAll => true
  {
    match op
    case Set(bit) =>
      SetInBits(bytes[bit / 8], bit % 8, i % 8);
      SameIndex(i, bit);
    case Flip(bit) =>
      FlipInBits(bytes[bit / 8], bit % 8, i % 8);
      SameIndex(i, bit);
    case Clear(bit) =>
      ClearInBits(bytes[bit / 8], bit % 8, i % 8);
      SameIndex(i, bit);
    case ClearAll =>
      BitOfZero(i % 8);
    case SetAll =>
      Pow2Of8();
      OnesBound(8);
      BitOnes(8, i % 8);
  }

  /** Every operation on the bytes is the same operation on the set. */
  lemma {:induction false} OpIsSetOp(bytes: seq<Byte>, op: Op, n: nat)
    requires n <= 8 * |bytes|
    requires op.Set? || op.Flip? || op.Clear? ==> op.bit < n
    ensures Indices(OnBytes(bytes, op), n) == OnSet(Indices(bytes, n), op, n)
  {
    forall i: nat | i < n
      ensures i in Indices(OnBytes(bytes, op), n) <==> i in OnSet(Indices(bytes, n), op, n)
    {
      OpAtIndex(bytes, op, n, i);
    }
  }

  // ---- Comparison ----

  /** The mask has exactly the bits of the last word that lie beyond nBits. */
  ghost predicate MaskCovers(mask: Uint32, nBits: nat)
    requires nBits > 0
  {
    forall j: nat | j < 32 :: Bit(mask, j) <==> 32 * (Words(nBits) - 1) + j >= nBits
  }

  function LastWord(bytes: seq<Byte>): Uint32
    requires |bytes| >= 4
  {
    var k := |bytes| - 4;
    Word(bytes[k], bytes[k + 1], bytes[k + 2], bytes[k + 3])
  }

  lemma {:induction false} LastWordBit(bytes: seq<Byte>, words: nat, j: nat)
    requires words > 0 && |bytes| == 4 * words && j < 32
    ensures Bit(LastWord(bytes), j) <==> IsSetIn(bytes, 32 * (words - 1) + j)
  {
    var k := |bytes| - 4;
    WordBits(bytes[k..], j);
    WordPosition(words - 1, j);
  }

  lemma WordPosition(w: nat, j: nat)
    requires j < 32
    ensures (32 * w + j) / 8 == 4 * w + j / 8 && (32 * w + j) % 8 == j % 8
  {
  }

  lemma {:induction false} BytesFromBits(a: seq<Byte>, b: seq<Byte>, k: nat)
    requires k < |a| == |b|
    requires forall i: nat | 8 * k <= i < 8 * k + 8 :: IsSetIn(a, i) == IsSetIn(b, i)
    ensures a[k] == b[k]
  {
    Pow2Of8();
    forall t | 0 <= t < 8
      ensures Bit(a[k], t) == Bit(b[k], t)
    {
      BytePosition(k, t);
      assert IsSetIn(a, 8 * k + t) == IsSetIn(b, 8 * k + t);
    }
    SameBits(a[k], b[k], 8);
  }

  lemma BytePosition(k: nat, t: nat)
    requires t < 8
    ensures (8 * k + t) / 8 == k && (8 * k + t) % 8 == t
  {
  }

  /** `bitmap_cmp` on two buffers of the same size. */
  predicate Compare(a: seq<Byte>, b: seq<Byte>, mask1: Uint32, mask2: Uint32, nBits: nat)
    requires nBits > 0 && |a| == |b| == 4 * Words(nBits)
  {
    if a[..4 * (Words(nBits) - 1)] != b[..4 * (Words(nBits) - 1)] then false
    else Or(LastWord(a), mask1) == Or(LastWord(b), mask2)
  }

  lemma {:induction false} MaskedBit(w: Uint32, v: Uint32, mask: Uint32, j: nat)
    requires Or(w, mask) == Or(v, mask) && !Bit(mask, j)
    ensures Bit(w, j) == Bit(v, j)
  {
    BitOr(w, mask, j);
    BitOr(v, mask, j);
  }

  lemma {:induction false} EqualBuffersEqualBits(a: seq<Byte>, b: seq<Byte>, mask: Uint32, nBits: nat, i: nat)
    requires nBits > 0 && |a| == |b| == 4 * Words(nBits) && MaskCovers(mask, nBits)
    requires Compare(a, b, mask, mask, nBits) && i < nBits
    ensures IsSetIn(a, i) == IsSetIn(b, i)
  {
    var w := Words(nBits);
    if i < 32 * (w - 1) {
      assert a[i / 8] == a[..4 * (w - 1)][i / 8];
      assert b[i / 8] == b[..4 * (w - 1)][i / 8];
    } else {
      var j := i - 32 * (w - 1);
      assert !Bit(mask, j);
      MaskedBit(LastWord(a), LastWord(b), mask, j);
      LastWordBit(a, w, j);
      LastWordBit(b, w, j);
    }
  }

  lemma {:induction false} EqualBitsEqualWords(a: seq<Byte>, b: seq<Byte>, mask: Uint32, nBits: nat)
    requires nBits > 0 && |a| == |b| == 4 * Words(nBits) && MaskCovers(mask, nBits)
    requires forall i: nat | i < nBits :: IsSetIn(a, i) == IsSetIn(b, i)
    ensures Or(LastWord(a), mask) == Or(LastWord(b), mask)
  {
    var w := Words(nBits);
    Pow2Of32();
    OrBound(LastWord(a), mask, 32);
    OrBound(LastWord(b), mask, 32);
    forall j | 0 <= j < 32
      ensures Bit(Or(LastWord(a), mask), j) == Bit(Or(LastWord(b), mask), j)
    {
      BitOr(LastWord(a), mask, j);
      BitOr(LastWord(b), mask, j);
      LastWordBit(a, w, j);
      LastWordBit(b, w, j);
    }
    SameBits(Or(LastWord(a), mask), Or(LastWord(b), mask), 32);
  }

  lemma {:induction false} EqualBitsEqualPrefix(a: seq<Byte>, b: seq<Byte>, nBits: nat)
    requires nBits > 0 && |a| == |b| == 4 * Words(nBits)
    requires forall i: nat | i < nBits :: IsSetIn(a, i) == IsSetIn(b, i)
    ensures a[..4 * (Words(nBits) - 1)] == b[..4 * (Words(nBits) - 1)]
  {
    forall k | 0 <= k < 4 * (Words(nBits) - 1)
      ensures a[k] == b[k]
    {
      BytesFromBits(a, b, k);
    }
  }

  lemma {:induction false} SameIndicesSameBits(a: seq<Byte>, b: seq<Byte>, n: nat)
    requires n <= 8 * |a| && n <= 8 * |b|
    ensures Indices(a, n) == Indices(b, n) <==> forall i: nat | i < n :: IsSetIn(a, i) == IsSetIn(b, i)
  {
    if Indices(a, n) == Indices(b, n) {
      forall i: nat | i < n
        ensures IsSetIn(a, i) == IsSetIn(b, i)
      {
        assert i in Indices(a, n) <==> i in Indices(b, n);
      }
    }
  }

  /** With masks that cover the padding, comparison decides set equality, whatever the padding holds. */
  lemma {:induction false} CompareIsSetEquality(a: seq<Byte>, b: seq<Byte>, mask: Uint32, nBits: nat)
    requires nBits > 0 && |a| == |b| == 4 * Words(nBits) && MaskCovers(mask, nBits)
    ensures Compare(a, b, mask, mask, nBits) <==> Indices(a, nBits) == Indices(b, nBits)
  {
    SameIndicesSameBits(a, b, nBits);
    if Compare(a, b, mask, mask, nBits) {
      forall i: nat | i < nBits
        ensures IsSetIn(a, i) == IsSetIn(b, i)
      {
        EqualBuffersEqualBits(a, b, mask, nBits, i);
      }
    }
    if Indices(a, nBits) == Indices(b, nBits) {
      EqualBitsEqualWords(a, b, mask, nBits);
      EqualBitsEqualPrefix(a, b, nBits);
    }
  }

  /** There is only one covering mask. */
  lemma {:induction false} MaskUnique(m1: Uint32, m2: Uint32, nBits: nat)
    requires nBits > 0 && MaskCovers(m1, nBits) && MaskCovers(m2, nBits)
    ensures m1 == m2
  {
    Pow2Of32();
    SameBits(m1, m2, 32);
  }

  /** All ones above the bits in use. */
  function MaskFor(nBits: nat): (mask: Uint32)
    requires nBits > 0
  {
    Pow2Of32();
    Low(Shl(Ones(32), nBits - 32 * (Words(nBits) - 1)), 32)
  }

  /** There is one for every number of bits. */
  lemma {:induction false} MaskExists(nBits: nat)
    requires nBits > 0
    ensures MaskCovers(MaskFor(nBits), nBits)
  {
    var used := nBits - 32 * (Words(nBits) - 1);
    Pow2Of32();
    forall j: nat | j < 32
      ensures Bit(MaskFor(nBits), j) <==> j >= used
    {
      BitLow(Shl(Ones(32), used), 32, j);
      BitShl(Ones(32), used, j);
      if j >= used {
        BitOnes(32, j - used);
      }
    }
  }

  // ---- The object ----

  class MyBitmap {
    var bitmap: array<Byte>
    var nBits: nat
    var lastWordMask: Uint32

    ghost predicate Valid()
      reads this, bitmap
    {
      bitmap.Length == 4 * Words(nBits) && (nBits > 0 ==> MaskCovers(lastWordMask, nBits))
    }

    ghost function Contents(): set<nat>
      requires Valid()
      reads this, bitmap
    {
      Indices(bitmap[..], nBits)
    }

    /** An empty bitmap as every operation expects it; `bitmap_init` itself has no body in the header. */
    constructor (bits: nat)
      ensures Valid() && nBits == bits && Contents() == {}
    {
      var bytes := new Byte[4 * Words(bits)](_ => 0);
      bitmap, nBits, lastWordMask := bytes, bits, if bits > 0 then MaskFor(bits) else 0;
      if bits > 0 {
        MaskExists(bits);
      }
      new;
      assert bitmap[..] == OnBytes(bitmap[..], ClearAll);
      OpIsSetOp(bitmap[..], ClearAll, nBits);
    }

    method SetBit(bit: nat)
      requires Valid() && bit < nBits
      modifies bitmap
      ensures Valid() && Contents() == old(Contents()) + {bit}
      ensures bitmap[..] == OnBytes(old(bitmap[..]), Set(bit))
    {
      OpIsSetOp(bitmap[..], Set(bit), nBits);
      bitmap[bit / 8] := SetIn(bitmap[bit / 8], bit % 8);
      assert bitmap[..] == OnBytes(old(bitmap[..]), Set(bit));
    }

    method FlipBit(bit: nat)
      requires Valid() && bit < nBits
      modifies bitmap
      ensures Valid() && Contents() == OnSet(old(Contents()), Flip(bit), nBits)
      ensures bitmap[..] == OnBytes(old(bitmap[..]), Flip(bit))
    {
      OpIsSetOp(bitmap[..], Flip(bit), nBits);
      bitmap[bit / 8] := FlipIn(bitmap[bit / 8], bit % 8);
      assert bitmap[..] == OnBytes(old(bitmap[..]), Flip(bit));
    }

    method ClearBit(bit: nat)
      requires Valid() && bit < nBits
      modifies bitmap
      ensures Valid() && Contents() == old(Contents()) - {bit}
      ensures bitmap[..] == OnBytes(old(bitmap[..]), Clear(bit))
    {
      OpIsSetOp(bitmap[..], Clear(bit), nBits);
      bitmap[bit / 8] := ClearIn(bitmap[bit / 8], bit % 8);
      assert bitmap[..] == OnBytes(old(bitmap[..]), Clear(bit));
    }

    method IsSet(bit: nat) returns (r: bool)
      requires Valid() && bit < nBits
      ensures r <==> bit in Contents()
      ensures r <==> bitmap[bit / 8] / Pow2(bit % 8) % 2 == 1
    {
      BitIsDigit(bitmap[bit / 8], bit % 8);
      TestBit(bitmap[bit / 8], bit % 8);
      r := And(bitmap[bit / 8], Shl(1, bit % 8)) != 0;
    }

    method ClearAllBits()
      requires Valid()
      modifies bitmap
      ensures Valid() && Contents() == {} && forall i | 0 <= i < bitmap.Length :: bitmap[i] == 0
    {
      OpIsSetOp(bitmap[..], ClearAll, nBits);
      forall i | 0 <= i < bitmap.Length {
        bitmap[i] := 0;
      }
      assert bitmap[..] == OnBytes(old(bitmap[..]), ClearAll);
    }

    method SetAllBits()
      requires Valid()
      modifies bitmap
      ensures Valid() && Contents() == Below(nBits) && forall i | 0 <= i < bitmap.Length :: bitmap[i] == 255
    {
      OpIsSetOp(bitmap[..], SetAll, nBits);
      forall i | 0 <= i < bitmap.Length {
        bitmap[i] := 255;
      }
      assert bitmap[..] == OnBytes(old(bitmap[..]), SetAll);
    }

    /** True means equal. */
    method Cmp(other: MyBitmap) returns (r: bool)
      requires Valid() && other.Valid() && nBits == other.nBits > 0
      ensures r <==> Contents() == other.Contents()
    {
      MaskUnique(lastWordMask, other.lastWordMask, nBits);
      CompareIsSetEquality(bitmap[..], other.bitmap[..], lastWordMask, nBits);
      r := Compare(bitmap[..], other.bitmap[..], lastWordMask, other.lastWordMask, nBits);
    }
  }

  ghost function OnSetAll(s: set<nat>, ops: seq<Op>, n: nat): set<nat> {
    if ops == [] then s else OnSet(OnSetAll(s, ops[..|ops| - 1], n), ops[|ops| - 1], n)
  }

  method Apply(target: MyBitmap, op: Op)
    requires target.Valid() && (op.Set? || op.Flip? || op.Clear? ==> op.bit < target.nBits)
    modifies target.bitmap
    ensures target.Valid() && target.Contents() == OnSet(old(target.Contents()), op, target.nBits)
  {
    match op
    case Set(bit) => target.SetBit(bit);
    case Flip(bit) => target.FlipBit(bit);
    case Clear(bit) => target.ClearBit(bit);
    case ClearAll => target.ClearAllBits();
    case SetAll => target.SetAllBits();
  }

  /** Any run of operations does to the bitmap what it does to the set. */
  method Run(target: MyBitmap, ops: seq<Op>)
    requires target.Valid()
    requires forall i | 0 <= i < |ops| && (ops[i].Set? || ops[i].Flip? || ops[i].Clear?) :: ops[i].bit < target.nBits
    modifies target.bitmap
    ensures target.Valid() && target.Contents() == OnSetAll(old(target.Contents()), ops, target.nBits)
  {
    for k := 0 to |ops|
      invariant target.Valid() && target.Contents() == OnSetAll(old(target.Contents()), ops[..k], target.nBits)
    {
      Apply(target, ops[k]);
      assert ops[..k + 1][..k] == ops[..k];
    }
    assert ops[..|ops|] == ops;
  }
}
