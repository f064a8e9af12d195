/** Bit fields of up to eight bits packed into a record, possibly across a byte boundary. */
module RecBits {
  import opened Arithmetic
  import opened Bits

  /** A field of `len` bits starting at bit `ofs` of byte `at`. */
  datatype Field = Field(at: nat, ofs: nat, len: nat)

  ghost predicate ValidField(f: Field) {
    f.ofs <= 7 && 1 <= f.len <= 8
  }

  /** The positions of a field's first bit and one past its last, in the whole record. */
  function First(f: Field): nat {
    8 * f.at + f.ofs
  }

  function End(f: Field): nat {
    First(f) + f.len
  }

  /** Bit p of the record. */
  predicate BitAt(rec: seq<Byte>, p: nat)
    requires p < 8 * |rec|
  {
    Bit(rec[p / 8], p % 8)
  }

  /** Bit p of the record is binary digit p % 8 of byte p / 8. */
  lemma {:induction false} BitAtIsDigit(rec: seq<Byte>, p: nat)
    requires p < 8 * |rec|
    ensures BitAt(rec, p) <==> rec[p / 8] / Pow2(p % 8) % 2 == 1
  {
    BitIsDigit(rec[p / 8], p % 8);
  }

  // ---- The macros ----

  function SetFirst(b: nat, bits: nat, ofs: nat, len: nat): (r: Byte) {
    Pow2Of8();
    Low(Or(AndNot(b, Shl(Ones(len), ofs)), Shl(bits, ofs)), 8)
  }

  function SetSecond(b: nat, bits: nat, ofs: nat, len: nat): (r: Byte)
    requires ofs + len > 8 && ofs <= 8
  {
    Pow2Of8();
    Low(Or(AndNot(b, Ones(len - 8 + ofs)), Shr(bits, 8 - ofs)), 8)
  }

  function Get(b0: nat, b1: nat, ofs: nat, len: nat): (r: nat) {
    And(Shr(Or(Shl(b1, 8), b0), ofs), Ones(len))
  }

  /** Clearing under a mask and setting a value, bit by bit. */
  lemma {:induction false} SpliceBits(b: nat, m: nat, v: nat, i: nat)
    requires i < 8
    ensures Bit(Low(Or(AndNot(b, m), v), 8), i) <==> (Bit(b, i) && !Bit(m, i)) || Bit(v, i)
  {
    BitLow(Or(AndNot(b, m), v), 8, i);
    BitOr(AndNot(b, m), v, i);
    BitAndNot(b, m, i);
  }

  lemma {:induction false} ShiftedMask(len: nat, ofs: nat, i: nat)
    ensures Bit(Shl(Ones(len), ofs), i) <==> ofs <= i < ofs + len
  {
    BitShl(Ones(len), ofs, i);
    if i >= ofs {
      BitOnes(len, i - ofs);
    }
  }

  lemma {:induction false} SetFirstBits(b: Byte, bits: nat, ofs: nat, len: nat, i: nat)
    requires i < 8
    ensures Bit(SetFirst(b, bits, ofs, len), i)
       <==> if ofs <= i < ofs + len then Bit(bits, i - ofs) else Bit(b, i) || (ofs + len <= i && Bit(bits, i - ofs))
  {
    SpliceBits(b, Shl(Ones(len), ofs), Shl(bits, ofs), i);
    ShiftedMask(len, ofs, i);
    BitShl(bits, ofs, i);
  }

  lemma {:induction false} SetSecondBits(b: Byte, bits: nat, ofs: nat, len: nat, i: nat)
    requires ofs <= 8 && ofs + len > 8 && i < 8
    ensures Bit(SetSecond(b, bits, ofs, len), i)
       <==> if i + 8 < ofs + len then Bit(bits, i + 8 - ofs) else Bit(b, i) || Bit(bits, i + 8 - ofs)
  {
    SpliceBits(b, Ones(len - 8 + ofs), Shr(bits, 8 - ofs), i);
    BitOnes(len - 8 + ofs, i);
    BitShr(bits, 8 - ofs, i);
  }

  lemma {:induction false} JoinedBits(b0: Byte, b1: Byte, i: nat)
    requires i < 16
    ensures Bit(Or(Shl(b1, 8), b0), i) <==> if i < 8 then Bit(b0, i) else Bit(b1, i - 8)
  {
    BitOr(Shl(b1, 8), b0, i);
    BitShl(b1, 8, i);
    if i >= 8 {
      Pow2Of8();
      BitBeyond(b0, 8, i);
    }
  }

  lemma {:induction false} TwoByteLoad(b0: Byte, b1: Byte)
    ensures Or(Shl(b1, 8), b0) == 256 * b1 + b0
  {
    Pow2Of8();
    assert Pow2(16) == 0x1_0000;
    ShlIsProduct(b1, 8);
    OrBound(Shl(b1, 8), b0, 16);
    forall i | 0 <= i < 16
      ensures Bit(Or(Shl(b1, 8), b0), i) == Bit(b0 + 256 * b1, i)
    {
      JoinedBits(b0, b1, i);
      ByteConcat(b0, b1, i);
    }
    SameBits(Or(Shl(b1, 8), b0), b0 + 256 * b1, 16);
  }

  /** The macro's value: the two bytes as a little-endian number, without its low and its high digits. */
  lemma {:induction false} GetIsQuotient(b0: Byte, b1: Byte, ofs: nat, len: nat)
    ensures Get(b0, b1, ofs, len) == (256 * b1 + b0) / Pow2(ofs) % Pow2(len)
  {
    TwoByteLoad(b0, b1);
    ShrIsQuotient(256 * b1 + b0, ofs);
    var q := Shr(256 * b1 + b0, ofs);
    DivMod(q, Pow2(len));
    MaskIsRemainder(q, len, q % Pow2(len));
  }

  lemma {:induction false} GetBits(b0: Byte, b1: Byte, ofs: nat, len: nat, i: nat)
    requires ofs + i < 16
    ensures Bit(Get(b0, b1, ofs, len), i)
       <==> i < len && (if ofs + i < 8 then Bit(b0, ofs + i) else Bit(b1, ofs + i - 8))
  {
    var w := Or(Shl(b1, 8), b0);
    BitAnd(Shr(w, ofs), Ones(len), i);
    BitOnes(len, i);
    BitShr(w, ofs, i);
    JoinedBits(b0, b1, i + ofs);
  }

  lemma {:induction false} GetBound(b0: nat, b1: nat, ofs: nat, len: nat)
    ensures Get(b0, b1, ofs, len) < Pow2(len)
  {
    OnesBound(len);
    AndBound(Shr(Or(Shl(b1, 8), b0), ofs), Ones(len), len);
  }

  // ---- On a record ----

  /** Writing needs the second byte only when the field reaches it; reading always loads both. */
  ghost predicate Writable(rec: seq<Byte>, f: Field) {
    ValidField(f) && f.at < |rec| && (f.ofs + f.len > 8 ==> f.at + 1 < |rec|)
  }

  ghost predicate Readable(rec: seq<Byte>, f: Field) {
    ValidField(f) && f.at + 1 < |rec|
  }

  function Write(rec: seq<Byte>, f: Field, bits: nat): (r: seq<Byte>)
    requires Writable(rec, f)
    ensures |r| == |rec|
  {
    var once := rec[f.at := SetFirst(rec[f.at], bits, f.ofs, f.len)];
    if f.ofs + f.len > 8 then once[f.at + 1 := SetSecond(once[f.at + 1], bits, f.ofs, f.len)] else once
  }

  function Read(rec: seq<Byte>, f: Field): nat
    requires Readable(rec, f)
  {
    Get(rec[f.at], rec[f.at + 1], f.ofs, f.len)
  }

  method SetRecBits(rec: array<Byte>, f: Field, bits: nat)
    requires Writable(rec[..], f)
    modifies rec
    ensures rec[..] == Write(old(rec[..]), f, bits)
  {
    rec[f.at] := SetFirst(rec[f.at], bits, f.ofs, f.len);
    if f.ofs + f.len > 8 {
      rec[f.at + 1] := SetSecond(rec[f.at + 1], bits, f.ofs, f.len);
    }
  }

  method GetRecBits(rec: array<Byte>, f: Field) returns (bits: nat)
    requires Readable(rec[..], f)
    ensures bits == Read(rec[..], f)
    ensures bits == (256 * rec[f.at + 1] + rec[f.at]) / Pow2(f.ofs) % Pow2(f.len)
  {
    GetIsQuotient(rec[f.at], rec[f.at + 1], f.ofs, f.len);
    bits := Get(rec[f.at], rec[f.at + 1], f.ofs, f.len);
  }

  /** Where bit j of the two bytes of a field lies in the record. */
  lemma {:induction false} Locate(at: nat, j: nat)
    requires j < 16
    ensures (8 * at + j) / 8 == (if j < 8 then at else at + 1)
    ensures (8 * at + j) % 8 == (if j < 8 then j else j - 8)
  {
  }

  lemma {:induction false} BytesSet(b: Byte, f: Field, bits: nat, j: nat)
    requires ValidField(f) && f.ofs <= j < f.ofs + f.len
    ensures j < 8 ==> (Bit(SetFirst(b, bits, f.ofs, f.len), j) <==> Bit(bits, j - f.ofs))
    ensures j >= 8 ==> (Bit(SetSecond(b, bits, f.ofs, f.len), j - 8) <==> Bit(bits, j - f.ofs))
  {
    if j < 8 {
      SetFirstBits(b, bits, f.ofs, f.len, j);
    } else {
      SetSecondBits(b, bits, f.ofs, f.len, j - 8);
    }
  }

  /** A write sets its field to the low bits of the value, however wide that is. */
  lemma {:induction false} WriteSets(rec: seq<Byte>, f: Field, bits: nat, i: nat)
    requires Writable(rec, f) && i < f.len
    ensures First(f) + i < 8 * |rec|
    ensures BitAt(Write(rec, f, bits), First(f) + i) <==> Bit(bits, i)
  {
    var j := f.ofs + i;
    Locate(f.at, j);
    if j < 8 {
      BytesSet(rec[f.at], f, bits, j);
    } else {
      BytesSet(rec[f.at + 1], f, bits, j);
    }
  }

  /** One past the last bit of the last byte that a write touches. */
  function Limit(f: Field): nat {
    8 * f.at + (if f.ofs + f.len > 8 then 16 else 8)
  }

  /** A bit of the value beyond the field that still lands in a byte the write touches. */
  predicate Spills(f: Field, bits: nat, p: nat) {
    End(f) <= p < Limit(f) && Bit(bits, p - First(f))
  }

  lemma {:induction false} FirstOutside(b: Byte, f: Field, bits: nat, j: nat)
    requires ValidField(f) && j < 8 && !(f.ofs <= j < f.ofs + f.len)
    ensures Bit(SetFirst(b, bits, f.ofs, f.len), j) <==> Bit(b, j) || Spills(f, bits, 8 * f.at + j)
  {
    SetFirstBits(b, bits, f.ofs, f.len, j);
  }

  lemma {:induction false} SecondOutside(b: Byte, f: Field, bits: nat, j: nat)
    requires ValidField(f) && f.ofs + f.len > 8 && 8 <= j < 16 && f.ofs + f.len <= j
    ensures Bit(SetSecond(b, bits, f.ofs, f.len), j - 8) <==> Bit(b, j - 8) || Spills(f, bits, 8 * f.at + j)
  {
    SetSecondBits(b, bits, f.ofs, f.len, j - 8);
  }

  /** Outside its field a write can only set bits, and sets exactly those the value spills on. */
  lemma {:induction false} WriteOutside(rec: seq<Byte>, f: Field, bits: nat, p: nat)
    requires Writable(rec, f) && p < 8 * |rec|
    requires p < First(f) || End(f) <= p
    ensures BitAt(Write(rec, f, bits), p) <==> BitAt(rec, p) || Spills(f, bits, p)
  {
    var j := p - 8 * f.at;
    if 0 <= j < 8 {
      Locate(f.at, j);
      FirstOutside(rec[f.at], f, bits, j);
    } else if 8 <= j < 16 && f.ofs + f.len > 8 {
      Locate(f.at, j);
      SecondOutside(rec[f.at + 1], f, bits, j);
    } else {
      assert Write(rec, f, bits)[p / 8] == rec[p / 8];
    }
  }

  ghost predicate KeepsOutside(rec: seq<Byte>, f: Field, after: seq<Byte>)
    requires |after| == |rec|
  {
    forall p: nat | p < 8 * |rec| && (p < First(f) || End(f) <= p) :: BitAt(after, p) == BitAt(rec, p)
  }

  /** The other bits keep their values exactly when the value spills on bits only that are set already. */
  lemma {:induction false} WriteKeepsIff(rec: seq<Byte>, f: Field, bits: nat)
    requires Writable(rec, f)
    ensures KeepsOutside(rec, f, Write(rec, f, bits))
       <==> forall p: nat | p < 8 * |rec| && Spills(f, bits, p) :: BitAt(rec, p)
  {
    forall p: nat | p < 8 * |rec| && (p < First(f) || End(f) <= p)
      ensures BitAt(Write(rec, f, bits), p) <==> BitAt(rec, p) || Spills(f, bits, p)
    {
      WriteOutside(rec, f, bits, p);
    }
  }

  /** In particular for every value that fits its field. */
  lemma {:induction false} WriteKeeps(rec: seq<Byte>, f: Field, bits: nat, p: nat)
    requires Writable(rec, f) && bits < Pow2(f.len) && p < 8 * |rec|
    requires p < First(f) || End(f) <= p
    ensures BitAt(Write(rec, f, bits), p) <==> BitAt(rec, p)
  {
    WriteOutside(rec, f, bits, p);
    if End(f) <= p {
      BitBeyond(bits, f.len, p - First(f));
    }
  }

  /** A value one bit too wide sets the bit behind its field. */
  lemma {:induction false} NeighbourSet(b: Byte, bits: nat, ofs: nat, len: nat)
    requires ofs + len < 8 && Bit(bits, len)
    ensures Bit(SetFirst(b, bits, ofs, len), ofs + len)
  {
    SetFirstBits(b, bits, ofs, len, ofs + len);
  }

  lemma {:induction false} BitsOfTwo(bits: nat)
    requires bits == 2
    ensures Bit(bits, 1) && !Bit(0, 1)
  {
    BitOfZero(1);
    assert Bit(bits / 2, 0);
  }

  /** Writing 2 into a one-bit field of an empty record sets its neighbour. */
  lemma {:induction false} SpillWitness(rec: seq<Byte>, f: Field, bits: nat)
    requires rec == [0] && f == Field(0, 0, 1) && bits == 2
    ensures Writable(rec, f) && !BitAt(rec, 1) && BitAt(Write(rec, f, bits), 1)
  {
    assert Bit(bits, f.len) && !Bit(rec[0], 1) by { BitsOfTwo(bits); }
    NeighbourSet(rec[0], bits, f.ofs, f.len);
  }

  /** A read returns exactly the bits of its field. */
  lemma {:induction false} ReadBits(rec: seq<Byte>, f: Field, i: nat)
    requires Readable(rec, f) && i < f.len
    ensures Bit(Read(rec, f), i) <==> BitAt(rec, First(f) + i)
  {
    Locate(f.at, f.ofs + i);
    GetBits(rec[f.at], rec[f.at + 1], f.ofs, f.len, i);
  }

  /** The field holds the bits of v. */
  ghost predicate Holds(rec: seq<Byte>, f: Field, v: nat) {
    First(f) + f.len <= 8 * |rec| && forall i | 0 <= i < f.len :: BitAt(rec, First(f) + i) == Bit(v, i)
  }

  /** A read gives v when the field holds the bits of v. */
  lemma {:induction false} ReadIs(rec: seq<Byte>, f: Field, v: nat)
    requires Readable(rec, f) && v < Pow2(f.len) && Holds(rec, f, v)
    ensures Read(rec, f) == v
  {
    GetBound(rec[f.at], rec[f.at + 1], f.ofs, f.len);
    forall i | 0 <= i < f.len
      ensures Bit(Read(rec, f), i) == Bit(v, i)
    {
      ReadBits(rec, f, i);
    }
    SameBits(Read(rec, f), v, f.len);
  }

  lemma {:induction false} WriteHolds(rec: seq<Byte>, f: Field, v: nat)
    requires Writable(rec, f) && v < Pow2(f.len)
    ensures Holds(Write(rec, f, v), f, v)
  {
    forall i | 0 <= i < f.len
      ensures First(f) + i < 8 * |rec| && BitAt(Write(rec, f, v), First(f) + i) == Bit(v, i)
    {
      WriteSets(rec, f, v, i);
    }
  }

  lemma {:induction false} WriteKeepsField(rec: seq<Byte>, f: Field, v: nat, g: Field, w: nat)
    requires Writable(rec, g) && w < Pow2(g.len) && Disjoint(f, g) && Holds(rec, f, v)
    ensures Holds(Write(rec, g, w), f, v)
  {
    forall i | 0 <= i < f.len
      ensures BitAt(Write(rec, g, w), First(f) + i) == Bit(v, i)
    {
      WriteKeeps(rec, g, w, First(f) + i);
    }
  }

  // ---- Many fields ----

  ghost predicate Disjoint(f: Field, g: Field) {
    End(f) <= First(g) || End(g) <= First(f)
  }

  /** Pairwise disjoint fields inside a record of n bytes, each with a value in range. */
  ghost predicate ValidFields(fs: seq<Field>, vs: seq<nat>, n: nat) {
    && |fs| == |vs|
    && (forall i | 0 <= i < |fs| :: ValidField(fs[i]) && fs[i].at + 1 < n && vs[i] < Pow2(fs[i].len))
    && (forall i, j | 0 <= i < j < |fs| :: Disjoint(fs[i], fs[j]))
  }

  /** Writes the first k fields in order. */
  function WriteAll(rec: seq<Byte>, fs: seq<Field>, vs: seq<nat>, k: nat): (r: seq<Byte>)
    requires ValidFields(fs, vs, |rec|) && k <= |fs|
    ensures |r| == |rec|
  {
    if k == 0 then rec else Write(WriteAll(rec, fs, vs, k - 1), fs[k - 1], vs[k - 1])
  }

  /** A bit outside the first k fields keeps its value. */
  lemma {:induction false} OtherBitsKept(rec: seq<Byte>, fs: seq<Field>, vs: seq<nat>, k: nat, p: nat)
    requires ValidFields(fs, vs, |rec|) && k <= |fs| && p < 8 * |rec|
    requires forall i | 0 <= i < k :: !(First(fs[i]) <= p < End(fs[i]))
    ensures BitAt(WriteAll(rec, fs, vs, k), p) == BitAt(rec, p)
  {
    if k > 0 {
      OtherBitsKept(rec, fs, vs, k - 1, p);
      WriteKeeps(WriteAll(rec, fs, vs, k - 1), fs[k - 1], vs[k - 1], p);
    }
  }

  /** A field holds its value once it is written, whatever is written later. */
  lemma {:induction false} FieldHeld(rec: seq<Byte>, fs: seq<Field>, vs: seq<nat>, k: nat, j: nat)
    requires ValidFields(fs, vs, |rec|) && j < k <= |fs|
    ensures Holds(WriteAll(rec, fs, vs, k), fs[j], vs[j])
  {
    var before := WriteAll(rec, fs, vs, k - 1);
    if j == k - 1 {
      WriteHolds(before, fs[j], vs[j]);
    } else {
      FieldHeld(rec, fs, vs, k - 1, j);
      assert Disjoint(fs[j], fs[k - 1]);
      WriteKeepsField(before, fs[j], vs[j], fs[k - 1], vs[k - 1]);
    }
  }

  /** After all writes, every field reads back as its own value. */
  lemma {:induction false} AllReadBack(rec: seq<Byte>, fs: seq<Field>, vs: seq<nat>, j: nat)
    requires ValidFields(fs, vs, |rec|) && j < |fs|
    ensures Read(WriteAll(rec, fs, vs, |fs|), fs[j]) == vs[j]
  {
    FieldHeld(rec, fs, vs, |fs|, j);
    ReadIs(WriteAll(rec, fs, vs, |fs|), fs[j], vs[j]);
  }
}
