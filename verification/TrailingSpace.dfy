/** Word-at-a-time skipping of trailing spaces, against the plain byte loop. */
module TrailingSpace {
  import opened Arithmetic

  const SPACE: Byte := 0x20

  // ---- The plain form ----

  /** Where the byte-by-byte loop stops. */
  function PlainEnd(s: seq<Byte>): (e: nat)
    ensures e <= |s|
  {
    if s == [] || s[|s| - 1] != SPACE then |s| else PlainEnd(s[..|s| - 1])
  }

  ghost predicate SpacesFrom(s: seq<Byte>, e: nat) {
    forall i | e <= i < |s| :: s[i] == SPACE
  }

  /** The plain loop stops at e exactly when only spaces follow e and none precedes it. */
  lemma {:induction false} PlainEndMeaning(s: seq<Byte>, e: nat)
    requires e <= |s|
    ensures PlainEnd(s) == e <==> SpacesFrom(s, e) && (e > 0 ==> s[e - 1] != SPACE)
  {
    if s != [] && s[|s| - 1] == SPACE {
      var t := s[..|s| - 1];
      if e <= |t| {
        PlainEndMeaning(t, e);
        assert SpacesFrom(s, e) <==> SpacesFrom(t, e);
      }
    } else if s != [] {
      assert e < |s| ==> !SpacesFrom(s, e);
    }
  }

  // ---- Words of spaces ----

  lemma FourSpaces(a: Byte, b: Byte, c: Byte, d: Byte)
    ensures Word(a, b, c, d) == 0x2020_2020 <==> a == b == c == d == SPACE
  {
    if Word(a, b, c, d) == 0x2020_2020 {
      WordInjective(a, b, c, d, SPACE, SPACE, SPACE, SPACE);
    }
  }

  lemma TwoHalves(lo: nat, hi: nat)
    requires lo < TWO32 && hi < TWO32
    ensures lo + 0x1_0000_0000 * hi == 0x2020_2020_2020_2020 <==> lo == hi == 0x2020_2020
  {
  }

  /** The eight-byte little-endian load. */
  function Uint8korr(s: seq<Byte>, p: nat): nat
    requires p + 8 <= |s|
  {
    Word(s[p], s[p + 1], s[p + 2], s[p + 3]) + 0x1_0000_0000 * Word(s[p + 4], s[p + 5], s[p + 6], s[p + 7])
  }

  /** The load gives the all-spaces word exactly when all eight bytes are spaces. */
  lemma EightSpaces(s: seq<Byte>, p: nat)
    requires p + 8 <= |s|
    ensures Uint8korr(s, p) == 0x2020_2020_2020_2020 <==> forall i | p <= i < p + 8 :: s[i] == SPACE
  {
    FourSpaces(s[p], s[p + 1], s[p + 2], s[p + 3]);
    FourSpaces(s[p + 4], s[p + 5], s[p + 6], s[p + 7]);
    TwoHalves(Word(s[p], s[p + 1], s[p + 2], s[p + 3]), Word(s[p + 4], s[p + 5], s[p + 6], s[p + 7]));
  }

  /** The final loop of both versions. */
  method SkipBytes(s: seq<Byte>, from: nat) returns (end: nat)
    requires from <= |s| && SpacesFrom(s, from)
    ensures end == PlainEnd(s)
  {
    end := from;
    while end > 0 && s[end - 1] == SPACE
      invariant end <= |s| && SpacesFrom(s, end)
    {
      end := end - 1;
    }
    PlainEndMeaning(s, end);
  }

  /** The version for machines that load eight bytes at any address. */
  method SkipTrailingSpace(s: seq<Byte>) returns (end: nat)
    ensures end == PlainEnd(s)
  {
    end := |s|;
    while end >= 8
      invariant end <= |s| && SpacesFrom(s, end)
    {
      EightSpaces(s, end - 8);
      if Uint8korr(s, end - 8) != 0x2020_2020_2020_2020 {
        break;
      }
      end := end - 8;
    }
    end := SkipBytes(s, end);
  }

  // ---- The aligned version ----

  predicate Aligned(a: nat, w: nat)
    requires w == 4 || w == 8
  {
    if w == 4 then a % 4 == 0 else a % 8 == 0
  }

  /** `a / w * w`. */
  function AlignDown(a: nat, w: nat): (r: nat)
    requires w == 4 || w == 8
    ensures r <= a < r + w && Aligned(r, w)
  {
    if w == 4 then a / 4 * 4 else a / 8 * 8
  }

  /** Aligned addresses are a whole number of words apart. */
  lemma AlignedGap(a: nat, b: nat, w: nat)
    requires w == 4 || w == 8
    requires Aligned(a, w) && Aligned(b, w) && a < b
    ensures a + w <= b && Aligned(b - w, w)
  {
    if w == 4 {
      MultipleGap(a, b, 4);
    } else {
      MultipleGap(a, b, 8);
    }
  }

  lemma MultipleGap(a: nat, b: nat, w: nat)
    requires w > 0 && a % w == 0 && b % w == 0 && a < b
    ensures a + w <= b && (b - w) % w == 0
  {
    DivMod(a, w);
    DivMod(b, w);
    Distribute(b / w, a / w, w);
    MultipleIsLarge(b / w - a / w, w);
    ModAddMultiple(b, -1, w);
  }

  function BigEndian(s: seq<Byte>, p: nat): nat
    requires p + 4 <= |s|
  {
    Word(s[p + 3], s[p + 2], s[p + 1], s[p])
  }

  /** A word load; the string starts at address `base`, and the load must be aligned and inside it. */
  function LoadWord(s: seq<Byte>, base: nat, a: nat, w: nat): nat
    requires w == 4 || w == 8
    requires Aligned(a, w) && base <= a && a + w <= base + |s|
  {
    if w == 4 then BigEndian(s, a - base) else BigEndian(s, a - base) * 0x1_0000_0000 + BigEndian(s, a - base + 4)
  }

  const SPACE_INT_4 := 0x2020_2020
  const SPACE_INT_8 := 0x2020_2020_2020_2020

  function SpaceInt(w: nat): nat {
    if w == 4 then SPACE_INT_4 else SPACE_INT_8
  }

  lemma WordOfSpaces(s: seq<Byte>, base: nat, a: nat, w: nat)
    requires w == 4 || w == 8
    requires Aligned(a, w) && base <= a && a + w <= base + |s|
    ensures LoadWord(s, base, a, w) == SpaceInt(w) <==> forall i | a - base <= i < a - base + w :: s[i] == SPACE
  {
    var p := a - base;
    FourSpaces(s[p + 3], s[p + 2], s[p + 1], s[p]);
    if w == 8 {
      FourSpaces(s[p + 7], s[p + 6], s[p + 5], s[p + 4]);
      TwoHalves(BigEndian(s, p + 4), BigEndian(s, p));
    }
  }

  /** The version for machines that need aligned loads, at any base address and word size 4 or 8. */
  method SkipTrailingSpaceAligned(s: seq<Byte>, base: nat, w: nat) returns (r: nat)
    requires w == 4 || w == 8
    ensures r == PlainEnd(s)
  {
    var end := base + |s|;
    if |s| > 20 {
      var endWords := AlignDown(end, w);
      var startWords := AlignDown(base + w - 1, w);
      assert base <= startWords && base < endWords;
      while end > endWords && s[end - 1 - base] == SPACE
        invariant endWords <= end <= base + |s| && SpacesFrom(s, end - base)
      {
        end := end - 1;
      }
      if s[end - 1 - base] == SPACE && startWords < endWords {
        end := SkipWords(s, base, w, startWords, end);
      }
    }
    r := SkipBytes(s, end - base);
  }

  /** The word loop of the aligned version. */
  method SkipWords(s: seq<Byte>, base: nat, w: nat, startWords: nat, from: nat) returns (end: nat)
    requires w == 4 || w == 8
    requires base <= startWords <= from <= base + |s|
    requires Aligned(startWords, w) && Aligned(from, w) && SpacesFrom(s, from - base)
    ensures startWords <= end <= from && SpacesFrom(s, end - base)
  {
    end := from;
    while end > startWords
      invariant startWords <= end <= from && Aligned(end, w) && SpacesFrom(s, end - base)
    {
      AlignedGap(startWords, end, w);
      WordOfSpaces(s, base, end - w, w);
      if LoadWord(s, base, end - w, w) != SpaceInt(w) {
        break;
      }
      end := end - w;
    }
  }
}
