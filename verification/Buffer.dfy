/** The growing byte FIFO that the servers read packets from, at element type `uint8_t`. */
module Buffer {
  import opened Arithmetic

  const DEFAULT_BUFFER_LEN := 10240
  const DEFAULT_REALLOC_NUM := 1000

  // ---- Cursor arithmetic ----

  datatype Cursors = Cursors(readPos: nat, writePos: nat, curSize: nat, maxSize: nat, realcSize: nat)

  /** Cursors in order, and every field an unsigned 32-bit integer. */
  ghost predicate InRange(c: Cursors) {
    c.readPos <= c.writePos <= c.curSize < TWO32 && c.maxSize < TWO32 && c.realcSize < TWO32
  }

  function Unread(c: Cursors): int {
    c.writePos - c.readPos
  }

  /** Sliding the unread bytes down to the start. */
  function Compacted(c: Cursors): Cursors {
    if c.readPos > 0 then c.(readPos := 0, writePos := U32(c.writePos - c.readPos)) else c
  }

  /** What the free space behind the write cursor, less one byte, does not cover. */
  function Shortfall(curSize: nat, writePos: nat, size: nat): nat {
    var room := U32(curSize - 1 - writePos);
    if size >= room then U32(size - room) else 0
  }

  /** The specialisation for `uint8_t`, which compares with `>` instead. */
  function ByteShortfall(curSize: nat, writePos: nat, size: nat): nat {
    var room := U32(curSize - 1 - writePos);
    if size > room then U32(size - room) else 0
  }

  /** How much must be added: after sliding, only the shortfall. */
  function Missing(c: Cursors, size: nat): nat {
    if c.readPos > 0 then Shortfall(c.curSize, Compacted(c).writePos, size) else size
  }

  /** Growing by what is missing, but by a whole step at least, under the soft cap. */
  function Grown(d: Cursors, need: nat): (bool, Cursors) {
    if need == 0 then (true, d)
    else if U32(need + d.curSize) > d.maxSize then (false, d)
    else (true, d.(curSize := U32(d.curSize + Max(d.realcSize, need))))
  }

  /** The cursors that `ReallocBuffer` leaves, in 32-bit arithmetic. */
  function Reallocated(c: Cursors, size: nat): (bool, Cursors) {
    Grown(Compacted(c), Missing(c, size))
  }

  predicate NeedsRealloc(c: Cursors, size: nat) {
    c.curSize <= 1 || U32(c.writePos + size) >= c.curSize - 1
  }

  /** The reply of `CanWrite` and the cursors it leaves. */
  function Reserved(c: Cursors, size: nat): (bool, Cursors) {
    if NeedsRealloc(c, size) then Reallocated(c, size) else (true, c)
  }

  /** The cursors after a granted reservation is committed. */
  function Committed(r: (bool, Cursors), size: nat): Cursors {
    if r.0 then r.1.(writePos := U32(r.1.writePos + size)) else r.1
  }

  // ---- When the 32-bit sums are right ----

  /** Neither the sum compared with the cap nor the grown capacity wraps around. */
  predicate GrowthFits(d: Cursors, need: nat) {
    need == 0 || (need + d.curSize < TWO32
                  && (need + d.curSize <= d.maxSize ==> d.curSize + Max(d.realcSize, need) < TWO32))
  }

  /** None of the sums that a capacity check computes wraps around. */
  predicate SumsFit(c: Cursors, size: nat) {
    c.writePos + size < TWO32 && (NeedsRealloc(c, size) ==> GrowthFits(c, Missing(c, size)))
  }

  /** A size for which the check keeps its word: it is refused, or granted without a wrapped sum. */
  predicate Serviceable(c: Cursors, size: nat) {
    size < TWO32 && (Reserved(c, size).0 ==> SumsFit(c, size))
  }

  /** A sum of two 32-bit integers. */
  lemma U32Sum(x: nat)
    requires x < 2 * TWO32
    ensures U32(x) == if x < TWO32 then x else x - TWO32
  {
    if x < TWO32 {
      U32Small(x);
    } else {
      U32Small(x - TWO32);
      ModAddMultiple(x - TWO32, 1, TWO32);
    }
  }

  lemma RoomExact(curSize: nat, writePos: nat, size: nat)
    requires writePos < curSize < TWO32 && size < TWO32
    ensures Shortfall(curSize, writePos, size) == Max(0, writePos + size - (curSize - 1))
    ensures ByteShortfall(curSize, writePos, size) == Shortfall(curSize, writePos, size)
  {
    var room := curSize - 1 - writePos;
    U32Small(room);
    if size >= room {
      U32Small(size - room);
    }
  }

  /** Sliding and the shortfall never underflow, and the two versions of the code agree. */
  lemma MissingExact(c: Cursors, size: nat)
    requires InRange(c) && size < TWO32
    ensures Compacted(c) == c.(readPos := 0, writePos := Unread(c))
    ensures Missing(c, size) == if c.readPos == 0 then size else Max(0, Unread(c) + size - (c.curSize - 1))
    ensures Missing(c, size) <= size
    ensures c.readPos > 0 ==> ByteShortfall(c.curSize, Compacted(c).writePos, size) == Missing(c, size)
  {
    U32Small(c.writePos - c.readPos);
    if c.readPos > 0 {
      RoomExact(c.curSize, Unread(c), size);
    }
  }

  /** A granted growth is one, exactly when no sum wrapped; otherwise the block shrinks. */
  lemma GrownSoundIff(d: Cursors, need: nat)
    requires InRange(d) && need < TWO32 && Grown(d, need).0
    ensures d.curSize <= Grown(d, need).1.curSize <==> GrowthFits(d, need)
    ensures GrowthFits(d, need) ==> d.curSize + need <= Grown(d, need).1.curSize
  {
    U32Sum(need + d.curSize);
    U32Sum(d.curSize + Max(d.realcSize, need));
  }

  /** The one wrapped size that still reaches `ReallocBuffer` wraps there again. */
  lemma WrappedTwice(c: Cursors, size: nat)
    requires InRange(c) && size < TWO32 && c.writePos + size >= TWO32 && NeedsRealloc(c, size)
    ensures Missing(c, size) + c.curSize >= TWO32 && Missing(c, size) > 0
  {
    U32Sum(c.writePos + size);
    MissingExact(c, size);
  }

  /** A grant has the room it promises, in a block no smaller than before, exactly when no sum wrapped. */
  lemma GrantSoundIff(c: Cursors, size: nat)
    requires InRange(c) && size < TWO32 && Reserved(c, size).0
    ensures var d := Reserved(c, size).1;
            d.writePos + size <= d.curSize && c.curSize <= d.curSize <==> SumsFit(c, size)
  {
    MissingExact(c, size);
    U32Sum(c.writePos + size);
    if NeedsRealloc(c, size) {
      if c.writePos + size >= TWO32 {
        WrappedTwice(c, size);
      }
      GrownSoundIff(Compacted(c), Missing(c, size));
    }
  }

  /** The largest size on a fresh 10000-byte block is granted, and the block shrinks to 9999 bytes. */
  lemma WrapWitness()
    ensures var c := Cursors(0, 0, 10000, 10240, 1000);
            && InRange(c) && !SumsFit(c, TWO32 - 1)
            && Reserved(c, TWO32 - 1) == (true, c.(curSize := 9999))
  {
    var size := TWO32 - 1;
    U32Small(size);
    U32Sum(10000 + size);
  }

  /** The growth is refused or wraps nothing. */
  predicate GrowthKept(d: Cursors, need: nat) {
    Grown(d, need).0 ==> GrowthFits(d, need)
  }

  /** A granted growth changes the capacity, even when it wraps. */
  lemma GrowthMoves(d: Cursors, need: nat)
    requires InRange(d) && need < TWO32
    ensures Grown(d, need).0 && need > 0 ==> Grown(d, need).1.curSize != d.curSize
  {
    U32Sum(d.curSize + Max(d.realcSize, need));
  }

  lemma GrownFacts(d: Cursors, need: nat)
    requires InRange(d) && need < TWO32 && GrowthKept(d, need)
    ensures var (ok, e) := Grown(d, need);
            && InRange(e) && e == d.(curSize := e.curSize) && d.curSize <= e.curSize
            && (e.curSize == d.curSize || e.curSize <= d.maxSize + d.realcSize)
            && (ok ==> d.curSize + need <= e.curSize)
            && (!ok ==> e == d)
  {
    U32Sum(need + d.curSize);
    U32Sum(d.curSize + Max(d.realcSize, need));
  }

  /** What a sound grant leaves, in plain integers: nothing changed, or the bytes slid down and the block grown. */
  lemma GrantedExactly(c: Cursors, size: nat)
    requires InRange(c) && SumsFit(c, size) && Reserved(c, size).0
    ensures var free := c.curSize - 1 - c.writePos;
            var over := if c.readPos == 0 then size else size - free - c.readPos;
            var added := if over <= 0 then 0 else if over > c.realcSize then over else c.realcSize;
            Reserved(c, size).1 == (if c.curSize > 1 && size < free then c else
              c.(readPos := 0, writePos := c.writePos - c.readPos, curSize := c.curSize + added))
  {
    U32Sum(c.writePos + size);
    if NeedsRealloc(c, size) {
      MissingExact(c, size);
      U32Sum(Missing(c, size) + c.curSize);
      U32Sum(c.curSize + Max(c.realcSize, Missing(c, size)));
    }
  }

  /** What a capacity check does when it keeps its word. */
  ghost predicate Keeps(c: Cursors, d: Cursors) {
    && InRange(d) && Unread(d) == Unread(c)
    && d.maxSize == c.maxSize && d.realcSize == c.realcSize
    && c.curSize <= d.curSize
    && (d.curSize == c.curSize || d.curSize <= c.maxSize + c.realcSize)
  }

  lemma ReallocatedFacts(c: Cursors, size: nat)
    requires InRange(c) && size < TWO32
    requires GrowthKept(Compacted(c), Missing(c, size))
    ensures var (ok, d) := Reallocated(c, size);
            && Keeps(c, d) && d.readPos == 0
            && (ok ==> d.writePos + size <= d.curSize)
            && (!ok ==> d == Compacted(c))
  {
    MissingExact(c, size);
    GrownFacts(Compacted(c), Missing(c, size));
  }

  /** Reserving keeps the cursors in order, never underflows, never passes cap plus step, and a granted size fits. */
  lemma ReservedFacts(c: Cursors, size: nat)
    requires InRange(c) && Serviceable(c, size)
    ensures var (ok, d) := Reserved(c, size);
            && Keeps(c, d)
            && (ok ==> d.writePos + size <= d.curSize)
            && (!ok ==> d.curSize == c.curSize)
            && (d.readPos == 0 || d == c)
  {
    U32Sum(c.writePos + size);
    if NeedsRealloc(c, size) {
      MissingExact(c, size);
      ReallocatedFacts(c, size);
    }
  }

  lemma ServiceableKept(c: Cursors, size: nat)
    requires InRange(c) && Serviceable(c, size) && NeedsRealloc(c, size)
    ensures GrowthKept(Compacted(c), Missing(c, size))
  {
    MissingExact(c, size);
  }

  /** Exactly when a reservation is refused, for every size. */
  lemma RefusedIff(c: Cursors, size: nat)
    requires InRange(c) && size < TWO32
    ensures !Reserved(c, size).0 <==>
              NeedsRealloc(c, size)
              && if c.readPos > 0 then Unread(c) + size >= c.curSize && U32(Unread(c) + size + 1) > c.maxSize
                 else size > 0 && U32(c.curSize + size) > c.maxSize
  {
    MissingExact(c, size);
    RefusedBySum(Compacted(c), Missing(c, size));
    if c.readPos > 0 && Missing(c, size) > 0 {
      assert Missing(c, size) + c.curSize == Unread(c) + size + 1;
    }
  }

  lemma RefusedBySum(d: Cursors, need: nat)
    ensures !Grown(d, need).0 <==> need > 0 && U32(need + d.curSize) > d.maxSize
  {
  }

  /** The same without modular arithmetic, while the sums it compares stay below 2^32. */
  lemma RefusedExactlyWhen(c: Cursors, size: nat)
    requires InRange(c) && c.writePos + size < TWO32 && (c.readPos == 0 ==> c.curSize + size < TWO32)
    ensures !Reserved(c, size).0 <==>
              if c.readPos > 0 then Unread(c) + size >= Max(c.curSize, c.maxSize)
              else size > 0 && c.curSize + size > c.maxSize && (c.curSize <= 1 || Unread(c) + size >= c.curSize - 1)
  {
    RefusedIff(c, size);
    U32Small(c.writePos + size);
    if c.readPos > 0 {
      U32Small(Unread(c) + size + 1);
    } else {
      U32Small(c.curSize + size);
    }
  }

  /** A second check for no more than was granted never slides the bytes, though it may grow or refuse. */
  lemma SecondCheckNeverCompacts(c: Cursors, n: nat, m: nat)
    requires InRange(c) && c.writePos + n < TWO32 && m <= n && Reserved(c, n).0
    ensures var d := Reserved(c, n).1;
            && Reserved(d, m).1.readPos == d.readPos
            && Reserved(d, m).1.writePos == d.writePos
            && (NeedsRealloc(d, m) ==> d.readPos == 0)
  {
    U32Small(c.writePos + n);
    U32Small(c.writePos + m);
    MissingExact(c, n);
  }

  lemma ZeroStays(d: Cursors, m: nat)
    requires d.readPos == 0
    ensures Reserved(d, m).1.readPos == 0
  {
  }

  /** No second check slides the bytes, exactly when the granted sum did not wrap past unread space. */
  lemma SecondCheckNeverCompactsIff(c: Cursors, n: nat)
    requires InRange(c) && n < TWO32 && Reserved(c, n).0
    ensures (forall m: nat | m <= n :: Reserved(Reserved(c, n).1, m).1.readPos == Reserved(c, n).1.readPos)
       <==> c.readPos == 0 || NeedsRealloc(c, n) || c.writePos + n < TWO32
  {
    var d := Reserved(c, n).1;
    if c.readPos == 0 || NeedsRealloc(c, n) {
      forall m: nat | m <= n
        ensures Reserved(d, m).1.readPos == d.readPos
      {
        ZeroStays(d, m);
      }
    } else if c.writePos + n < TWO32 {
      forall m: nat | m <= n
        ensures Reserved(d, m).1.readPos == d.readPos
      {
        SecondCheckNeverCompacts(c, n, m);
      }
    } else {
      SlidingSize(c, n);
    }
  }

  /** A size that fills the block to within one byte triggers the slide. */
  lemma SlidingSize(c: Cursors, n: nat)
    requires InRange(c) && c.readPos > 0 && !NeedsRealloc(c, n) && c.writePos + n >= TWO32
    ensures var m := Max(0, c.curSize - 1 - c.writePos); 0 <= m <= n && Reserved(c, m).1.readPos == 0
  {
    var m := Max(0, c.curSize - 1 - c.writePos);
    U32Small(c.writePos + m);
    ZeroStays(Compacted(c), m);
  }

  /** If the sum wraps, the second check can slide the bytes under the caller. */
  lemma SecondCheckWitness()
    ensures var c := Cursors(10, 10, 20, 10240, 1000);
            && InRange(c) && Reserved(c, TWO32 - 10) == (true, c)
            && Reserved(c, 15).1.readPos == 0
  {
    U32Sum(10 + (TWO32 - 10));
    U32Small(25);
    MissingExact(Cursors(10, 10, 20, 10240, 1000), 15);
    GrownFacts(Compacted(Cursors(10, 10, 20, 10240, 1000)), 0);
  }

  /** The write cursor and the bytes behind it stay where they are during a check for this size. */
  predicate Stays(c: Cursors, size: nat) {
    c.writePos + size <= c.curSize && (c.readPos == 0 || !NeedsRealloc(c, size))
  }

  lemma SecondCheckStays(c: Cursors, n: nat, m: nat)
    requires InRange(c) && Serviceable(c, n) && m <= n && Reserved(c, n).0
    ensures Stays(Reserved(c, n).1, m)
  {
    ReservedFacts(c, n);
    SecondCheckNeverCompacts(c, n, m);
  }

  /**
   A pointer taken right after a grant of n is left in the old block by the second check exactly when
   the grant filled the block to within one byte and the cap allows n more.
   */
  lemma SecondCheckGrowsIff(c: Cursors, n: nat)
    requires InRange(c) && Serviceable(c, n) && Reserved(c, n).0 && Serviceable(Reserved(c, n).1, n)
    ensures var d := Reserved(c, n).1;
            Reserved(d, n).1.curSize != d.curSize <==>
              n > 0 && d.writePos + n >= d.curSize - 1 && d.curSize + n <= d.maxSize
  {
    var d := Reserved(c, n).1;
    ReservedFacts(c, n);
    SecondCheckNeverCompacts(c, n, n);
    U32Small(d.writePos + n);
    if NeedsRealloc(d, n) {
      GrowsIff(d, n);
    }
  }

  lemma GrowsIff(d: Cursors, need: nat)
    requires InRange(d) && need < TWO32 && GrowthKept(d, need)
    ensures Grown(d, need).1.curSize != d.curSize <==> need > 0 && d.curSize + need <= d.maxSize
  {
    U32Sum(need + d.curSize);
    GrownFacts(d, need);
  }

  /** On a fresh buffer a grant of 5000 fills the block, and the second check moves it. */
  lemma StalePointerWitness()
    ensures var c := Cursors(0, 0, 0, DEFAULT_BUFFER_LEN, DEFAULT_REALLOC_NUM);
            && Reserved(c, 5000) == (true, c.(curSize := 5000))
            && Reserved(c.(curSize := 5000), 5000) == (true, c.(curSize := 10000))
  {
    U32Small(5000);
    U32Small(10000);
  }

  /**
   With the settings of the message endpoint, for messages of any length: the endpoint holds a message of
   that length less its first byte, and the next one slides into an exact fit.
   */
  lemma EndpointStalePointer(len: nat)
    requires 0 < len && 100 * len < TWO32
    ensures var c := Cursors(1, len, 2 * len, 100 * len, 2 * len);
            var d := c.(readPos := 0, writePos := len - 1);
            && Serviceable(c, len) && Reserved(c, len) == (true, d)
            && Serviceable(d, len) && Reserved(d, len) == (true, d.(curSize := 4 * len))
  {
    var c := Cursors(1, len, 2 * len, 100 * len, 2 * len);
    U32Small(2 * len);
    MissingExact(c, len);
    U32Small(2 * len - 1);
    U32Small(3 * len);
    U32Small(4 * len);
  }

  /** A position taken before a granted check is where the bytes go exactly when nothing slid or grew. */
  lemma PointerRightIff(c: Cursors, size: nat)
    requires InRange(c) && Serviceable(c, size) && Reserved(c, size).0
    ensures var d := Reserved(c, size).1;
            d.curSize == c.curSize && d.writePos == c.writePos
            <==> !NeedsRealloc(c, size) || (c.readPos == 0 && size == 0)
  {
    if NeedsRealloc(c, size) {
      MissingExact(c, size);
      GrownFacts(Compacted(c), Missing(c, size));
    }
  }

  /** A check for n and then, if it is granted, one for m that is committed. */
  function TwoChecks(c: Cursors, n: nat, m: nat): (bool, Cursors) {
    var (ok, d) := Reserved(c, n);
    if !ok then (false, d) else (Reserved(d, m).0, Committed(Reserved(d, m), m))
  }

  /** Both checks keep their word. */
  predicate TwoServiceable(c: Cursors, n: nat, m: nat) {
    m <= n && Serviceable(c, n) && (Reserved(c, n).0 ==> Serviceable(Reserved(c, n).1, m))
  }

  /** What the second check may rely on after the first. */
  lemma TwoChecksFacts(c: Cursors, n: nat, m: nat)
    requires InRange(c) && TwoServiceable(c, n, m)
    ensures var (ok, d) := Reserved(c, n);
            && Keeps(c, d)
            && (ok ==> Serviceable(d, m) && Stays(d, m))
  {
    ReservedFacts(c, n);
    if Reserved(c, n).0 {
      SecondCheckStays(c, n, m);
    }
  }

  // ---- Reading ----

  /** The test of `CanRead` and `ReadSlip`. */
  predicate Readable(c: Cursors, size: nat) {
    U32(c.readPos + size) <= c.writePos
  }

  /** The test tells whether enough is unread exactly when its sum does not wrap. */
  lemma ReadableSoundIff(c: Cursors, size: nat)
    requires InRange(c) && size < TWO32
    ensures (Readable(c, size) <==> size <= Unread(c)) <==> c.readPos + size < TWO32
  {
    U32Sum(c.readPos + size);
  }

  /** With nothing unread, a wrapping size passes the test. */
  lemma ReadWitness()
    ensures var c := Cursors(1, 1, 10, 10240, 1000); InRange(c) && Unread(c) == 0 && Readable(c, TWO32 - 1)
  {
    U32Sum(1 + (TWO32 - 1));
  }

  // ---- The buffer object ----

  lemma SliceOfPrefix(a: seq<Byte>, b: seq<Byte>, lo: nat, hi: nat)
    requires lo <= hi <= |a| <= |b| && b[..|a|] == a
    ensures a[lo..hi] == b[lo..hi]
  {
  }

  class CByteBuffer {
    var buffer: array<Byte>
    var writePos: nat
    var readPos: nat
    var realcSize: nat
    var curSize: nat
    var maxSize: nat

    ghost function Cursor(): Cursors
      reads this
    {
      Cursors(readPos, writePos, curSize, maxSize, realcSize)
    }

    ghost predicate Shaped()
      reads this
    {
      buffer.Length == curSize
    }

    ghost predicate Valid()
      reads this
    {
      Shaped() && InRange(Cursor())
    }

    /** The block is replaced exactly when the capacity changes. */
    twostate predicate BlockKept(was: array<Byte>, oldSize: nat)
      reads this
    {
      if curSize == oldSize then buffer == was else fresh(buffer)
    }

    /** The abstract queue: the bytes written and not yet read. */
    ghost function Queue(): seq<Byte>
      requires Valid()
      reads this, buffer
    {
      buffer[readPos..writePos]
    }

    constructor ()
      ensures Valid() && fresh(buffer) && Queue() == []
      ensures Cursor() == Cursors(0, 0, 0, 10240, 1000)
    {
      buffer := new Byte[0];
      writePos, readPos, curSize := 0, 0, 0;
      realcSize, maxSize := DEFAULT_REALLOC_NUM, DEFAULT_BUFFER_LEN;
    }

    method Reset()
      requires Valid()
      modifies this
      ensures Valid() && buffer == old(buffer) && Queue() == []
      ensures Cursor() == old(Cursor()).(readPos := 0, writePos := 0)
    {
      readPos, writePos := 0, 0;
    }

    /** `memmove` of the unread bytes to the start. */
    method Compact()
      requires Valid()
      modifies this, buffer
      ensures Valid() && buffer == old(buffer) && Cursor() == Compacted(old(Cursor()))
      ensures Queue() == old(Queue())
      ensures old(readPos) == 0 ==> buffer[..] == old(buffer[..])
    {
      if readPos > 0 {
        var n := U32(writePos - readPos);
        U32Small(writePos - readPos);
        forall i | 0 <= i < n {
          buffer[i] := buffer[readPos + i];
        }
        writePos := n;
        readPos := 0;
      }
    }

    /** `realloc`, which keeps the bytes that fit. */
    method Resize(newSize: nat)
      requires Valid() && newSize < TWO32
      modifies this
      ensures Shaped() && fresh(buffer) && Cursor() == old(Cursor()).(curSize := newSize)
      ensures var kept := if newSize < old(curSize) then newSize else old(curSize);
              buffer[..kept] == old(buffer[..kept])
      ensures old(curSize) <= newSize ==>
                Valid() && buffer[..old(curSize)] == old(buffer[..]) && Queue() == old(Queue())
    {
      var bigger := new Byte[newSize];
      forall i | 0 <= i < newSize && i < curSize {
        bigger[i] := buffer[i];
      }
      buffer := bigger;
      curSize := newSize;
    }

    /** The second half of `ReallocBuffer`. */
    method GrowFor(need: nat) returns (ok: bool)
      requires Valid() && need < TWO32
      modifies this
      ensures Shaped() && BlockKept(old(buffer), old(curSize))
      ensures (ok, Cursor()) == Grown(old(Cursor()), need)
      ensures GrowthKept(old(Cursor()), need) ==>
                && Valid() && Queue() == old(Queue())
                && old(curSize) <= curSize && buffer[..old(curSize)] == old(buffer[..])
    {
      GrowthMoves(Cursor(), need);
      if GrowthKept(Cursor(), need) {
        GrownFacts(Cursor(), need);
      }
      if need > 0 {
        if U32(need + curSize) > maxSize {
          return false;
        }
        Resize(U32(curSize + (if realcSize > need then realcSize else need)));
      }
      return true;
    }

    /** The first half of `ReallocBuffer`: slide the unread bytes down and see what is still missing. */
    method MakeRoom(size: nat) returns (need: nat)
      requires Valid()
      modifies this, buffer
      ensures Valid() && buffer == old(buffer) && Cursor() == Compacted(old(Cursor()))
      ensures Queue() == old(Queue()) && need == Missing(old(Cursor()), size)
      ensures old(readPos) == 0 ==> buffer[..] == old(buffer[..])
    {
      need := size;
      if readPos > 0 {
        Compact();
        need := Shortfall(curSize, writePos, size);
      }
    }

    /** Unless it grants a wrapped growth, the queue is unchanged. */
    method ReallocBuffer(size: nat) returns (ok: bool)
      requires Valid() && size < TWO32
      modifies this, buffer
      ensures Shaped() && BlockKept(old(buffer), old(curSize))
      ensures (ok, Cursor()) == Reallocated(old(Cursor()), size)
      ensures GrowthKept(Compacted(old(Cursor())), Missing(old(Cursor()), size)) ==>
                && Valid() && Queue() == old(Queue()) && old(curSize) <= curSize
                && (old(readPos) == 0 ==> buffer[..old(curSize)] == old(buffer[..]))
    {
      MissingExact(Cursor(), size);
      var need := MakeRoom(size);
      ok := GrowFor(need);
    }

    /** Unless it grants on a wrapped sum, the queue is unchanged and a granted size has room. */
    method CanWrite(size: nat) returns (ok: bool)
      requires Valid() && size < TWO32
      modifies this, buffer
      ensures Shaped() && BlockKept(old(buffer), old(curSize))
      ensures (ok, Cursor()) == Reserved(old(Cursor()), size)
      ensures Serviceable(old(Cursor()), size) ==>
                && Valid() && Queue() == old(Queue()) && old(curSize) <= curSize
                && (ok ==> writePos + size <= curSize)
                && (Stays(old(Cursor()), size) ==>
                      && readPos == old(readPos) && writePos == old(writePos)
                      && buffer[..old(curSize)] == old(buffer[..]))
    {
      if Serviceable(Cursor(), size) {
        ReservedFacts(Cursor(), size);
        if NeedsRealloc(Cursor(), size) {
          ServiceableKept(Cursor(), size);
        }
      }
      ok := true;
      if curSize <= 1 || U32(writePos + size) >= curSize - 1 {
        ok := ReallocBuffer(size);
      }
    }

    method SetMaxSize(maxNum: nat)
      requires Valid() && maxNum < TWO32
      modifies this`maxSize
      ensures Valid() && maxSize == maxNum
    {
      maxSize := maxNum;
    }

    method SetReallocSize(reallocNum: nat)
      requires Valid() && reallocNum < TWO32
      modifies this`realcSize
      ensures Valid() && realcSize == reallocNum
    {
      realcSize := reallocNum;
    }

    /** Commits `size` bytes that the caller has placed behind the write cursor. */
    method WriteSlip(size: nat) returns (ok: bool)
      requires Valid() && size < TWO32
      modifies this, buffer
      ensures Shaped() && BlockKept(old(buffer), old(curSize))
      ensures ok == Reserved(old(Cursor()), size).0
      ensures Cursor() == Committed(Reserved(old(Cursor()), size), size)
      ensures Serviceable(old(Cursor()), size) ==>
                && Valid() && old(curSize) <= curSize
                && (!ok ==> Queue() == old(Queue()))
                && (ok && Stays(old(Cursor()), size) ==>
                      Queue() == old(Queue()) + old(buffer[..][writePos..writePos + size]))
    {
      ghost var was := buffer[..];
      ghost var sound := Serviceable(Cursor(), size);
      ok := CanWrite(size);
      if ok {
        if sound && Stays(old(Cursor()), size) {
          SliceOfPrefix(was, buffer[..], writePos, writePos + size);
        }
        Advance(size);
      }
    }

    /** `m_writePos += size`. */
    method Advance(size: nat)
      requires Shaped()
      modifies this`writePos
      ensures Shaped() && Cursor() == old(Cursor()).(writePos := U32(old(writePos) + size))
      ensures old(Valid()) && old(writePos) + size <= curSize ==>
                && Valid()
                && Queue() == old(Queue()) + buffer[..][old(writePos)..old(writePos) + size]
    {
      if Valid() && writePos + size <= curSize {
        U32Small(writePos + size);
      }
      writePos := U32(writePos + size);
    }

    /** The caller's copy through the raw write pointer. */
    method Fill(src: seq<Byte>)
      requires Valid() && writePos + |src| <= curSize
      modifies buffer
      ensures Queue() == old(Queue())
      ensures buffer[..][writePos..writePos + |src|] == src
    {
      forall i | 0 <= i < |src| {
        buffer[writePos + i] := src[i];
      }
    }

    /** Reserve n bytes, fill in at most that many through the pointer, commit them; no read intervenes. */
    method ReserveFillCommit(n: nat, src: seq<Byte>) returns (ok: bool)
      requires Valid() && TwoServiceable(Cursor(), n, |src|)
      modifies this, buffer
      ensures Valid() && BlockKept(old(buffer), old(curSize)) && old(curSize) <= curSize
      ensures (ok, Cursor()) == TwoChecks(old(Cursor()), n, |src|)
      ensures Queue() == if ok then old(Queue()) + src else old(Queue())
    {
      TwoChecksFacts(Cursor(), n, |src|);
      ok := CanWrite(n);
      if ok {
        ok := FillAndSlip(src);
      }
    }

    /** The second half: copy, then check again and commit. */
    method FillAndSlip(src: seq<Byte>) returns (ok: bool)
      requires Valid() && Serviceable(Cursor(), |src|) && Stays(Cursor(), |src|)
      modifies this, buffer
      ensures Valid() && BlockKept(old(buffer), old(curSize)) && old(curSize) <= curSize
      ensures Queue() == if ok then old(Queue()) + src else old(Queue())
      ensures ok == Reserved(old(Cursor()), |src|).0
      ensures Cursor() == Committed(Reserved(old(Cursor()), |src|), |src|)
    {
      Fill(src);
      ok := WriteSlip(|src|);
    }

    /** Copies first and checks again afterwards, so a refusal can still follow the copy. */
    method WriteBuf(src: seq<Byte>) returns (ok: bool)
      requires Valid() && TwoServiceable(Cursor(), |src|, |src|)
      modifies this, buffer
      ensures Valid() && BlockKept(old(buffer), old(curSize)) && old(curSize) <= curSize
      ensures (ok, Cursor()) == TwoChecks(old(Cursor()), |src|, |src|)
      ensures Queue() == if ok then old(Queue()) + src else old(Queue())
    {
      ok := ReserveFillCommit(|src|, src);
    }

    /**
     The overload that returns the write position: it takes block and position before it checks. They are
     where the committed bytes belong exactly when the check neither slides nor grows.
     */
    method WritePointer(size: nat) returns (ok: bool, block: array<Byte>, at: nat)
      requires Valid() && size < TWO32
      modifies this, buffer
      ensures Shaped() && block == old(buffer) && at == old(writePos)
      ensures ok == Reserved(old(Cursor()), size).0
      ensures Cursor() == Committed(Reserved(old(Cursor()), size), size)
      ensures block == buffer <==> Reserved(old(Cursor()), size).1.curSize == old(curSize)
      ensures Serviceable(old(Cursor()), size) && ok ==>
                (block == buffer && writePos == at + size
                 <==> !NeedsRealloc(old(Cursor()), size) || (old(readPos) == 0 && size == 0))
    {
      block, at := buffer, writePos;
      ghost var c := Cursor();
      ok := WriteSlip(size);
      if Serviceable(c, size) && ok {
        PointerRightIff(c, size);
        ReservedFacts(c, size);
        U32Small(Reserved(c, size).1.writePos + size);
      }
    }

    /** Right after a grant of n the returned pointer is stale exactly when the second check grows the block. */
    method CheckedWritePointer(n: nat) returns (ok: bool, block: array<Byte>, at: nat)
      requires Valid() && TwoServiceable(Cursor(), n, n)
      modifies this, buffer
      ensures Valid() && (ok, Cursor()) == TwoChecks(old(Cursor()), n, n)
      ensures Reserved(old(Cursor()), n).0 ==>
                var d := Reserved(old(Cursor()), n).1;
                && at == d.writePos
                && (block != buffer <==> n > 0 && d.writePos + n >= d.curSize - 1 && d.curSize + n <= d.maxSize)
    {
      if Reserved(Cursor(), n).0 {
        SecondCheckGrowsIff(Cursor(), n);
      }
      TwoChecksBounded(Cursor(), n, n);
      ok := CanWrite(n);
      block, at := buffer, writePos;
      if ok {
        ok, block, at := WritePointer(n);
      }
    }

    /** Tells whether enough is unread, unless its sum wraps. */
    method CanRead(size: nat) returns (ok: bool)
      requires Valid() && size < TWO32
      ensures ok <==> Readable(Cursor(), size)
      ensures (ok <==> size <= |Queue()|) <==> readPos + size < TWO32
    {
      ReadableSoundIff(Cursor(), size);
      ok := !(U32(readPos + size) > writePos);
    }

    /** Removes the front if enough is unread, unless its sum wraps: then it moves the read cursor back. */
    method ReadSlip(size: nat) returns (ok: bool)
      requires Valid() && size < TWO32
      modifies this`readPos
      ensures Valid() && ok == Readable(old(Cursor()), size)
      ensures Cursor() == if ok then old(Cursor()).(readPos := U32(old(readPos) + size)) else old(Cursor())
      ensures (ok <==> size <= |old(Queue())|) <==> old(readPos) + size < TWO32
      ensures old(readPos) + size < TWO32 ==> Queue() == if ok then old(Queue())[size..] else old(Queue())
      ensures old(readPos) + size >= TWO32 ==>
                ok && readPos < old(readPos) && Queue() == buffer[readPos..old(readPos)] + old(Queue())
    {
      ReadableSoundIff(Cursor(), size);
      U32Sum(readPos + size);
      if U32(readPos + size) > writePos {
        return false;
      }
      readPos := U32(readPos + size);
      return true;
    }

    /** The source returns an `int`, which is the count exactly when that is below 2^31. */
    method ReadSize() returns (n: int)
      requires Valid()
      ensures n == if |Queue()| < TWO31 then |Queue()| else |Queue()| - TWO32
      ensures n == |Queue()| <==> |Queue()| < TWO31
    {
      AsIntExact(writePos - readPos);
      n := AsInt(writePos - readPos);
    }
  }

  // ---- Whole runs ----

  datatype Op =
    | Write(bytes: seq<Byte>)
    | Commit(reserve: nat, bytes: seq<Byte>)
    | Check(size: nat)
    | Read(size: nat)
    | Clear

  function SizeOf(op: Op): nat {
    match op
    case Write(bytes) => |bytes|
    case Commit(reserve, bytes) => Max(reserve, |bytes|)
    case Check(size) => size
    case Read(size) => size
    case Clear => 0
  }

  /** The abstract queue after one operation with its reply. */
  function After(q: seq<Byte>, op: Op, ok: bool): seq<Byte> {
    match op
    case Write(bytes) => if ok then q + bytes else q
    case Commit(_, bytes) => if ok then q + bytes else q
    case Check(_) => q
    case Read(size) => if ok && size <= |q| then q[size..] else q
    case Clear => []
  }

  function AfterAll(q: seq<Byte>, ops: seq<Op>, replies: seq<bool>): seq<Byte>
    requires |ops| == |replies|
  {
    if ops == [] then q
    else After(AfterAll(q, ops[..|ops| - 1], replies[..|ops| - 1]), ops[|ops| - 1], replies[|ops| - 1])
  }

  /** The bytes that one operation put in. */
  function Put(op: Op, ok: bool): seq<Byte> {
    if ok && (op.Write? || op.Commit?) then op.bytes else []
  }

  /** The bytes that one operation took out, by reading or by clearing. */
  function Taken(q: seq<Byte>, op: Op, ok: bool): seq<Byte> {
    match op
    case Read(size) => if ok && size <= |q| then q[..size] else []
    case Clear => q
    case _ => []
  }

  function PutAll(ops: seq<Op>, replies: seq<bool>): seq<Byte>
    requires |ops| == |replies|
  {
    if ops == [] then []
    else PutAll(ops[..|ops| - 1], replies[..|ops| - 1]) + Put(ops[|ops| - 1], replies[|ops| - 1])
  }

  function TakenAll(q: seq<Byte>, ops: seq<Op>, replies: seq<bool>): seq<Byte>
    requires |ops| == |replies|
  {
    if ops == [] then []
    else
      var n := |ops| - 1;
      TakenAll(q, ops[..n], replies[..n]) + Taken(AfterAll(q, ops[..n], replies[..n]), ops[n], replies[n])
  }

  /** First in, first out: what was there and what was put in is what was taken out and what remains, in order. */
  lemma {:induction false} Conservation(q: seq<Byte>, ops: seq<Op>, replies: seq<bool>)
    requires |ops| == |replies|
    ensures q + PutAll(ops, replies) == TakenAll(q, ops, replies) + AfterAll(q, ops, replies)
    decreases |ops|
  {
    if ops != [] {
      var n := |ops| - 1;
      Conservation(q, ops[..n], replies[..n]);
      OneStep(AfterAll(q, ops[..n], replies[..n]), ops[n], replies[n]);
      Reassociate(q, PutAll(ops[..n], replies[..n]), Put(ops[n], replies[n]),
                  TakenAll(q, ops[..n], replies[..n]), AfterAll(q, ops[..n], replies[..n]),
                  Taken(AfterAll(q, ops[..n], replies[..n]), ops[n], replies[n]),
                  AfterAll(q, ops, replies));
    }
  }

  lemma OneStep(q: seq<Byte>, op: Op, ok: bool)
    ensures q + Put(op, ok) == Taken(q, op, ok) + After(q, op, ok)
  {
  }

  lemma Reassociate(q: seq<Byte>, p: seq<Byte>, x: seq<Byte>, t: seq<Byte>, a: seq<Byte>, y: seq<Byte>, b: seq<Byte>)
    requires q + p == t + a && a + x == y + b
    ensures q + (p + x) == (t + y) + b
  {
    assert q + (p + x) == (q + p) + x == t + (a + x) == (t + y) + b;
  }

  // ---- The cursors over a run ----

  /** The reply to one operation and the cursors it leaves. */
  function StepOf(c: Cursors, op: Op): (bool, Cursors) {
    match op
    case Write(bytes) => TwoChecks(c, |bytes|, |bytes|)
    case Commit(reserve, bytes) => TwoChecks(c, reserve, |bytes|)
    case Check(size) => Reserved(c, size)
    case Read(size) => (Readable(c, size), if Readable(c, size) then c.(readPos := U32(c.readPos + size)) else c)
    case Clear => (true, c.(readPos := 0, writePos := 0))
  }

  /** The operation commits no more than it reserves and grants nothing on a wrapped sum. */
  predicate Allowed(c: Cursors, op: Op) {
    match op
    case Write(bytes) => TwoServiceable(c, |bytes|, |bytes|)
    case Commit(reserve, bytes) => TwoServiceable(c, reserve, |bytes|)
    case Check(size) => Serviceable(c, size)
    case Read(size) => c.readPos + size < TWO32
    case Clear => true
  }

  function CursorsAfter(c: Cursors, ops: seq<Op>): Cursors {
    if ops == [] then c else StepOf(CursorsAfter(c, ops[..|ops| - 1]), ops[|ops| - 1]).1
  }

  /** Every operation of the run is allowed where it happens. */
  ghost predicate AllowedAll(c: Cursors, ops: seq<Op>) {
    forall i | 0 <= i < |ops| :: Allowed(CursorsAfter(c, ops[..i]), ops[i])
  }

  /** The limits stay, and the capacity only grows, never past cap plus step. */
  ghost predicate Bounded(c: Cursors, d: Cursors) {
    && InRange(d) && d.maxSize == c.maxSize && d.realcSize == c.realcSize
    && c.curSize <= d.curSize <= Max(c.curSize, c.maxSize + c.realcSize)
  }

  lemma FirstMessage(len: nat)
    requires 1 < len && 100 * len < TWO32
    ensures TwoChecks(Cursors(0, 0, 0, 100 * len, 2 * len), len, len)
         == (true, Cursors(0, len, 2 * len, 100 * len, 2 * len))
  {
    U32Small(len);
    U32Small(2 * len);
  }

  /** The endpoint gets into the state of `EndpointStalePointer` by writing one message and reading one byte. */
  lemma {:induction false} EndpointReaches(len: nat, message: seq<Byte>)
    requires 1 < len == |message| && 100 * len < TWO32
    ensures CursorsAfter(Cursors(0, 0, 0, 100 * len, 2 * len), [Write(message), Read(1)])
         == Cursors(1, len, 2 * len, 100 * len, 2 * len)
  {
    var c := Cursors(0, 0, 0, 100 * len, 2 * len);
    var ops := [Write(message), Read(1)];
    FirstMessage(len);
    U32Small(1);
    assert ops[..1] == [Write(message)] && ops[..1][..0] == [];
    assert CursorsAfter(c, []) == c;
    assert CursorsAfter(c, ops[..1]) == StepOf(c, Write(message)).1;
  }

  lemma TwoChecksBounded(c: Cursors, n: nat, m: nat)
    requires InRange(c) && TwoServiceable(c, n, m)
    ensures Bounded(c, TwoChecks(c, n, m).1)
  {
    TwoChecksFacts(c, n, m);
    if Reserved(c, n).0 {
      var d := Reserved(c, n).1;
      ReservedFacts(d, m);
      if Reserved(d, m).0 {
        U32Small(Reserved(d, m).1.writePos + m);
      }
    }
  }

  lemma StepBounded(c: Cursors, op: Op)
    requires InRange(c) && Allowed(c, op)
    ensures Bounded(c, StepOf(c, op).1)
  {
    match op
    case Write(bytes) => TwoChecksBounded(c, |bytes|, |bytes|);
    case Commit(reserve, bytes) => TwoChecksBounded(c, reserve, |bytes|);
    case Check(size) => ReservedFacts(c, size);
    case Read(size) => U32Small(c.readPos + size);
    case Clear =>
  }

  lemma {:induction false} RunBounded(c: Cursors, ops: seq<Op>)
    requires InRange(c) && AllowedAll(c, ops)
    ensures Bounded(c, CursorsAfter(c, ops))
    decreases |ops|
  {
    if ops != [] {
      var n := |ops| - 1;
      assert AllowedAll(c, ops[..n]) by {
        assert forall i | 0 <= i < n :: ops[..n][..i] == ops[..i];
      }
      RunBounded(c, ops[..n]);
      StepBounded(CursorsAfter(c, ops[..n]), ops[n]);
    }
  }

  lemma SmallServiceable(c: Cursors, size: nat)
    requires InRange(c) && Max(c.curSize, c.maxSize + c.realcSize) + size < TWO32
    ensures SumsFit(c, size)
  {
    MissingExact(c, size);
  }

  lemma SmallAllowed(c: Cursors, op: Op)
    requires InRange(c) && Max(c.curSize, c.maxSize + c.realcSize) + SizeOf(op) < TWO32
    requires op.Commit? ==> |op.bytes| <= op.reserve
    ensures Allowed(c, op)
  {
    var n := SizeOf(op);
    SmallServiceable(c, n);
    if op.Write? || op.Commit? {
      ReservedFacts(c, n);
      SmallServiceable(Reserved(c, n).1, |op.bytes|);
    }
  }

  /** In particular every run of operations whose sizes stay below 2^32 less the capacity bound. */
  lemma {:induction false} SmallRunAllowed(c: Cursors, ops: seq<Op>)
    requires InRange(c)
    requires forall i | 0 <= i < |ops| ::
               Max(c.curSize, c.maxSize + c.realcSize) + SizeOf(ops[i]) < TWO32
               && (ops[i].Commit? ==> |ops[i].bytes| <= ops[i].reserve)
    ensures AllowedAll(c, ops)
    decreases |ops|
  {
    if ops != [] {
      var n := |ops| - 1;
      SmallRunAllowed(c, ops[..n]);
      RunBounded(c, ops[..n]);
      SmallAllowed(CursorsAfter(c, ops[..n]), ops[n]);
      AllowedExtend(c, ops[..n], ops[n]);
      assert ops == ops[..n] + [ops[n]];
    }
  }

  lemma {:induction false} AllowedExtend(c: Cursors, ops: seq<Op>, op: Op)
    requires AllowedAll(c, ops) && Allowed(CursorsAfter(c, ops), op)
    ensures AllowedAll(c, ops + [op])
  {
    var ops' := ops + [op];
    forall i | 0 <= i < |ops'|
      ensures Allowed(CursorsAfter(c, ops'[..i]), ops'[i])
    {
      assert ops'[..i] == ops[..i];
      if i == |ops| {
        assert ops[..i] == ops;
      }
    }
  }

  /** One operation on the real buffer, with its reply. */
  method Perform(b: CByteBuffer, op: Op) returns (ok: bool)
    requires b.Valid() && Allowed(b.Cursor(), op)
    modifies b, b.buffer
    ensures b.Valid() && (b.buffer == old(b.buffer) || fresh(b.buffer))
    ensures (ok, b.Cursor()) == StepOf(old(b.Cursor()), op)
    ensures b.Queue() == After(old(b.Queue()), op, ok)
    ensures op.Read? ==> (ok <==> op.size <= |old(b.Queue())|)
  {
    match op
    case Write(bytes) =>
      ok := b.WriteBuf(bytes);
    case Commit(reserve, bytes) =>
      ok := b.ReserveFillCommit(reserve, bytes);
    case Check(size) =>
      ok := b.CanWrite(size);
    case Read(size) =>
      ok := b.ReadSlip(size);
    case Clear =>
      b.Reset();
      ok := true;
  }

  /** The reply of the cursor arithmetic; a read is granted exactly when enough is unread. */
  ghost predicate ReplyRight(c: Cursors, q: seq<Byte>, op: Op, ok: bool) {
    ok == StepOf(c, op).0 && (op.Read? ==> (ok <==> op.size <= |q|))
  }

  ghost predicate RepliesRight(c: Cursors, q: seq<Byte>, ops: seq<Op>, replies: seq<bool>)
    requires |replies| == |ops|
  {
    forall i | 0 <= i < |ops| ::
      ReplyRight(CursorsAfter(c, ops[..i]), AfterAll(q, ops[..i], replies[..i]), ops[i], replies[i])
  }

  lemma {:induction false} RepliesExtend(c: Cursors, q: seq<Byte>, ops: seq<Op>, replies: seq<bool>, op: Op, ok: bool)
    requires |replies| == |ops| && RepliesRight(c, q, ops, replies)
    requires ReplyRight(CursorsAfter(c, ops), AfterAll(q, ops, replies), op, ok)
    ensures RepliesRight(c, q, ops + [op], replies + [ok])
  {
    var ops', replies' := ops + [op], replies + [ok];
    forall i | 0 <= i < |ops'|
      ensures ReplyRight(CursorsAfter(c, ops'[..i]), AfterAll(q, ops'[..i], replies'[..i]), ops'[i], replies'[i])
    {
      assert ops'[..i] == ops[..i] && replies'[..i] == replies[..i];
      if i == |ops| {
        assert ops[..i] == ops && replies[..i] == replies;
      }
    }
  }

  /**
   Any run of operations: every reply and the cursors are those of the cursor arithmetic, a read is
   granted exactly when enough is unread, the unread bytes are the abstract queue, and the capacity
   stays bounded.
   */
  method Run(b: CByteBuffer, ops: seq<Op>) returns (replies: seq<bool>)
    requires b.Valid() && AllowedAll(b.Cursor(), ops)
    modifies b, b.buffer
    ensures b.Valid() && |replies| == |ops|
    ensures RepliesRight(old(b.Cursor()), old(b.Queue()), ops, replies)
    ensures b.Cursor() == CursorsAfter(old(b.Cursor()), ops)
    ensures b.Queue() == AfterAll(old(b.Queue()), ops, replies)
    ensures Bounded(old(b.Cursor()), b.Cursor())
  {
    replies := [];
    ghost var c := b.Cursor();
    ghost var q := b.Queue();
    for k := 0 to |ops|
      invariant b.Valid() && (b.buffer == old(b.buffer) || fresh(b.buffer))
      invariant |replies| == k && b.Cursor() == CursorsAfter(c, ops[..k])
      invariant b.Queue() == AfterAll(q, ops[..k], replies)
      invariant RepliesRight(c, q, ops[..k], replies)
    {
      var ok := Perform(b, ops[k]);
      RepliesExtend(c, q, ops[..k], replies, ops[k], ok);
      assert ops[..k + 1] == ops[..k] + [ops[k]];
      assert ops[..k + 1][..k] == ops[..k] && (replies + [ok])[..k] == replies;
      replies := replies + [ok];
    }
    assert ops[..|ops|] == ops;
    RunBounded(c, ops);
  }
}
