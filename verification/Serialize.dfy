/** Appending fixed-size values and length-prefixed messages to a caller's buffer, and reading them back. */
module Serialize {
  import opened Arithmetic
  import opened Wrappers

  /**
   The body codec of a message type; the generated protobuf code is not part of this model.
   Parsing works in place: it says whether it succeeded and what it left in the message.
   */
  datatype Codec<!M> = Codec(encode: M -> seq<Byte>, parse: seq<Byte> -> (bool, M))

  // ---- The eight-byte length prefix ----

  function Pow256(k: nat): (p: nat)
    ensures p > 0
  {
    if k == 0 then 1 else 256 * Pow256(k - 1)
  }

  function ToBytes(n: nat, k: nat): (r: seq<Byte>)
    ensures |r| == k
  {
    if k == 0 then [] else [n % 256] + ToBytes(n / 256, k - 1)
  }

  function FromBytes(s: seq<Byte>): nat {
    if s == [] then 0 else s[0] as nat + 256 * FromBytes(s[1..])
  }

  lemma {:induction false} FromToBytes(n: nat, k: nat)
    requires n < Pow256(k)
    ensures FromBytes(ToBytes(n, k)) == n
  {
    if k > 0 {
      FromToBytes(n / 256, k - 1);
      assert ToBytes(n, k)[1..] == ToBytes(n / 256, k - 1);
    }
  }

  lemma PrefixRange()
    ensures Pow256(8) == TWO64
  {
    assert Pow256(4) == 0x1_0000_0000;
  }

  lemma {:induction false} ToFromBytes(s: seq<Byte>)
    ensures ToBytes(FromBytes(s), |s|) == s
  {
    if s != [] {
      ToFromBytes(s[1..]);
      assert [s[0]] + s[1..] == s;
    }
  }

  /** Byte i is digit i to the base 256, the lowest first. */
  lemma {:induction false} ByteIsDigit(n: nat, k: nat, i: nat)
    requires i < k
    ensures ToBytes(n, k)[i] == n / Pow256(i) % 256
  {
    if i > 0 {
      ByteIsDigit(n / 256, k - 1, i - 1);
      DivDiv(n, 256, Pow256(i - 1));
    }
  }

  /** The eight bytes from p on are n in little-endian order. */
  ghost predicate PrefixAt(buf: seq<Byte>, p: nat, n: nat) {
    && p + 8 <= |buf|
    && buf[p] == n % 256
    && buf[p + 1] == n / 0x100 % 256
    && buf[p + 2] == n / 0x1_0000 % 256
    && buf[p + 3] == n / 0x100_0000 % 256
    && buf[p + 4] == n / 0x1_0000_0000 % 256
    && buf[p + 5] == n / 0x100_0000_0000 % 256
    && buf[p + 6] == n / 0x1_0000_0000_0000 % 256
    && buf[p + 7] == n / 0x100_0000_0000_0000 % 256
  }

  lemma Powers256()
    ensures Pow256(0) == 1 && Pow256(1) == 0x100 && Pow256(2) == 0x1_0000 && Pow256(3) == 0x100_0000
    ensures Pow256(4) == 0x1_0000_0000 && Pow256(5) == 0x100_0000_0000 && Pow256(6) == 0x1_0000_0000_0000
    ensures Pow256(7) == 0x100_0000_0000_0000
  {
  }

  lemma {:induction false} PrefixBytes(n: nat, bytes: seq<Byte>)
    requires bytes == ToBytes(n, 8)
    ensures PrefixAt(bytes, 0, n)
  {
    Powers256();
    ByteIsDigit(n, 8, 0);
    ByteIsDigit(n, 8, 1);
    ByteIsDigit(n, 8, 2);
    ByteIsDigit(n, 8, 3);
    ByteIsDigit(n, 8, 4);
    ByteIsDigit(n, 8, 5);
    ByteIsDigit(n, 8, 6);
    ByteIsDigit(n, 8, 7);
  }

  /** The number read from eight bytes is the one whose little-endian bytes they are. */
  lemma {:induction false} PrefixRead(buf: seq<Byte>, p: nat, n: nat)
    requires p + 8 <= |buf| && n == FromBytes(buf[p..p + 8])
    ensures n < TWO64 && PrefixAt(buf, p, n)
  {
    var bytes := buf[p..p + 8];
    ToFromBytes(bytes);
    PrefixBytes(n, bytes);
    PrefixMoved(bytes, buf, p, n);
    FromBytesRange(bytes);
    PrefixRange();
  }

  lemma {:induction false} FromBytesRange(s: seq<Byte>)
    ensures FromBytes(s) < Pow256(|s|)
  {
    if s != [] {
      FromBytesRange(s[1..]);
    }
  }

  // ---- Serializing ----

  /** What one call leaves: its reply, the buffer and the offset. */
  datatype Outcome = Outcome(ok: bool, buf: seq<Byte>, offset: nat)

  function Splice(buf: seq<Byte>, offset: nat, bytes: seq<Byte>): (r: seq<Byte>)
    requires offset + |bytes| <= |buf|
    ensures |r| == |buf|
  {
    buf[..offset] + bytes + buf[offset + |bytes|..]
  }

  function PutBase(buf: seq<Byte>, size: nat, offset: nat, elem: seq<Byte>): (r: Outcome)
    requires size <= |buf|
    ensures |r.buf| == |buf|
  {
    if |elem| + offset > size then Outcome(false, buf, offset)
    else Outcome(true, Splice(buf, offset, elem), offset + |elem|)
  }

  /** The prefix stays written, and the offset past it, when the body does not fit. */
  function PutMessage(buf: seq<Byte>, size: nat, offset: nat, body: seq<Byte>): (r: Outcome)
    requires size <= |buf|
    ensures |r.buf| == |buf|
  {
    var prefix := PutBase(buf, size, offset, ToBytes(|body|, 8));
    if !prefix.ok then prefix
    else if |body| + prefix.offset > size then Outcome(false, prefix.buf, prefix.offset)
    else Outcome(true, Splice(prefix.buf, prefix.offset, body), prefix.offset + |body|)
  }

  /** Where the prefix fits, it is written in little-endian order, and the body follows if it fits too. */
  lemma {:induction false} PutMessageBytes(buf: seq<Byte>, size: nat, offset: nat, body: seq<Byte>)
    requires size <= |buf|
    ensures var r := PutMessage(buf, size, offset, body);
            && (offset + 8 <= size ==> PrefixAt(r.buf, offset, |body|))
            && (r.ok ==> offset + 8 + |body| == r.offset <= |r.buf| && r.buf[offset + 8..r.offset] == body)
  {
    var r, prefix := PutMessage(buf, size, offset, body), ToBytes(|body|, 8);
    if offset + 8 <= size {
      PrefixBytes(|body|, prefix);
      assert r.buf[offset..offset + 8] == prefix;
      PrefixMoved(prefix, r.buf, offset, |body|);
    }
  }

  lemma PrefixMoved(prefix: seq<Byte>, buf: seq<Byte>, p: nat, n: nat)
    requires |prefix| == 8 && PrefixAt(prefix, 0, n) && p + 8 <= |buf| && buf[p..p + 8] == prefix
    ensures PrefixAt(buf, p, n)
  {
    assert forall i | 0 <= i < 8 :: prefix[i] == buf[p + i];
  }

  method SerializeBase(buf: array<Byte>, size: nat, offset: nat, elem: seq<Byte>) returns (ok: bool, next: nat)
    requires size <= buf.Length
    modifies buf
    ensures Outcome(ok, buf[..], next) == PutBase(old(buf[..]), size, offset, elem)
  {
    if |elem| + offset > size {
      return false, offset;
    }
    forall i | 0 <= i < |elem| {
      buf[offset + i] := elem[i];
    }
    assert buf[..] == Splice(old(buf[..]), offset, elem);
    return true, offset + |elem|;
  }

  method SerializePB<M>(c: Codec<M>, buf: array<Byte>, size: nat, offset: nat, elem: M) returns (ok: bool, next: nat)
    requires size <= buf.Length
    modifies buf
    ensures Outcome(ok, buf[..], next) == PutMessage(old(buf[..]), size, offset, c.encode(elem))
    ensures offset + 8 <= size ==> PrefixAt(buf[..], offset, |c.encode(elem)|)
    ensures ok ==> offset + 8 <= next == offset + 8 + |c.encode(elem)| && buf[offset + 8..next] == c.encode(elem)
  {
    var body := c.encode(elem);
    PutMessageBytes(buf[..], size, offset, body);
    ok, next := SerializeBase(buf, size, offset, ToBytes(|body|, 8));
    if !ok {
      return;
    }
    if |body| + next > size {
      return false, next;
    }
    ghost var mid := buf[..];
    forall i | 0 <= i < |body| {
      buf[next + i] := body[i];
    }
    assert buf[..] == Splice(mid, next, body);
    return true, next + |body|;
  }

  // ---- Unserializing ----

  function GetBase(buf: seq<Byte>, size: nat, offset: nat, n: nat): Option<(seq<Byte>, nat)>
    requires size <= |buf|
  {
    if n + offset > size then None else Some((buf[offset..offset + n], offset + n))
  }

  function GetMessage<M>(c: Codec<M>, buf: seq<Byte>, size: nat, offset: nat): Option<(M, nat)>
    requires size <= |buf|
  {
    match GetBase(buf, size, offset, 8)
    case None => None
    case Some((prefix, start)) =>
      var n := FromBytes(prefix);
      if n + start > size then None
      else
        var (ok, m) := c.parse(buf[start..start + n]);
        if ok then Some((m, start + n)) else None
  }

  /** What a call leaves: its reply, the message and the offset, unless it asks to parse past the buffer. */
  datatype Fetched<M> = Fetched(ok: bool, elem: M, next: nat) | Overrun

  /** The same with the 64-bit sum that the code compares; the prefix comes from the buffer and can be anything. */
  function Fetch<M>(c: Codec<M>, buf: seq<Byte>, size: nat, offset: nat, was: M): Fetched<M>
    requires size <= |buf|
  {
    match GetBase(buf, size, offset, 8)
    case None => Fetched(false, was, offset)
    case Some((prefix, start)) =>
      var n := FromBytes(prefix);
      if (n + start) % TWO64 > size then Fetched(false, was, start)
      else if n + start > size then Overrun
      else
        var (ok, m) := c.parse(buf[start..start + n]);
        Fetched(ok, m, if ok then start + n else start)
  }

  /** The 64-bit test is right exactly when its sum does not wrap. */
  lemma FitsSoundIff(n: nat, start: nat, size: nat)
    requires n < TWO64 && start <= size < TWO64
    ensures ((n + start) % TWO64 <= size <==> n + start <= size) <==> n + start < TWO64
  {
    if n + start < TWO64 {
      SmallMod(n + start, TWO64);
    } else {
      SmallMod(n + start - TWO64, TWO64);
      ModAddMultiple(n + start - TWO64, 1, TWO64);
    }
  }

  /** A length that reaches past the buffer is passed on exactly when the sum wraps; otherwise the read is ideal. */
  lemma {:induction false} OverrunIff<M>(c: Codec<M>, buf: seq<Byte>, size: nat, offset: nat, was: M)
    requires size <= |buf| && size < TWO64
    ensures var r := Fetch(c, buf, size, offset, was);
            && (r.Overrun? <==> offset + 8 <= size && FromBytes(buf[offset..offset + 8]) + offset + 8 >= TWO64)
            && (!r.Overrun? ==>
                  GetMessage(c, buf, size, offset) == if r.ok then Some((r.elem, r.next)) else None)
  {
    if offset + 8 <= size {
      var prefix := buf[offset..offset + 8];
      assert FromBytes(prefix) < TWO64 by {
        FromBytesRange(prefix);
        PrefixRange();
      }
      FitsSoundIff(FromBytes(prefix), offset + 8, size);
    }
  }

  /**
   The parser takes its length as an `int`. In a buffer of less than 2^31 bytes a length that passed the
   test arrives unchanged, unless the sum wrapped: then it arrives as the negative number it stands for.
   */
  lemma ParserLength(n: nat, start: nat, size: nat)
    requires n < TWO64 && start <= size < TWO31 && (n + start) % TWO64 <= size
    ensures AsInt(n) == if n + start < TWO64 then n else n - TWO64
  {
    FitsSoundIff(n, start, size);
    if n + start < TWO64 {
      AsIntExact(n);
    } else {
      var low := n - TWO64 + TWO32;
      ModAddMultiple(low, TWO32 - 1, TWO32);
      AsIntExact(low);
    }
  }

  /** A prefix of eight 0xff bytes passes the test in every buffer that holds it. */
  lemma {:induction false} OverrunWitness<M>(c: Codec<M>, buf: seq<Byte>, was: M)
    requires 8 <= |buf| < TWO64 && buf[..8] == ToBytes(TWO64 - 1, 8)
    ensures Fetch(c, buf, |buf|, 0, was) == Overrun
  {
    PrefixRange();
    FromToBytes(TWO64 - 1, 8);
    OverrunIff(c, buf, |buf|, 0, was);
  }

  method UnSerializeBase(buf: array<Byte>, size: nat, offset: nat, n: nat)
    returns (ok: bool, next: nat, elem: seq<Byte>)
    requires size <= buf.Length
    ensures if ok then GetBase(buf[..], size, offset, n) == Some((elem, next))
            else GetBase(buf[..], size, offset, n) == None && next == offset
  {
    if n + offset > size {
      return false, offset, [];
    }
    return true, offset + n, buf[offset..offset + n];
  }

  /** Requires only that the prefix in the buffer does not wrap the sum. */
  method UnSerializePB<M>(c: Codec<M>, buf: array<Byte>, size: nat, offset: nat, was: M)
    returns (ok: bool, next: nat, elem: M)
    requires size <= buf.Length && size < TWO64
    requires offset + 8 <= size ==> FromBytes(buf[offset..offset + 8]) + offset + 8 < TWO64
    ensures Fetched(ok, elem, next) == Fetch(c, buf[..], size, offset, was)
    ensures GetMessage(c, buf[..], size, offset) == if ok then Some((elem, next)) else None
    ensures !ok ==> next == if offset + 8 <= size then offset + 8 else offset
    ensures ok ==> offset + 8 <= next <= size && PrefixAt(buf[..], offset, next - offset - 8)
                   && c.parse(buf[offset + 8..next]) == (true, elem)
  {
    if offset + 8 <= size {
      assert buf[..][offset..offset + 8] == buf[offset..offset + 8];
      PrefixRead(buf[..], offset, FromBytes(buf[offset..offset + 8]));
    }
    OverrunIff(c, buf[..], size, offset, was);
    elem := was;
    var prefix;
    ok, next, prefix := UnSerializeBase(buf, size, offset, 8);
    if !ok {
      return;
    }
    var n := FromBytes(prefix);
    if (n + next) % TWO64 > size {
      return false, next, elem;
    }
    ok, elem := ParseAt(c, buf, next, n);
    if ok {
      next := next + n;
    }
  }

  /** `ParseFromArray` on the bytes from a position on. */
  method ParseAt<M>(c: Codec<M>, buf: array<Byte>, start: nat, n: nat) returns (ok: bool, elem: M)
    requires start + n <= buf.Length
    ensures (ok, elem) == c.parse(buf[..][start..start + n])
  {
    assert buf[..][start..start + n] == buf[start..start + n];
    var r := c.parse(buf[start..start + n]);
    return r.0, r.1;
  }

  // ---- A series of calls ----

  datatype Item<M> = Base(bytes: seq<Byte>) | Message(message: M)
  datatype Kind = BaseKind(size: nat) | MessageKind

  function KindOf<M>(item: Item<M>): Kind {
    match item
    case Base(bytes) => BaseKind(|bytes|)
    case Message(_) => MessageKind
  }

  function Kinds<M>(items: seq<Item<M>>): seq<Kind> {
    if items == [] then [] else [KindOf(items[0])] + Kinds(items[1..])
  }

  function PutItem<M>(c: Codec<M>, buf: seq<Byte>, size: nat, offset: nat, item: Item<M>): (r: Outcome)
    requires size <= |buf|
    ensures |r.buf| == |buf|
  {
    match item
    case Base(bytes) => PutBase(buf, size, offset, bytes)
    case Message(m) => PutMessage(buf, size, offset, c.encode(m))
  }

  /** Serializes in order and stops at the first refusal. */
  function PutAll<M>(c: Codec<M>, buf: seq<Byte>, size: nat, offset: nat, items: seq<Item<M>>): (r: Outcome)
    requires size <= |buf|
    ensures |r.buf| == |buf|
    decreases |items|
  {
    if items == [] then Outcome(true, buf, offset)
    else
      var first := PutItem(c, buf, size, offset, items[0]);
      if first.ok then PutAll(c, first.buf, size, first.offset, items[1..]) else first
  }

  /** Reads one item; a message is parsed into an object that held `was`. */
  function GetItem<M>(c: Codec<M>, buf: seq<Byte>, size: nat, offset: nat, kind: Kind, was: M)
    : Option<(Item<M>, nat)>
    requires size <= |buf|
  {
    match kind
    case BaseKind(n) =>
      (match GetBase(buf, size, offset, n)
       case None => None
       case Some((bytes, next)) => Some((Base(bytes), next)))
    case MessageKind =>
      (match Fetch(c, buf, size, offset, was)
       case Overrun => None
       case Fetched(ok, m, next) => if ok then Some((Message(m), next)) else None)
  }

  function GetAll<M>(c: Codec<M>, buf: seq<Byte>, size: nat, offset: nat, kinds: seq<Kind>, was: M)
    : Option<(seq<Item<M>>, nat)>
    requires size <= |buf|
    decreases |kinds|
  {
    if kinds == [] then Some(([], offset))
    else
      match GetItem(c, buf, size, offset, kinds[0], was)
      case None => None
      case Some((item, next)) =>
        match GetAll(c, buf, size, next, kinds[1..], was)
        case None => None
        case Some((rest, end)) => Some(([item] + rest, end))
  }

  // ---- Round trip ----

  /** The bytes that an item occupies. */
  function Image<M>(c: Codec<M>, item: Item<M>): seq<Byte> {
    match item
    case Base(bytes) => bytes
    case Message(m) => ToBytes(|c.encode(m)|, 8) + c.encode(m)
  }

  function ImageAll<M>(c: Codec<M>, items: seq<Item<M>>): seq<Byte> {
    if items == [] then [] else Image(c, items[0]) + ImageAll(c, items[1..])
  }

  /** The buffers agree outside positions lo..hi-1. */
  ghost predicate SameOutside(a: seq<Byte>, b: seq<Byte>, lo: nat, hi: nat) {
    |a| == |b| && lo <= hi && forall i | 0 <= i < |a| && !(lo <= i < hi) :: a[i] == b[i]
  }

  lemma SplicedIn(buf: seq<Byte>, offset: nat, bytes: seq<Byte>)
    requires offset + |bytes| <= |buf|
    ensures SameOutside(buf, Splice(buf, offset, bytes), offset, offset + |bytes|)
    ensures Splice(buf, offset, bytes)[offset..offset + |bytes|] == bytes
  {
  }

  lemma SpliceTwice(buf: seq<Byte>, offset: nat, x: seq<Byte>, y: seq<Byte>)
    requires offset + |x| + |y| <= |buf|
    ensures Splice(Splice(buf, offset, x), offset + |x|, y) == Splice(buf, offset, x + y)
  {
  }

  /**
   The call succeeds exactly when the bytes fit, and then writes exactly those bytes;
   if it refuses, nothing outside the range up to its new offset has changed.
   */
  ghost predicate Appends(buf: seq<Byte>, size: nat, offset: nat, bytes: seq<Byte>, r: Outcome)
    requires size <= |buf|
  {
    && SameOutside(buf, r.buf, offset, r.offset)
    && (r.ok <==> offset + |bytes| <= size)
    && (r.ok ==> r.offset == offset + |bytes| && r.buf == Splice(buf, offset, bytes))
  }

  lemma AppendsThen(buf: seq<Byte>, size: nat, offset: nat, x: seq<Byte>, y: seq<Byte>, first: Outcome, r: Outcome)
    requires size <= |buf| && Appends(buf, size, offset, x, first) && first.ok
    requires Appends(first.buf, size, first.offset, y, r)
    ensures Appends(buf, size, offset, x + y, r)
  {
    SameOutsideChain(buf, first.buf, r.buf, offset, first.offset, r.offset);
    if r.ok {
      SpliceTwice(buf, offset, x, y);
    }
  }

  lemma AppendsBase(buf: seq<Byte>, size: nat, offset: nat, elem: seq<Byte>)
    requires size <= |buf|
    ensures Appends(buf, size, offset, elem, PutBase(buf, size, offset, elem))
  {
    if offset + |elem| <= size {
      SplicedIn(buf, offset, elem);
    }
  }

  lemma {:induction false} AppendsMessage(buf: seq<Byte>, size: nat, offset: nat, body: seq<Byte>)
    requires size <= |buf|
    ensures Appends(buf, size, offset, ToBytes(|body|, 8) + body, PutMessage(buf, size, offset, body))
  {
    var prefix := PutBase(buf, size, offset, ToBytes(|body|, 8));
    AppendsBase(buf, size, offset, ToBytes(|body|, 8));
    if prefix.ok {
      AppendsBase(prefix.buf, size, prefix.offset, body);
      AppendsThen(buf, size, offset, ToBytes(|body|, 8), body, prefix, PutMessage(buf, size, offset, body));
    }
  }

  lemma {:induction false} AppendsItem<M>(c: Codec<M>, buf: seq<Byte>, size: nat, offset: nat, item: Item<M>)
    requires size <= |buf|
    ensures Appends(buf, size, offset, Image(c, item), PutItem(c, buf, size, offset, item))
  {
    match item
    case Base(bytes) => AppendsBase(buf, size, offset, bytes);
    case Message(m) => AppendsMessage(buf, size, offset, c.encode(m));
  }

  lemma SameOutsideChain(x: seq<Byte>, y: seq<Byte>, z: seq<Byte>, lo: nat, mid: nat, hi: nat)
    requires SameOutside(x, y, lo, mid) && SameOutside(y, z, mid, hi)
    ensures SameOutside(x, z, lo, hi)
  {
  }

  /** A whole series of calls appends the bytes of all its items, or refuses. */
  lemma {:induction false} AppendsAll<M>(c: Codec<M>, buf: seq<Byte>, size: nat, offset: nat, items: seq<Item<M>>)
    requires size <= |buf| && offset <= size
    ensures Appends(buf, size, offset, ImageAll(c, items), PutAll(c, buf, size, offset, items))
    decreases |items|
  {
    if items == [] {
      assert Splice(buf, offset, []) == buf;
    } else {
      var first := PutItem(c, buf, size, offset, items[0]);
      AppendsItem(c, buf, size, offset, items[0]);
      if first.ok {
        AppendsAll(c, first.buf, size, first.offset, items[1..]);
        AppendsThen(buf, size, offset, Image(c, items[0]), ImageAll(c, items[1..]), first,
                    PutAll(c, first.buf, size, first.offset, items[1..]));
      }
    }
  }

  /** The bytes lie in the buffer from position p on. */
  ghost predicate LiesAt(buf: seq<Byte>, p: nat, bytes: seq<Byte>) {
    p + |bytes| <= |buf| && buf[p..p + |bytes|] == bytes
  }

  lemma LiesAtSplit(buf: seq<Byte>, p: nat, x: seq<Byte>, y: seq<Byte>)
    requires LiesAt(buf, p, x + y)
    ensures LiesAt(buf, p, x) && LiesAt(buf, p + |x|, y)
  {
    var all := buf[p..p + |x + y|];
    assert buf[p..p + |x|] == all[..|x|] == x;
    assert buf[p + |x|..p + |x| + |y|] == all[|x|..] == y;
  }

  /** The body codec gives this item back. */
  predicate Recoverable<M(==)>(c: Codec<M>, item: Item<M>) {
    item.Message? ==> c.parse(c.encode(item.message)) == (true, item.message) && |c.encode(item.message)| < TWO64
  }

  /** An item read where its bytes lie is the item. */
  lemma {:induction false} GetItemOfImage<M>(c: Codec<M>, buf: seq<Byte>, size: nat, p: nat, item: Item<M>, was: M)
    requires Recoverable(c, item) && LiesAt(buf, p, Image(c, item)) && p + |Image(c, item)| <= size <= |buf|
    requires size < TWO64
    ensures GetItem(c, buf, size, p, KindOf(item), was) == Some((item, p + |Image(c, item)|))
  {
    match item
    case Base(bytes) =>
    case Message(m) =>
      var body := c.encode(m);
      PrefixRange();
      FromToBytes(|body|, 8);
      LiesAtSplit(buf, p, ToBytes(|body|, 8), body);
      SmallMod(|body| + (p + 8), TWO64);
  }

  /** Reading the kinds of these items from p returns the items and stops at `end`. */
  ghost predicate ReadsBack<M>(c: Codec<M>, buf: seq<Byte>, size: nat, p: nat, items: seq<Item<M>>, end: nat, was: M) {
    size <= |buf| && GetAll(c, buf, size, p, Kinds(items), was) == Some((items, end))
  }

  lemma {:induction false} ReadsBackStep<M>(c: Codec<M>, buf: seq<Byte>, size: nat, p: nat, items: seq<Item<M>>,
                                            q: nat, end: nat, was: M)
    requires size <= |buf| && items != []
    requires GetItem(c, buf, size, p, KindOf(items[0]), was) == Some((items[0], q))
    requires ReadsBack(c, buf, size, q, items[1..], end, was)
    ensures ReadsBack(c, buf, size, p, items, end, was)
  {
    assert Kinds(items)[1..] == Kinds(items[1..]);
    assert [items[0]] + items[1..] == items;
  }

  lemma {:induction false} FirstImage<M>(c: Codec<M>, buf: seq<Byte>, p: nat, items: seq<Item<M>>)
    requires items != [] && LiesAt(buf, p, ImageAll(c, items))
    ensures LiesAt(buf, p, Image(c, items[0]))
    ensures LiesAt(buf, p + |Image(c, items[0])|, ImageAll(c, items[1..]))
    ensures |ImageAll(c, items)| == |Image(c, items[0])| + |ImageAll(c, items[1..])|
  {
    LiesAtSplit(buf, p, Image(c, items[0]), ImageAll(c, items[1..]));
  }

  lemma {:induction false} GetAllOfImages<M>(c: Codec<M>, buf: seq<Byte>, size: nat, p: nat, items: seq<Item<M>>,
                                             end: nat, was: M)
    requires (forall i | 0 <= i < |items| :: Recoverable(c, items[i])) && LiesAt(buf, p, ImageAll(c, items))
    requires p + |ImageAll(c, items)| == end <= size <= |buf| && size < TWO64
    ensures ReadsBack(c, buf, size, p, items, end, was)
    decreases |items|
  {
    if items == [] {
      assert GetAll(c, buf, size, p, [], was) == Some(([], end));
    } else {
      var q := p + |Image(c, items[0])|;
      FirstImage(c, buf, p, items);
      GetItemOfImage(c, buf, size, p, items[0], was);
      GetAllOfImages(c, buf, size, q, items[1..], end, was);
      ReadsBackStep(c, buf, size, p, items, q, end, was);
    }
  }

  /** If every call succeeds, reading with the same kinds returns the same items and ends at the same offset. */
  lemma {:induction false} RoundTrip<M>(c: Codec<M>, buf: seq<Byte>, size: nat, offset: nat, items: seq<Item<M>>,
                                        was: M)
    requires size <= |buf| && offset <= size < TWO64
    requires forall i | 0 <= i < |items| :: Recoverable(c, items[i])
    requires PutAll(c, buf, size, offset, items).ok
    ensures var r := PutAll(c, buf, size, offset, items);
            && ReadsBack(c, r.buf, size, offset, items, r.offset, was)
            && SameOutside(buf, r.buf, offset, r.offset)
  {
    AppendsAll(c, buf, size, offset, items);
    var r, image := PutAll(c, buf, size, offset, items), ImageAll(c, items);
    assert LiesAt(r.buf, offset, image) by { SplicedIn(buf, offset, image); }
    GetAllOfImages(c, r.buf, size, offset, items, r.offset, was);
  }
}
