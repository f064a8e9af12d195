/** Packed key lengths: one byte below 255, otherwise an escape byte and two more. */
module KeyLength {
  import opened Arithmetic
  import opened Wrappers

  /** What `size_to_store_key_length` says. */
  function PackedSize(length: nat): nat {
    if length < 255 then 1 else 3
  }

  /** The bytes that `store_key_length_inc` writes; the two-byte form keeps the low 16 bits. */
  function Packed(length: nat): (r: seq<Byte>)
    ensures |r| == PackedSize(length)
  {
    if length < 255 then [length] else [255, length / 256 % 256, length % 256]
  }

  /** The big-endian two-byte load. */
  function TwoByteValue(hi: nat, lo: nat): nat {
    256 * hi + lo
  }

  /** The length read at position p and the position after it, if the bytes are there. */
  function Unpack(buf: seq<Byte>, p: nat): Option<(nat, nat)> {
    if p >= |buf| then None
    else if buf[p] != 255 then Some((buf[p], p + 1))
    else if p + 3 <= |buf| then Some((TwoByteValue(buf[p + 1], buf[p + 2]), p + 3))
    else None
  }

  method StoreKeyLengthInc(buf: array<Byte>, key: nat, length: nat) returns (next: nat)
    requires key + PackedSize(length) <= buf.Length
    modifies buf
    ensures next == key + PackedSize(length)
    ensures buf[..] == old(buf[..key]) + Packed(length) + old(buf[next..])
    ensures length < 255 ==> next == key + 1 && buf[key] == length
    ensures length >= 255 ==>
              next == key + 3 && buf[key] == 255 && 256 * buf[key + 1] as nat + buf[key + 2] as nat == length % 65536
  {
    TwoBytes(length);
    next := key;
    if length < 255 {
      buf[next] := length;
      next := next + 1;
    } else {
      buf[next] := 255;
      buf[next + 2] := length % 256;
      buf[next + 1] := length / 256 % 256;
      next := next + 3;
    }
  }

  method GetKeyPackLength(buf: array<Byte>, key: nat) returns (length: nat, pack: nat, next: nat)
    requires Unpack(buf[..], key).Some?
    ensures Unpack(buf[..], key) == Some((length, next))
    ensures next == key + pack && pack == PackedSize(if buf[key] == 255 then 255 else length)
    ensures buf[key] != 255 ==> length == buf[key] && pack == 1
    ensures buf[key] == 255 ==> length == 256 * buf[key + 1] as nat + buf[key + 2] as nat && pack == 3
  {
    next := key;
    if buf[key] != 255 {
      length := buf[next];
      next := next + 1;
      pack := 1;
    } else {
      length := TwoByteValue(buf[next + 1], buf[next + 2]);
      next := next + 3;
      pack := 3;
    }
  }

  /** The bytes themselves: a short length, or the escape byte and the low 16 bits with the high byte first. */
  lemma PackedBytes(length: nat)
    ensures length < 255 ==> Packed(length) == [length]
    ensures length >= 255 ==>
              |Packed(length)| == 3 && Packed(length)[0] == 255
              && 256 * Packed(length)[1] as nat + Packed(length)[2] as nat == length % 65536
  {
    TwoBytes(length);
  }

  /** One length survives, wherever it is stored, exactly when it fits in 16 bits. */
  lemma UnpackPacked(pre: seq<Byte>, length: nat, post: seq<Byte>)
    ensures Unpack(pre + Packed(length) + post, |pre|)
         == Some((if length < 255 then length else length % 65536, |pre| + PackedSize(length)))
  {
    var all := pre + Packed(length) + post;
    var p := |pre|;
    assert all[p] == Packed(length)[0];
    if length >= 255 {
      assert all[p + 1] == Packed(length)[1] && all[p + 2] == Packed(length)[2];
      TwoBytes(length);
    }
  }

  lemma TwoBytes(n: nat)
    ensures 256 * (n / 256 % 256) + n % 256 == n % 65536
  {
  }

  function PackedAll(lengths: seq<nat>): seq<Byte> {
    if lengths == [] then [] else Packed(lengths[0]) + PackedAll(lengths[1..])
  }

  /** Reads `count` lengths from position p on. */
  function UnpackAll(buf: seq<Byte>, p: nat, count: nat): Option<(seq<nat>, nat)>
    decreases count
  {
    if count == 0 then Some(([], p))
    else
      match Unpack(buf, p)
      case None => None
      case Some((length, q)) =>
        match UnpackAll(buf, q, count - 1)
        case None => None
        case Some((rest, e)) => Some(([length] + rest, e))
  }

  /** Any list of 16-bit lengths stored back to back reads back as the same list. */
  lemma {:induction false} RoundTrip(pre: seq<Byte>, lengths: seq<nat>, post: seq<Byte>)
    requires forall i | 0 <= i < |lengths| :: lengths[i] < 65536
    ensures UnpackAll(pre + PackedAll(lengths) + post, |pre|, |lengths|)
         == Some((lengths, |pre| + |PackedAll(lengths)|))
    decreases |lengths|
  {
    var all := pre + PackedAll(lengths) + post;
    if lengths != [] {
      var head, tail := Packed(lengths[0]), lengths[1..];
      assert all == pre + head + (PackedAll(tail) + post);
      assert all == (pre + head) + PackedAll(tail) + post;
      UnpackPacked(pre, lengths[0], PackedAll(tail) + post);
      assert lengths[0] % 65536 == lengths[0] by { SmallMod(lengths[0], 65536); }
      RoundTrip(pre + head, tail, post);
      assert [lengths[0]] + tail == lengths;
    }
  }

  /** A longer length does not survive. */
  lemma TooLong(pre: seq<Byte>, length: nat, post: seq<Byte>)
    requires length >= 65536
    ensures Unpack(pre + Packed(length) + post, |pre|).Some?
    ensures Unpack(pre + Packed(length) + post, |pre|).value.0 != length
  {
    UnpackPacked(pre, length, post);
    DivMod(length, 65536);
  }
}
