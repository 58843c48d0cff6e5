/**
 * The calls a key serializer makes on a key writer, and the exact bytes each
 * call must produce. Both key writers (the on-heap buffer and the off-heap
 * entry output) are specified against this one definition.
 */
module KeyWrites {
  import opened Java
  import opened ByteOrder
  import opened Arith

  /** A pluggable hash function over the serialized key bytes. */
  type Hasher = seq<byte> -> int64

  /** One call on a key writer, with the Java argument it receives. */
  datatype KeyWrite =
    | Write(b: int32)
    | WriteBytes(src: seq<byte>, off: int32, len: int32)
    | WriteShort(v: int32)
    | WriteChar(v: int32)
    | WriteInt(v: int32)
    | WriteLong(l: int64)

  /** A byte-range write names a range inside its source array. */
  predicate WellFormed(w: KeyWrite)
  {
    w.WriteBytes? ==> 0 <= w.off && 0 <= w.len && w.off + w.len <= |w.src|
  }

  predicate AllWellFormed(ws: seq<KeyWrite>)
  {
    forall i :: 0 <= i < |ws| ==> WellFormed(ws[i])
  }

  /** How far one call advances the write cursor. */
  function Width(w: KeyWrite): (n: nat)
    requires WellFormed(w)
  {
    match w
    case Write(_) => 1
    case WriteBytes(_, _, len) => len
    case WriteShort(_) => 2
    case WriteChar(_) => 2
    case WriteInt(_) => 4
    case WriteLong(_) => 8
  }

  /** The bytes one call stores at the cursor. */
  function Encode(w: KeyWrite): (r: seq<byte>)
    requires WellFormed(w)
    ensures |r| == Width(w)
  {
    match w
    case Write(b) => [LowByte(b)]
    case WriteBytes(src, off, len) => src[off..off + len]
    case WriteShort(v) => BigEndian(U32(v), 2)
    case WriteChar(v) => BigEndian(U32(v), 2)
    case WriteInt(v) => BigEndian(U32(v), 4)
    case WriteLong(v) => BigEndian(U64(v), 8)
  }

  /** The bytes a sequence of calls stores, in order. */
  function EncodeAll(ws: seq<KeyWrite>): (r: seq<byte>)
    requires AllWellFormed(ws)
  {
    if ws == [] then [] else Encode(ws[0]) + EncodeAll(ws[1..])
  }

  lemma {:induction false} EncodeAllSplit(ws: seq<KeyWrite>, i: nat)
    requires AllWellFormed(ws) && i <= |ws|
    ensures AllWellFormed(ws[..i]) && AllWellFormed(ws[i..])
    ensures EncodeAll(ws) == EncodeAll(ws[..i]) + EncodeAll(ws[i..])
  {
    if i > 0 {
      EncodeAllSplit(ws[1..], i - 1);
      assert ws[1..][..i - 1] == ws[..i][1..];
      assert ws[1..][i - 1..] == ws[i..];
    } else {
      assert ws[..0] == [];
      assert ws[0..] == ws;
    }
  }

  /** Appending one call appends exactly that call's bytes. */
  lemma EncodeAllAppend(ws: seq<KeyWrite>, w: KeyWrite)
    requires AllWellFormed(ws) && WellFormed(w)
    ensures AllWellFormed(ws + [w])
    ensures EncodeAll(ws + [w]) == EncodeAll(ws) + Encode(w)
  {
    var all := ws + [w];
    assert AllWellFormed(all) by {
      forall i | 0 <= i < |all| ensures WellFormed(all[i]) {
        if i < |ws| { assert all[i] == ws[i]; }
      }
    }
    EncodeAllSplit(all, |ws|);
    assert all[..|ws|] == ws;
    assert all[|ws|..] == [w];
    assert EncodeAll([w]) == Encode(w) + EncodeAll([]);
  }

  /** `v & 0xFF` is the low byte of v's unsigned image. */
  lemma LastByte32(v: int32)
    ensures LowByte(Ushr(U32(v), 0)) == LowByte(v)
  {
    assert Ushr(U32(v), 0) == U32(v);
    ModOfMod(v, TWO_32, 0x100);
  }

  lemma LastByte64(v: int64)
    ensures LowByte(Ushr(U64(v), 0)) == LowByte(v)
  {
    assert Ushr(U64(v), 0) == U64(v);
    ModOfMod(v, TWO_64, 0x100);
  }

  /** The two bytes of `writeShort(v)`: `(v >>> 8) & 0xFF`, then `v & 0xFF`. */
  lemma ShortBytes(v: int32)
    ensures BigEndian(U32(v), 2) == [LowByte(Ushr(U32(v), 8)), LowByte(v)]
  {
    var u, s := U32(v), BigEndian(U32(v), 2);
    BigEndianAt(u, 2, 0);
    BigEndianAt(u, 2, 1);
    LastByte32(v);
    assert s == [s[0], s[1]];
  }

  /** The four bytes of `writeInt(v)`, shifts 24, 16, 8 and none. */
  lemma IntBytes(v: int32)
    ensures BigEndian(U32(v), 4) ==
      [LowByte(Ushr(U32(v), 24)), LowByte(Ushr(U32(v), 16)), LowByte(Ushr(U32(v), 8)), LowByte(v)]
  {
    var u, s := U32(v), BigEndian(U32(v), 4);
    BigEndianAt(u, 4, 0);
    BigEndianAt(u, 4, 1);
    BigEndianAt(u, 4, 2);
    BigEndianAt(u, 4, 3);
    LastByte32(v);
    assert s == [s[0], s[1], s[2], s[3]];
  }

  /** The eight bytes of `writeLong(v)`, shifts 56, 48, ..., 8 and none. */
  lemma LongBytes(v: int64)
    ensures BigEndian(U64(v), 8) ==
      [LowByte(Ushr(U64(v), 56)), LowByte(Ushr(U64(v), 48)), LowByte(Ushr(U64(v), 40)),
       LowByte(Ushr(U64(v), 32)), LowByte(Ushr(U64(v), 24)), LowByte(Ushr(U64(v), 16)),
       LowByte(Ushr(U64(v), 8)), LowByte(v)]
  {
    var u, s := U64(v), BigEndian(U64(v), 8);
    assert s[0] == LowByte(Ushr(u, 56)) by { BigEndianAt(u, 8, 0); }
    assert s[1] == LowByte(Ushr(u, 48)) by { BigEndianAt(u, 8, 1); }
    assert s[2] == LowByte(Ushr(u, 40)) by { BigEndianAt(u, 8, 2); }
    assert s[3] == LowByte(Ushr(u, 32)) by { BigEndianAt(u, 8, 3); }
    assert s[4] == LowByte(Ushr(u, 24)) by { BigEndianAt(u, 8, 4); }
    assert s[5] == LowByte(Ushr(u, 16)) by { BigEndianAt(u, 8, 5); }
    assert s[6] == LowByte(Ushr(u, 8)) by { BigEndianAt(u, 8, 6); }
    assert s[7] == LowByte(v) by { BigEndianAt(u, 8, 7); LastByte64(v); }
    assert s == [s[0], s[1], s[2], s[3], s[4], s[5], s[6], s[7]];
  }

  /** Decoding the bytes of `writeShort(v)` or `writeChar(v)` gives v mod 2^16. */
  lemma ShortRoundTrip(v: int32)
    ensures FromBigEndian(Encode(WriteShort(v))) == v % 0x1_0000
    ensures FromBigEndian(Encode(WriteChar(v))) == v % 0x1_0000
  {
    FromBigEndianOfBigEndian(U32(v), 2);
    Pow2Table();
    ModOfMod(v, TWO_32, 0x1_0000);
  }

  /** Decoding the bytes of `writeInt(v)` gives v mod 2^32. */
  lemma IntRoundTrip(v: int32)
    ensures FromBigEndian(Encode(WriteInt(v))) == v % TWO_32
  {
    var u := U32(v);
    calc {
      FromBigEndian(Encode(WriteInt(v)));
      FromBigEndian(BigEndian(u, 4));
      { FromBigEndianOfBigEndian(u, 4); }
      u % Pow2(32);
      { Pow2Table(); }
      u % TWO_32;
      u;
    }
  }

  /** Decoding the bytes of `writeLong(v)` gives v mod 2^64. */
  lemma LongRoundTrip(v: int64)
    ensures FromBigEndian(Encode(WriteLong(v))) == v % TWO_64
  {
    var u := U64(v);
    calc {
      FromBigEndian(Encode(WriteLong(v)));
      FromBigEndian(BigEndian(u, 8));
      { FromBigEndianOfBigEndian(u, 8); }
      u % Pow2(64);
      { Pow2Table(); }
      u % TWO_64;
      u;
    }
  }

  /** Reducing modulo `a` and then modulo a divisor `b` of `a` is reducing modulo `b`. */
  lemma ModOfMod(v: int, a: nat, b: nat)
    requires b > 0 && a % b == 0 && a > 0
    ensures v % a % b == v % b
  {
    var k := a / b;
    assert a == b * k;
    var q := v / a;
    assert v == a * q + v % a;
    assert v == b * (k * q) + v % a by {
      assert a * q == b * k * q;
    }
    var r := v % a % b;
    assert v % a == b * (v % a / b) + r;
    assert v == b * (k * q + v % a / b) + r;
    DivModUnique(v, b, k * q + v % a / b, r);
  }

  /** Two `int` values give the same four bytes exactly when they are equal. */
  lemma IntEncodingInjective(v: int32, w: int32)
    ensures Encode(WriteInt(v)) == Encode(WriteInt(w)) <==> v == w
  {
    IntRoundTrip(v);
    IntRoundTrip(w);
    assert U32(v) == v % TWO_32 && U32(w) == w % TWO_32;
  }

  /** Two `long` values give the same eight bytes exactly when they are equal. */
  lemma LongEncodingInjective(v: int64, w: int64)
    ensures Encode(WriteLong(v)) == Encode(WriteLong(w)) <==> v == w
  {
    LongRoundTrip(v);
    LongRoundTrip(w);
    assert U64(v) == v % TWO_64 && U64(w) == w % TWO_64;
  }

  /** Two `writeShort` arguments give the same two bytes exactly when they agree in their low 16 bits. */
  lemma ShortEncodingInjective(v: int32, w: int32)
    ensures Encode(WriteShort(v)) == Encode(WriteShort(w)) <==> v % 0x1_0000 == w % 0x1_0000
  {
    ShortRoundTrip(v);
    ShortRoundTrip(w);
    var u, u' := U32(v), U32(w);
    if v % 0x1_0000 == w % 0x1_0000 {
      BigEndianInjective(u, u', 2);
      Pow2Table();
      ModOfMod(v, TWO_32, 0x1_0000);
      ModOfMod(w, TWO_32, 0x1_0000);
    }
  }

  /** Reading the four bytes of `writeInt(v)` back as a Java `int` gives exactly v. */
  lemma IntDecodesExactly(v: int32)
    ensures ToInt32(FromBigEndian(Encode(WriteInt(v)))) == v
  {
    var x := FromBigEndian(Encode(WriteInt(v)));
    IntRoundTrip(v);
    assert U32(v) == v % TWO_32;
    DivModUnique(x, TWO_32, 0, x);
  }

  /** Reading the eight bytes of `writeLong(v)` back as a Java `long` gives exactly v. */
  lemma LongDecodesExactly(v: int64)
    ensures ToInt64(FromBigEndian(Encode(WriteLong(v)))) == v
  {
    var x := FromBigEndian(Encode(WriteLong(v)));
    LongRoundTrip(v);
    assert U64(v) == v % TWO_64;
    DivModUnique(x, TWO_64, 0, x);
  }
}
