/**
 * The on-heap key writer: a fixed-size byte array filled through a write
 * cursor, then hashed as a whole. It is used to look keys up without
 * allocating an off-heap entry.
 */
module KeyBuffers {
  import opened Java
  import opened ByteOrder
  import opened Stores
  import opened KeyWrites

  class KeyBuffer {
    /** The key bytes; the array keeps the size given at construction. */
    const bytes: array<byte>
    /** The write cursor: the index of the next byte to write. */
    var p: int
    /** The hash cached by `Finish`. */
    var hash: int64

    ghost predicate Valid()
      reads this
    {
      0 <= p <= bytes.Length
    }

    /** The bytes written so far. */
    ghost function Written(): seq<byte>
      reads this, bytes
      requires Valid()
    {
      bytes[..p]
    }

    /** A zero-filled buffer of `size` bytes with the cursor at 0. */
    constructor (size: int32)
      requires size >= 0
      ensures Valid() && fresh(bytes)
      ensures bytes.Length == size && p == 0 && hash == 0
      ensures forall i :: 0 <= i < size ==> bytes[i] == 0
    {
      bytes := new byte[size](_ => 0);
      p := 0;
      hash := 0;
    }

    /** The cursor is the number of bytes written, never more than the size. */
    function Position(): (r: int)
      reads this
      requires Valid()
      ensures 0 <= r <= Size()
    {
      p
    }

    /** The size of the array, the same for the buffer's whole life. */
    function Size(): (n: int)
      ensures n >= 0
    {
      bytes.Length
    }

    /** Caches the hash of the whole array, written or not, and returns this buffer. */
    method Finish(hasher: Hasher) returns (r: KeyBuffer)
      requires Valid()
      modifies this`hash
      ensures r == this && Valid()
      ensures hash == hasher(bytes[..])
      ensures p == bytes.Length ==> hash == hasher(Written())
    {
      hash := hasher(bytes[..]);
      r := this;
      assert p == bytes.Length ==> Written() == bytes[..];
    }

    /** Stores the low 8 bits of `b` at the cursor and advances it by one. */
    method Write(b: int32)
      requires Valid() && p < bytes.Length
      modifies this`p, bytes
      ensures Valid() && p == old(p) + 1
      ensures bytes[..] == old(bytes[..])[old(p) := LowByte(b)]
    {
      bytes[p] := LowByte(b);
      p := p + 1;
    }

    /** Copies `src[off..off + len]` to the cursor and advances it by `len`. */
    method WriteBytes(src: array<byte>, off: int32, len: int32)
      requires Valid()
      requires 0 <= off && 0 <= len && off + len <= src.Length
      requires p + len <= bytes.Length
      modifies this`p, bytes
      ensures Valid() && p == old(p) + len
      ensures bytes[..] == Splice(old(bytes[..]), old(p), old(src[off..off + len]))
    {
      var chunk := src[off..off + len];
      forall i | 0 <= i < len {
        bytes[p + i] := chunk[i];
      }
      p := p + len;
    }

    /** `writeShort(v)`: `(v >>> 8) & 0xFF`, then `v & 0xFF`. */
    method WriteShort(v: int32)
      requires Valid() && p + 2 <= bytes.Length
      modifies this`p, bytes
      ensures Valid() && p == old(p) + 2
      ensures bytes[..] == Splice(old(bytes[..]), old(p), Encode(KeyWrite.WriteShort(v)))
    {
      ghost var a, at := bytes[..], p;
      var b0, b1 := LowByte(Ushr(U32(v), 8)), LowByte(v);
      Write(b0);
      Write(b1);
      Store2(a, at, b0, b1);
      assert [b0, b1] == Encode(KeyWrite.WriteShort(v)) by { ShortBytes(v); }
    }

    /** `writeChar(v)`: the same two bytes as `writeShort(v)`. */
    method WriteChar(v: int32)
      requires Valid() && p + 2 <= bytes.Length
      modifies this`p, bytes
      ensures Valid() && p == old(p) + 2
      ensures bytes[..] == Splice(old(bytes[..]), old(p), Encode(KeyWrite.WriteChar(v)))
    {
      ghost var a, at := bytes[..], p;
      var b0, b1 := LowByte(Ushr(U32(v), 8)), LowByte(v);
      Write(b0);
      Write(b1);
      Store2(a, at, b0, b1);
      assert [b0, b1] == Encode(KeyWrite.WriteChar(v)) by { ShortBytes(v); }
    }

    /** `writeInt(v)`: four bytes, most significant first. */
    method WriteInt(v: int32)
      requires Valid() && p + 4 <= bytes.Length
      modifies this`p, bytes
      ensures Valid() && p == old(p) + 4
      ensures bytes[..] == Splice(old(bytes[..]), old(p), Encode(KeyWrite.WriteInt(v)))
    {
      ghost var a, at := bytes[..], p;
      var u := U32(v);
      var b0, b1, b2, b3 := LowByte(Ushr(u, 24)), LowByte(Ushr(u, 16)), LowByte(Ushr(u, 8)), LowByte(v);
      Write(b0);
      Write(b1);
      Write(b2);
      Write(b3);
      Store4(a, at, b0, b1, b2, b3);
      assert [b0, b1, b2, b3] == Encode(KeyWrite.WriteInt(v)) by { IntBytes(v); }
    }

    /** `writeLong(v)`: eight bytes, most significant first. */
    method WriteLong(v: int64)
      requires Valid() && p + 8 <= bytes.Length
      modifies this`p, bytes
      ensures Valid() && p == old(p) + 8
      ensures bytes[..] == Splice(old(bytes[..]), old(p), Encode(KeyWrite.WriteLong(v)))
    {
      ghost var a, at := bytes[..], p;
      var u := U64(v);
      var b0, b1, b2, b3 := LowByte(Ushr(u, 56)), LowByte(Ushr(u, 48)), LowByte(Ushr(u, 40)), LowByte(Ushr(u, 32));
      var b4, b5, b6, b7 := LowByte(Ushr(u, 24)), LowByte(Ushr(u, 16)), LowByte(Ushr(u, 8)), LowByte(v);
      assert [b0, b1, b2, b3, b4, b5, b6, b7] == Encode(KeyWrite.WriteLong(v)) by { LongBytes(v); }
      Write(b0);
      Write(b1);
      Write(b2);
      Write(b3);
      Write(b4);
      Write(b5);
      Write(b6);
      Write(b7);
      Store8(a, at, b0, b1, b2, b3, b4, b5, b6, b7);
    }

    /** Two buffers are equal exactly when their arrays hold the same bytes; cursor and hash do not matter. */
    function Equals(o: KeyBuffer?): (r: bool)
      reads bytes, if o == null then {} else {o.bytes}
      ensures r <==> o != null && bytes[..] == o.bytes[..]
    {
      if this == o then true
      else if o == null then false
      else bytes[..] == o.bytes[..]
    }

    /** The low 32 bits of the cached hash, as Java's `(int) hash`. */
    function HashCode(): (r: int32)
      reads this
      ensures r % TWO_32 == hash % TWO_32
    {
      ToInt32(hash)
    }
  }

  lemma EqualsReflexive(a: KeyBuffer)
    ensures a.Equals(a)
  {
  }

  lemma EqualsSymmetric(a: KeyBuffer, b: KeyBuffer?)
    ensures a.Equals(b) <==> b != null && b.Equals(a)
  {
  }

  lemma EqualsTransitive(a: KeyBuffer, b: KeyBuffer, c: KeyBuffer?)
    requires a.Equals(b) && b.Equals(c)
    ensures a.Equals(c)
  {
  }

  /** Equal buffers finished with the same hasher have equal hash codes. */
  lemma EqualsAgreesWithHashCode(a: KeyBuffer, b: KeyBuffer, hasher: Hasher)
    requires a.hash == hasher(a.bytes[..]) && b.hash == hasher(b.bytes[..])
    requires a.Equals(b)
    ensures a.HashCode() == b.HashCode()
  {
  }
}
