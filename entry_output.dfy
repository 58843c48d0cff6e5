/** The entry layout constant the off-heap key writer relies on. */
module Util {
  /**
   * Offset of the key bytes within an entry block, that is, the size of the
   * fixed header in front of them. The value 48 is assumed; no proof depends
   * on it.
   */
  const ENTRY_OFF_DATA: nat := 48
}

/**
 * The off-heap key writer: it serializes a key straight into the key region
 * of a newly allocated entry block, and hashes exactly that region.
 */
module EntryKeyOutputs {
  import opened Java
  import opened Stores
  import opened KeyWrites
  import opened Util

  class HashEntryKeyOutput {
    /** The entry's memory block: header, then key bytes, then value bytes. */
    const block: array<byte>
    /** The length of the key region, fixed at construction. */
    const keyLen: int64
    /** The base writer's region: from `blkOff` (inclusive) to `blkEnd` (exclusive). */
    const blkOff: int
    const blkEnd: int
    /** The base writer's cursor: the block offset of the next byte to write. */
    var blkPos: int

    ghost predicate Valid()
      reads this
    {
      && blkOff == ENTRY_OFF_DATA
      && 0 <= keyLen < 0x8000_0000
      && blkEnd == ENTRY_OFF_DATA + keyLen <= block.Length
      && blkOff <= blkPos <= blkEnd
    }

    /** The entry header in front of the key region. */
    ghost function Header(): seq<byte>
      reads this, block
      requires Valid()
    {
      block[..blkOff]
    }

    /** The key region. */
    ghost function Key(): seq<byte>
      reads this, block
      requires Valid()
    {
      block[blkOff..blkEnd]
    }

    /** Everything after the key region (the value bytes). */
    ghost function Rest(): seq<byte>
      reads this, block
      requires Valid()
    {
      block[blkEnd..]
    }

    /** A writer over the `keyLen` bytes that start at `ENTRY_OFF_DATA` in `block`. */
    constructor (block: array<byte>, keyLen: int64)
      requires 0 <= keyLen < 0x8000_0000 && ENTRY_OFF_DATA + keyLen <= block.Length
      ensures Valid() && this.block == block && this.keyLen == keyLen
      ensures blkOff == ENTRY_OFF_DATA && blkEnd == ENTRY_OFF_DATA + keyLen && blkPos == blkOff
    {
      this.block := block;
      this.keyLen := keyLen;
      blkOff := ENTRY_OFF_DATA;
      blkEnd := ENTRY_OFF_DATA + keyLen;
      blkPos := ENTRY_OFF_DATA;
    }

    /**
     * The hash of exactly the key region: `keyLen` bytes from `ENTRY_OFF_DATA`,
     * whatever the cursor and whatever the header and value bytes hold.
     */
    function Hash(hasher: Hasher): (h: int64)
      reads this, block
      requires Valid()
      ensures h == hasher(Key())
      ensures |Key()| == keyLen
    {
      var n := ToInt32(keyLen);
      assert n == keyLen by { assert keyLen % TWO_32 == keyLen; }
      hasher(block[ENTRY_OFF_DATA..ENTRY_OFF_DATA + n])
    }

    /**
     * The base writer's single-byte write: the low 8 bits of `b` at the
     * cursor, which advances by one; with no room left it fails and writes
     * nothing.
     */
    method Write(b: int32) returns (ok: bool)
      requires Valid()
      modifies this`blkPos, block
      ensures Valid() && Header() == old(Header()) && Rest() == old(Rest())
      ensures ok <==> old(blkPos) + 1 <= blkEnd
      ensures ok ==> blkPos == old(blkPos) + 1 && block[..] == old(block[..])[old(blkPos) := LowByte(b)]
      ensures !ok ==> blkPos == old(blkPos) && block[..] == old(block[..])
    {
      if blkPos + 1 > blkEnd {
        return false;
      }
      block[blkPos] := LowByte(b);
      blkPos := blkPos + 1;
      ok := true;
      assert Header() == old(Header()) && Rest() == old(Rest());
    }

    /**
     * The base writer's range write: `src[off..off + len]` at the cursor,
     * which advances by `len`; with too little room it fails and writes nothing.
     */
    method WriteBytes(src: array<byte>, off: int32, len: int32) returns (ok: bool)
      requires Valid()
      requires 0 <= off && 0 <= len && off + len <= src.Length
      modifies this`blkPos, block
      ensures Valid() && Header() == old(Header()) && Rest() == old(Rest())
      ensures ok <==> old(blkPos) + len <= blkEnd
      ensures ok ==> blkPos == old(blkPos) + len && block[..] == Splice(old(block[..]), old(blkPos), old(src[off..off + len]))
      ensures !ok ==> blkPos == old(blkPos) && block[..] == old(block[..])
    {
      if blkPos + len > blkEnd {
        return false;
      }
      var chunk := src[off..off + len];
      forall i | 0 <= i < len {
        block[blkPos + i] := chunk[i];
      }
      blkPos := blkPos + len;
      ok := true;
      assert Header() == old(Header()) && Rest() == old(Rest());
    }

    /** `writeShort(v)`: `(v >>> 8) & 0xFF`, then `v & 0xFF`, through `Write`. */
    method WriteShort(v: int32) returns (ok: bool)
      requires Valid()
      modifies this`blkPos, block
      ensures Valid() && Header() == old(Header()) && Rest() == old(Rest())
      ensures ok <==> old(blkPos) + 2 <= blkEnd
      ensures ok ==> blkPos == old(blkPos) + 2 && block[..] == Splice(old(block[..]), old(blkPos), Encode(KeyWrite.WriteShort(v)))
    {
      ghost var a, at := block[..], blkPos;
      var b0, b1 := LowByte(Ushr(U32(v), 8)), LowByte(v);
      ok := Write(b0);
      if !ok { return; }
      ok := Write(b1);
      if !ok { return; }
      Store2(a, at, b0, b1);
      assert [b0, b1] == Encode(KeyWrite.WriteShort(v)) by { ShortBytes(v); }
    }

    /** `writeChar(v)`: the same two bytes as `writeShort(v)`. */
    method WriteChar(v: int32) returns (ok: bool)
      requires Valid()
      modifies this`blkPos, block
      ensures Valid() && Header() == old(Header()) && Rest() == old(Rest())
      ensures ok <==> old(blkPos) + 2 <= blkEnd
      ensures ok ==> blkPos == old(blkPos) + 2 && block[..] == Splice(old(block[..]), old(blkPos), Encode(KeyWrite.WriteChar(v)))
    {
      ghost var a, at := block[..], blkPos;
      var b0, b1 := LowByte(Ushr(U32(v), 8)), LowByte(v);
      ok := Write(b0);
      if !ok { return; }
      ok := Write(b1);
      if !ok { return; }
      Store2(a, at, b0, b1);
      assert [b0, b1] == Encode(KeyWrite.WriteChar(v)) by { ShortBytes(v); }
    }

    /** `writeInt(v)`: four bytes, most significant first, through `Write`. */
    method WriteInt(v: int32) returns (ok: bool)
      requires Valid()
      modifies this`blkPos, block
      ensures Valid() && Header() == old(Header()) && Rest() == old(Rest())
      ensures ok <==> old(blkPos) + 4 <= blkEnd
      ensures ok ==> blkPos == old(blkPos) + 4 && block[..] == Splice(old(block[..]), old(blkPos), Encode(KeyWrite.WriteInt(v)))
    {
      ghost var a, at := block[..], blkPos;
      var u := U32(v);
      var b0, b1, b2, b3 := LowByte(Ushr(u, 24)), LowByte(Ushr(u, 16)), LowByte(Ushr(u, 8)), LowByte(v);
      ok := Write(b0);
      if !ok { return; }
      ok := Write(b1);
      if !ok { return; }
      ok := Write(b2);
      if !ok { return; }
      ok := Write(b3);
      if !ok { return; }
      Store4(a, at, b0, b1, b2, b3);
      assert [b0, b1, b2, b3] == Encode(KeyWrite.WriteInt(v)) by { IntBytes(v); }
    }

    /** `writeLong(v)`: eight bytes, most significant first, through `Write`. */
    method WriteLong(v: int64) returns (ok: bool)
      requires Valid()
      modifies this`blkPos, block
      ensures Valid() && Header() == old(Header()) && Rest() == old(Rest())
      ensures ok <==> old(blkPos) + 8 <= blkEnd
      ensures ok ==> blkPos == old(blkPos) + 8 && block[..] == Splice(old(block[..]), old(blkPos), Encode(KeyWrite.WriteLong(v)))
    {
      ghost var a, at := block[..], blkPos;
      var u := U64(v);
      var b0, b1, b2, b3 := LowByte(Ushr(u, 56)), LowByte(Ushr(u, 48)), LowByte(Ushr(u, 40)), LowByte(Ushr(u, 32));
      var b4, b5, b6, b7 := LowByte(Ushr(u, 24)), LowByte(Ushr(u, 16)), LowByte(Ushr(u, 8)), LowByte(v);
      assert [b0, b1, b2, b3, b4, b5, b6, b7] == Encode(KeyWrite.WriteLong(v)) by { LongBytes(v); }
      ok := Write(b0);
      if !ok { return; }
      ok := Write(b1);
      if !ok { return; }
      ok := Write(b2);
      if !ok { return; }
      ok := Write(b3);
      if !ok { return; }
      ok := Write(b4);
      if !ok { return; }
      ok := Write(b5);
      if !ok { return; }
      ok := Write(b6);
      if !ok { return; }
      ok := Write(b7);
      if !ok { return; }
      Store8(a, at, b0, b1, b2, b3, b4, b5, b6, b7);
    }
  }
}
