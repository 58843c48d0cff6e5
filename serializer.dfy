/**
 * A key serializer drives a key writer through a sequence of typed calls.
 * Running the same calls on the on-heap buffer and on the off-heap entry
 * output stores the same bytes, so a key looked up through a buffer matches
 * the key stored in an entry byte for byte, and both hash alike.
 */
module Serializers {
  import opened Java
  import opened Stores
  import opened KeyWrites
  import opened KeyBuffers
  import opened EntryKeyOutputs
  import opened Util

  /** A Java array holding exactly the bytes `s`. */
  method ToArray(s: seq<byte>) returns (a: array<byte>)
    ensures fresh(a) && a[..] == s
  {
    a := new byte[|s|](i requires 0 <= i < |s| => s[i]);
  }

  /** Makes the one call `w` on the on-heap buffer. */
  method ApplyToBuffer(kb: KeyBuffer, w: KeyWrite)
    requires kb.Valid() && WellFormed(w) && kb.p + Width(w) <= kb.bytes.Length
    modifies kb`p, kb.bytes
    ensures kb.Valid() && kb.p == old(kb.p) + Width(w)
    ensures kb.bytes[..] == Splice(old(kb.bytes[..]), old(kb.p), Encode(w))
  {
    match w
    case Write(b) =>
      Store1(kb.bytes[..], kb.p, LowByte(b));
      kb.Write(b);
    case WriteBytes(src, off, len) =>
      var arr := ToArray(src);
      kb.WriteBytes(arr, off, len);
    case WriteShort(v) => kb.WriteShort(v);
    case WriteChar(v) => kb.WriteChar(v);
    case WriteInt(v) => kb.WriteInt(v);
    case WriteLong(v) => kb.WriteLong(v);
  }

  /** Makes the one call `w` on the off-heap entry output; it fails exactly when the key region has too little room left. */
  method ApplyToEntry(out: HashEntryKeyOutput, w: KeyWrite) returns (ok: bool)
    requires out.Valid() && WellFormed(w)
    modifies out`blkPos, out.block
    ensures out.Valid() && out.Header() == old(out.Header()) && out.Rest() == old(out.Rest())
    ensures ok <==> old(out.blkPos) + Width(w) <= out.blkEnd
    ensures ok ==> out.blkPos == old(out.blkPos) + Width(w)
    ensures ok ==> out.block[..] == Splice(old(out.block[..]), old(out.blkPos), Encode(w))
  {
    match w
    case Write(b) =>
      if out.blkPos + 1 <= out.blkEnd {
        Store1(out.block[..], out.blkPos, LowByte(b));
      }
      ok := out.Write(b);
    case WriteBytes(src, off, len) =>
      var arr := ToArray(src);
      ok := out.WriteBytes(arr, off, len);
    case WriteShort(v) => ok := out.WriteShort(v);
    case WriteChar(v) => ok := out.WriteChar(v);
    case WriteInt(v) => ok := out.WriteInt(v);
    case WriteLong(v) => ok := out.WriteLong(v);
  }

  lemma {:induction false} EncodeAllPrefix(ws: seq<KeyWrite>, i: nat)
    requires AllWellFormed(ws) && i < |ws|
    ensures AllWellFormed(ws[..i]) && AllWellFormed(ws[..i + 1]) && WellFormed(ws[i])
    ensures EncodeAll(ws[..i + 1]) == EncodeAll(ws[..i]) + Encode(ws[i])
    ensures |EncodeAll(ws[..i + 1])| <= |EncodeAll(ws)|
  {
    assert ws[..i + 1] == ws[..i] + [ws[i]];
    EncodeAllSplit(ws, i + 1);
    EncodeAllAppend(ws[..i], ws[i]);
  }

  /** Runs the serializer's calls `ws` on the on-heap buffer, in order. */
  method SerializeToBuffer(kb: KeyBuffer, ws: seq<KeyWrite>)
    requires kb.Valid() && AllWellFormed(ws)
    requires kb.p + |EncodeAll(ws)| <= kb.bytes.Length
    modifies kb`p, kb.bytes
    ensures kb.Valid() && kb.p == old(kb.p) + |EncodeAll(ws)|
    ensures kb.bytes[..] == Splice(old(kb.bytes[..]), old(kb.p), EncodeAll(ws))
  {
    ghost var a0, p0 := kb.bytes[..], kb.p;
    var i := 0;
    assert ws[..0] == [];
    while i < |ws|
      invariant 0 <= i <= |ws| && kb.Valid() && AllWellFormed(ws[..i])
      invariant kb.p == p0 + |EncodeAll(ws[..i])| <= kb.bytes.Length
      invariant kb.bytes[..] == Splice(a0, p0, EncodeAll(ws[..i]))
    {
      EncodeAllPrefix(ws, i);
      ApplyToBuffer(kb, ws[i]);
      SpliceTwice(a0, p0, EncodeAll(ws[..i]), Encode(ws[i]));
      i := i + 1;
    }
    assert ws[..i] == ws;
  }

  /**
   * Runs the serializer's calls `ws` on the off-heap entry output, stopping
   * at the first call that overruns the key region. It succeeds exactly when
   * all the bytes fit; the header and the value bytes are never touched.
   */
  method SerializeToEntry(out: HashEntryKeyOutput, ws: seq<KeyWrite>) returns (ok: bool)
    requires out.Valid() && AllWellFormed(ws)
    modifies out`blkPos, out.block
    ensures out.Valid() && out.Header() == old(out.Header()) && out.Rest() == old(out.Rest())
    ensures ok <==> old(out.blkPos) + |EncodeAll(ws)| <= out.blkEnd
    ensures ok ==> out.blkPos == old(out.blkPos) + |EncodeAll(ws)|
    ensures ok ==> out.block[..] == Splice(old(out.block[..]), old(out.blkPos), EncodeAll(ws))
  {
    ghost var a0, p0 := out.block[..], out.blkPos;
    ghost var h0, r0 := out.Header(), out.Rest();
    var i := 0;
    assert ws[..0] == [];
    ok := true;
    while i < |ws|
      invariant 0 <= i <= |ws| && out.Valid() && AllWellFormed(ws[..i])
      invariant out.Header() == h0 && out.Rest() == r0
      invariant out.blkPos == p0 + |EncodeAll(ws[..i])|
      invariant out.block[..] == Splice(a0, p0, EncodeAll(ws[..i]))
    {
      EncodeAllPrefix(ws, i);
      ok := ApplyToEntry(out, ws[i]);
      if !ok {
        return;
      }
      SpliceTwice(a0, p0, EncodeAll(ws[..i]), Encode(ws[i]));
      i := i + 1;
    }
    assert ws[..i] == ws;
  }

  /**
   * The lookup key and the stored key agree: serializing one key through a
   * buffer of exactly its size and into a fresh entry block of any layout
   * stores the same bytes in the buffer's array and in the entry's key region,
   * so the two are equal keys with equal hashes, and the entry header is kept.
   */
  method KeyBytesAgree(ws: seq<KeyWrite>, block: array<byte>, hasher: Hasher)
    returns (kb: KeyBuffer, out: HashEntryKeyOutput, stored: bool)
    requires AllWellFormed(ws)
    requires |EncodeAll(ws)| < 0x8000_0000 && ENTRY_OFF_DATA + |EncodeAll(ws)| <= block.Length
    modifies block
    ensures stored && kb.Valid() && out.Valid() && out.block == block
    ensures kb.bytes[..] == EncodeAll(ws) == out.Key()
    ensures kb.hash == out.Hash(hasher)
    ensures block[..ENTRY_OFF_DATA] == old(block[..ENTRY_OFF_DATA])
  {
    var key := EncodeAll(ws);
    var n := |key|;
    kb := new KeyBuffer(n);
    SerializeToBuffer(kb, ws);
    kb := kb.Finish(hasher);
    out := new HashEntryKeyOutput(block, n);
    stored := SerializeToEntry(out, ws);
    assert out.Key() == out.block[..][ENTRY_OFF_DATA..ENTRY_OFF_DATA + n];
  }
}
