# OHC key writers in Dafny

This project models the two key writers of the OHC off-heap cache
(`org.caffinitas.ohc.linked`). A caller-supplied key serializer writes a key
through one of them, and the writer turns it into an exact byte sequence that
is then hashed:

- `KeyBuffer` is the on-heap writer, used to look keys up without allocating
  an entry. It holds a fixed-size byte array and a write cursor `p`.
  `finish` caches the hash of the whole array. Two buffers are equal when
  their arrays hold the same bytes, and `hashCode` is the low 32 bits of the
  cached hash.
- `HashEntryKeyOutput` is the off-heap writer, used on `put`. It serializes
  the key straight into the key region of a new entry block: `keyLen` bytes
  starting at `Util.ENTRY_OFF_DATA`. Its hash covers exactly that region.

Both writers emit `short`, `char`, `int` and `long` values most significant
byte first. The model proves that they store the same bytes for the same
calls. That is what lets a lookup key match a stored key byte for byte, with
equal hashes.

Layout of the project:

- `arith.dfy` (module `Arith`): facts about division and remainder that the
  conversions below rest on.
- `java.dfy` (module `Java`): Java's `byte`, `int` and `long` as integer
  subsets. It also holds the conversions the source uses: the bit pattern of
  an `int` or `long` argument (`U32`, `U64`), `& 0xFF` and `(byte)`
  (`LowByte`), `>>>` (`Ushr`), and the `(int)` cast of `hashCode`
  (`ToInt32`). `ToInt64` is not used by the writers. It is the conversion
  that reads eight written bytes back as a `long`.
- `byte_order.dfy` (module `ByteOrder`): the big-endian encoding
  `BigEndian(u, n)` and its decoder `FromBigEndian`, with the round-trip
  lemmas in both directions.
- `stores.dfy` (module `Stores`): `Splice`, which writes a run of bytes over a
  byte sequence. It also shows that consecutive single-byte stores are one
  splice.
- `key_writes.dfy` (module `KeyWrites`): the calls a serializer makes
  (`KeyWrite`), the bytes each call must produce (`Encode`), and the pluggable
  `Hasher`. It also holds the per-type round-trip and injectivity lemmas.
- `key_buffer.dfy` (module `KeyBuffers`): the class `KeyBuffer`.
- `entry_output.dfy` (modules `Util` and `EntryKeyOutputs`): the entry's key
  offset and the class `HashEntryKeyOutput`, with the base writer's cursor
  and bound made explicit.
- `serializer.dfy` (module `Serializers`): a serializer is modelled as the
  sequence of calls it makes. `SerializeToBuffer` and `SerializeToEntry` run
  such a sequence on each writer. `KeyBytesAgree` is the cross-writer
  theorem.

The `Hasher` is a parameter: a function from the key bytes to a 64-bit
value. The model assumes that the hasher's two entry points compute the same
function of the bytes. One entry point takes a whole array (used by
`finish`); the other takes an address, an offset and a length (used by
`HashEntryKeyOutput.hash`).

## Model

| member | source | states |
|---|---|---|
| `Java.LowByte` | ohc-core/src/main/java/org/caffinitas/ohc/linked/KeyBuffer.java:63-66 | `(byte) b`, which is the same as `b & 0xFF`, keeps every value that already fits in a byte |
| `Java.U32` | ohc-core/src/main/java/org/caffinitas/ohc/linked/KeyBuffer.java:86-92 | the bit pattern of an `int` argument: below 2^32, the value itself when non-negative and the value plus 2^32 otherwise |
| `Java.U64` | ohc-core/src/main/java/org/caffinitas/ohc/linked/KeyBuffer.java:94-104 | the bit pattern of a `long` argument: below 2^64, the value itself when non-negative and the value plus 2^64 otherwise |
| `Java.Ushr` | ohc-core/src/main/java/org/caffinitas/ohc/linked/HashEntryKeyOutput.java:52-79 | Java's `>>>` on the bit pattern, as `n` one-bit shifts; the result never exceeds the operand |
| `Java.UshrIsDiv` | ohc-core/src/main/java/org/caffinitas/ohc/linked/KeyBuffer.java:76-102 | Java's `u >>> n` is `u` divided by 2^n |
| `Java.ToInt32` | ohc-core/src/main/java/org/caffinitas/ohc/linked/KeyBuffer.java:126-129 | `(int) x` is the Java `int` that agrees with `x` in its low 32 bits |
| `ByteOrder.BigEndian` | ohc-core/src/main/java/org/caffinitas/ohc/linked/KeyBuffer.java:86-92 | an `n`-byte big-endian encoding is exactly `n` bytes long |
| `ByteOrder.FromBigEndian` | ohc-core/src/main/java/org/caffinitas/ohc/linked/KeyBuffer.java:94-104 | the decoder (most significant byte first) yields a number below 2^(8n) for `n` bytes |
| `ByteOrder.BigEndianAt` | ohc-core/src/main/java/org/caffinitas/ohc/linked/KeyBuffer.java:96-103 | byte `i` of an `n`-byte encoding is `(u >>> 8(n-1-i)) & 0xFF`, the byte the writers emit `i`-th |
| `ByteOrder.FromBigEndianOfBigEndian` | ohc-core/src/main/java/org/caffinitas/ohc/linked/KeyBuffer.java:94-104 | decoding an `n`-byte encoding of `u` gives `u mod 2^(8n)` |
| `ByteOrder.BigEndianOfFromBigEndian` | ohc-core/src/main/java/org/caffinitas/ohc/linked/KeyBuffer.java:86-92 | re-encoding decoded bytes gives the same bytes back |
| `ByteOrder.BigEndianInjective` | ohc-core/src/main/java/org/caffinitas/ohc/linked/KeyBuffer.java:86-92 | two numbers have the same `n`-byte encoding if and only if they agree modulo 2^(8n) |
| `Stores.Splice` | ohc-core/src/main/java/org/caffinitas/ohc/linked/KeyBuffer.java:68-72 | a range write puts its run at the cursor and leaves the bytes before and after it unchanged |
| `Stores.SpliceTwice` | ohc-core/src/main/java/org/caffinitas/ohc/linked/KeyBuffer.java:74-78 | two adjacent writes are one write of the concatenated bytes, so sequential calls compose |
| `KeyWrites.Encode` | ohc-core/src/main/java/org/caffinitas/ohc/linked/KeyBuffer.java:63-104 | each call produces exactly as many bytes as it advances the cursor: 1, `len`, 2, 2, 4 or 8 |
| `KeyWrites.EncodeAllSplit` | ohc-core/src/main/java/org/caffinitas/ohc/linked/HashEntryKeyOutput.java:50-80 | the bytes of a call sequence are the bytes of any prefix followed by the bytes of the rest |
| `KeyWrites.EncodeAllAppend` | ohc-core/src/main/java/org/caffinitas/ohc/linked/HashEntryKeyOutput.java:50-80 | one more call appends exactly that call's bytes |
| `KeyWrites.ShortBytes` | ohc-core/src/main/java/org/caffinitas/ohc/linked/KeyBuffer.java:74-84 | the two bytes of `writeShort`/`writeChar` are `(v >>> 8) & 0xFF` and then `v & 0xFF` |
| `KeyWrites.IntBytes` | ohc-core/src/main/java/org/caffinitas/ohc/linked/KeyBuffer.java:86-92 | the four bytes of `writeInt` are the shifts by 24, 16, 8 and 0, masked with `0xFF` |
| `KeyWrites.LongBytes` | ohc-core/src/main/java/org/caffinitas/ohc/linked/KeyBuffer.java:94-104 | the eight bytes of `writeLong` are the shifts by 56 down to 0, masked with `0xFF` |
| `KeyWrites.ShortRoundTrip` | ohc-core/src/main/java/org/caffinitas/ohc/linked/KeyBuffer.java:74-84 | decoding the bytes of `writeShort(v)` or `writeChar(v)` gives `v mod 2^16` |
| `KeyWrites.IntRoundTrip` | ohc-core/src/main/java/org/caffinitas/ohc/linked/KeyBuffer.java:86-92 | decoding the bytes of `writeInt(v)` gives `v mod 2^32` |
| `KeyWrites.LongRoundTrip` | ohc-core/src/main/java/org/caffinitas/ohc/linked/KeyBuffer.java:94-104 | decoding the bytes of `writeLong(v)` gives `v mod 2^64` |
| `KeyWrites.IntDecodesExactly` | ohc-core/src/main/java/org/caffinitas/ohc/linked/HashEntryKeyOutput.java:62-68 | reading the four bytes back as a Java `int` gives exactly `v` |
| `KeyWrites.LongDecodesExactly` | ohc-core/src/main/java/org/caffinitas/ohc/linked/HashEntryKeyOutput.java:70-80 | reading the eight bytes back as a Java `long` gives exactly `v` |
| `KeyWrites.ShortEncodingInjective` | ohc-core/src/main/java/org/caffinitas/ohc/linked/KeyBuffer.java:74-78 | two `writeShort` arguments give the same bytes if and only if their low 16 bits agree |
| `KeyWrites.IntEncodingInjective` | ohc-core/src/main/java/org/caffinitas/ohc/linked/KeyBuffer.java:86-92 | two `int` values give the same bytes if and only if they are equal |
| `KeyWrites.LongEncodingInjective` | ohc-core/src/main/java/org/caffinitas/ohc/linked/KeyBuffer.java:94-104 | two `long` values give the same bytes if and only if they are equal |
| `KeyBuffers.KeyBuffer.constructor` | ohc-core/src/main/java/org/caffinitas/ohc/linked/KeyBuffer.java:31-34 | a new buffer has a fresh, zero-filled array of the given size, cursor 0 and hash 0 |
| `KeyBuffers.KeyBuffer.Position` | ohc-core/src/main/java/org/caffinitas/ohc/linked/KeyBuffer.java:41-44 | the cursor lies between 0 and the size |
| `KeyBuffers.KeyBuffer.Size` | ohc-core/src/main/java/org/caffinitas/ohc/linked/KeyBuffer.java:46-49 | the size is the array's length; the array is a constant field, so the size never changes |
| `KeyBuffers.KeyBuffer.Finish` | ohc-core/src/main/java/org/caffinitas/ohc/linked/KeyBuffer.java:56-61 | caches the hasher's value over the whole array, whatever the cursor; returns the same buffer and changes no byte |
| `KeyBuffers.KeyBuffer.Write` | ohc-core/src/main/java/org/caffinitas/ohc/linked/KeyBuffer.java:63-66 | stores `b & 0xFF` at the cursor, advances it by 1, leaves every other byte unchanged |
| `KeyBuffers.KeyBuffer.WriteBytes` | ohc-core/src/main/java/org/caffinitas/ohc/linked/KeyBuffer.java:68-72 | copies `src[off..off+len)` to the cursor, advances it by `len`, leaves the rest unchanged |
| `KeyBuffers.KeyBuffer.WriteShort` | ohc-core/src/main/java/org/caffinitas/ohc/linked/KeyBuffer.java:74-78 | stores the 2-byte big-endian encoding of `v` at the cursor and advances it by 2 |
| `KeyBuffers.KeyBuffer.WriteChar` | ohc-core/src/main/java/org/caffinitas/ohc/linked/KeyBuffer.java:80-84 | stores the same 2 bytes as `writeShort` and advances the cursor by 2 |
| `KeyBuffers.KeyBuffer.WriteInt` | ohc-core/src/main/java/org/caffinitas/ohc/linked/KeyBuffer.java:86-92 | stores the 4-byte big-endian encoding of `v` and advances the cursor by 4 |
| `KeyBuffers.KeyBuffer.WriteLong` | ohc-core/src/main/java/org/caffinitas/ohc/linked/KeyBuffer.java:94-104 | stores the 8-byte big-endian encoding of `v` and advances the cursor by 8 |
| `KeyBuffers.KeyBuffer.Equals` | ohc-core/src/main/java/org/caffinitas/ohc/linked/KeyBuffer.java:116-124 | true if and only if the other buffer exists and its array holds the same bytes; cursor and hash play no part |
| `KeyBuffers.KeyBuffer.HashCode` | ohc-core/src/main/java/org/caffinitas/ohc/linked/KeyBuffer.java:126-129 | agrees with the cached hash in its low 32 bits |
| `KeyBuffers.EqualsReflexive` | ohc-core/src/main/java/org/caffinitas/ohc/linked/KeyBuffer.java:118 | every buffer equals itself |
| `KeyBuffers.EqualsSymmetric` | ohc-core/src/main/java/org/caffinitas/ohc/linked/KeyBuffer.java:116-124 | equality is symmetric |
| `KeyBuffers.EqualsTransitive` | ohc-core/src/main/java/org/caffinitas/ohc/linked/KeyBuffer.java:116-124 | equality is transitive |
| `KeyBuffers.EqualsAgreesWithHashCode` | ohc-core/src/main/java/org/caffinitas/ohc/linked/KeyBuffer.java:116-129 | equal buffers finished with the same hasher have equal hash codes |
| `EntryKeyOutputs.HashEntryKeyOutput.constructor` | ohc-core/src/main/java/org/caffinitas/ohc/linked/HashEntryKeyOutput.java:25-31 | the writable region is `[ENTRY_OFF_DATA, ENTRY_OFF_DATA + keyLen)` of the block, `keyLen` is fixed, and the cursor starts at the region's start |
| `EntryKeyOutputs.HashEntryKeyOutput.Hash` | ohc-core/src/main/java/org/caffinitas/ohc/linked/HashEntryKeyOutput.java:33-36 | the hasher applied to exactly the `keyLen` bytes of the key region, so header and value bytes never affect it |
| `EntryKeyOutputs.HashEntryKeyOutput.Write` | ohc-core/src/main/java/org/caffinitas/ohc/linked/HashEntryKeyOutput.java:40-43 | with room left, stores `b & 0xFF` at the cursor and advances it by 1; otherwise fails and writes nothing; header and value bytes are never touched |
| `EntryKeyOutputs.HashEntryKeyOutput.WriteBytes` | ohc-core/src/main/java/org/caffinitas/ohc/linked/HashEntryKeyOutput.java:45-48 | with room left, copies `src[off..off+len)` to the cursor and advances it by `len`; otherwise fails and writes nothing |
| `EntryKeyOutputs.HashEntryKeyOutput.WriteShort` | ohc-core/src/main/java/org/caffinitas/ohc/linked/HashEntryKeyOutput.java:50-54 | two `write` calls; succeeds exactly when 2 bytes fit, then stores the big-endian encoding of `v` and advances the cursor by 2 |
| `EntryKeyOutputs.HashEntryKeyOutput.WriteChar` | ohc-core/src/main/java/org/caffinitas/ohc/linked/HashEntryKeyOutput.java:56-60 | the same two bytes as `writeShort` |
| `EntryKeyOutputs.HashEntryKeyOutput.WriteInt` | ohc-core/src/main/java/org/caffinitas/ohc/linked/HashEntryKeyOutput.java:62-68 | four `write` calls; succeeds exactly when 4 bytes fit, then stores the big-endian encoding of `v` |
| `EntryKeyOutputs.HashEntryKeyOutput.WriteLong` | ohc-core/src/main/java/org/caffinitas/ohc/linked/HashEntryKeyOutput.java:70-80 | eight `write` calls; succeeds exactly when 8 bytes fit, then stores the big-endian encoding of `v` |
| `Serializers.ApplyToBuffer` | ohc-core/src/main/java/org/caffinitas/ohc/linked/KeyBuffer.java:63-104 | any one call stores its `Encode` bytes at the buffer's cursor and advances it by their length |
| `Serializers.ApplyToEntry` | ohc-core/src/main/java/org/caffinitas/ohc/linked/HashEntryKeyOutput.java:40-80 | any one call stores the same `Encode` bytes in the key region, and fails exactly when they do not fit |
| `Serializers.SerializeToBuffer` | ohc-core/src/main/java/org/caffinitas/ohc/linked/KeyBuffer.java:63-104 | a whole call sequence stores the concatenation of its calls' bytes at the cursor |
| `Serializers.SerializeToEntry` | ohc-core/src/main/java/org/caffinitas/ohc/linked/HashEntryKeyOutput.java:29-80 | a call sequence succeeds exactly when its bytes fit in the key region, then stores their concatenation; header and value bytes are kept on every path |
| `Serializers.KeyBytesAgree` | ohc-core/src/main/java/org/caffinitas/ohc/linked/HashEntryKeyOutput.java:33-80 | the same calls give the same bytes in a `KeyBuffer` and in an entry's key region, so the buffer's cached hash equals the entry output's hash; the entry header is preserved |

## Left out

- `writeFloat` and `writeDouble` (KeyBuffer.java:106-114, HashEntryKeyOutput.java:82-90) are not modelled. They only pass `Float.floatToIntBits` or `Double.doubleToLongBits` to `writeInt` or `writeLong`, and floating point is outside the model.
- `array()` and `hash()` (KeyBuffer.java:36-39, 51-54) return the fields `bytes` and `hash`; the model reads those fields directly.
- `Hasher` implementations are not part of this model. A hasher is a function parameter from bytes to a 64-bit value. The array entry point and the address-range entry point are assumed to compute the same function of the bytes.
- `AbstractOffHeapDataOutput` and `AbstractDataOutput` are not part of this model. The base writer is modelled by its region (`blkOff`, `blkEnd`) and its cursor (`blkPos`). Its `write` is assumed to check the room left before storing, and to fail with an `IOException` otherwise, without writing. The model returns `ok == false` in place of the exception.
- `Util.java` is not part of this model. `Util.ENTRY_OFF_DATA` is set to 48, an assumed value. No proof depends on it.
- Raw memory (`Uns`, `sun.misc.Unsafe`) is not modelled. An entry block is a Dafny `array<byte>` of at least `ENTRY_OFF_DATA + keyLen` bytes, and the address `hashEntryAdr` is that array. The tests in UnsTest.java exercise only that layer, including its atomic reference counts.
- Segments, LRU eviction, resizing and table routing are not part of this model.
- `KeyBuffers.KeyBuffer.constructor`: requires `size >= 0`. For a negative size Java's `new byte[size]` throws `NegativeArraySizeException`; that error path is not modelled.
- `KeyBuffers.KeyBuffer.Write`: an overrun is a precondition (`p < size`), not an error path. In Java, `array[p++] = (byte) b` throws `ArrayIndexOutOfBoundsException` after `p++` has already advanced the cursor, so `p` ends at `size + 1`.
- `KeyBuffers.KeyBuffer.WriteBytes`: an overrun is a precondition (`p + len <= size`, and the range lies inside `src`). In Java, `System.arraycopy` throws `IndexOutOfBoundsException` before storing anything and before `p += len`, so the cursor does not move.
- `KeyBuffers.KeyBuffer.WriteShort`: an overrun is a precondition (`p + 2 <= size`). In Java, the bytes that fit are stored, then the failing `write(int)` throws `ArrayIndexOutOfBoundsException` and leaves `p == size + 1`.
- `KeyBuffers.KeyBuffer.WriteChar`: an overrun is a precondition (`p + 2 <= size`), with the same Java behaviour as `WriteShort`.
- `KeyBuffers.KeyBuffer.WriteInt`: an overrun is a precondition (`p + 4 <= size`). In Java, the leading bytes that fit are stored, then `write(int)` throws and leaves `p == size + 1`.
- `KeyBuffers.KeyBuffer.WriteLong`: an overrun is a precondition (`p + 8 <= size`). In Java, the leading bytes that fit are stored, then `write(int)` throws and leaves `p == size + 1`.
- `KeyBuffers.KeyBuffer.Equals`: compares only with another `KeyBuffer` or `null`. The `getClass()` test against objects of other classes is not modelled.
- `EntryKeyOutputs.HashEntryKeyOutput.constructor`: requires `keyLen < 2^31`, so that the `(int) keyLen` cast in `hash` is the identity. The wrap-around for keys of 2 GiB or more is not modelled.
- `EntryKeyOutputs.HashEntryKeyOutput.WriteShort`: when the second byte does not fit, the first byte has already been stored. On that failure the model promises only that the header and value bytes are unchanged, not which key bytes were written or where the cursor is.
- `EntryKeyOutputs.HashEntryKeyOutput.WriteChar`: on a failure after the first byte, the model promises only that the header and value bytes are unchanged, not which key bytes were written or where the cursor is.
- `EntryKeyOutputs.HashEntryKeyOutput.WriteInt`: on a failure after some of the four bytes were stored, the model promises only that the header and value bytes are unchanged, not which key bytes were written or where the cursor is.
- `EntryKeyOutputs.HashEntryKeyOutput.WriteLong`: on a failure after some of the eight bytes were stored, the model promises only that the header and value bytes are unchanged, not which key bytes were written or where the cursor is.
