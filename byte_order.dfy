/**
 * Big-endian (most significant byte first) encoding of unsigned numbers into
 * a fixed number of bytes, and the decoder that reads such bytes back.
 */
module ByteOrder {
  import opened Java
  import opened Arith

  /** The low `n` bytes of `u`, most significant first. */
  function BigEndian(u: nat, n: nat): (r: seq<byte>)
    ensures |r| == n
  {
    if n == 0 then [] else BigEndian(u / 0x100, n - 1) + [LowByte(u)]
  }

  /** The unsigned number that the bytes `s` denote, most significant first. */
  function FromBigEndian(s: seq<byte>): (r: nat)
    ensures r < Pow2(8 * |s|)
  {
    if s == [] then 0
    else
      Pow2Add8(8 * (|s| - 1));
      FromBigEndian(s[..|s| - 1]) * 0x100 + s[|s| - 1]
  }

  lemma {:induction false} Pow2Add8(n: nat)
    ensures Pow2(n + 8) == 0x100 * Pow2(n)
  {
    if n == 0 {
      assert Pow2(8) == 0x100;
    } else {
      Pow2Add8(n - 1);
      assert Pow2(n + 8) == 2 * Pow2(n - 1 + 8);
    }
  }

  /** The powers of two that Java's byte shifts use. */
  lemma Pow2Table()
    ensures Pow2(8) == 0x100 && Pow2(16) == 0x1_0000 && Pow2(24) == 0x100_0000
    ensures Pow2(32) == 0x1_0000_0000 && Pow2(40) == 0x100_0000_0000
    ensures Pow2(48) == 0x1_0000_0000_0000 && Pow2(56) == 0x100_0000_0000_0000
    ensures Pow2(64) == 0x1_0000_0000_0000_0000
  {
    Pow2Add8(0);
    Pow2Add8(8);
    Pow2Add8(16);
    Pow2Add8(24);
    Pow2Add8(32);
    Pow2Add8(40);
    Pow2Add8(48);
    Pow2Add8(56);
  }

  /** Byte `i` of the encoding is Java's `(u >>> shift) & 0xFF` for the matching shift. */
  lemma {:induction false} BigEndianAt(u: nat, n: nat, i: nat)
    requires i < n
    ensures BigEndian(u, n)[i] == LowByte(Ushr(u, 8 * (n - 1 - i)))
  {
    BigEndianAtDiv(u, n, i);
    UshrIsDiv(u, 8 * (n - 1 - i));
  }

  lemma {:induction false} BigEndianAtDiv(u: nat, n: nat, i: nat)
    requires i < n
    ensures BigEndian(u, n)[i] == LowByte(u / Pow2(8 * (n - 1 - i)))
  {
    if i < n - 1 {
      var k := 8 * (n - 2 - i);
      BigEndianAtDiv(u / 0x100, n - 1, i);
      DivDiv(u, 0x100, Pow2(k));
      Pow2Add8(k);
      assert k + 8 == 8 * (n - 1 - i);
    }
  }

  /** Decoding an encoding gives the number back, modulo the range of `n` bytes. */
  lemma {:induction false} FromBigEndianOfBigEndian(u: nat, n: nat)
    ensures FromBigEndian(BigEndian(u, n)) == u % Pow2(8 * n)
  {
    if n > 0 {
      var s, t := BigEndian(u, n), BigEndian(u / 0x100, n - 1);
      var p := Pow2(8 * (n - 1));
      assert s == t + [LowByte(u)];
      assert s[..n - 1] == t;
      calc {
        FromBigEndian(s);
        FromBigEndian(t) * 0x100 + LowByte(u);
        { FromBigEndianOfBigEndian(u / 0x100, n - 1); }
        u / 0x100 % p * 0x100 + u % 0x100;
        { DivDiv(u, 0x100, p); }
        u % (0x100 * p);
        { Pow2Add8(8 * (n - 1)); assert 8 * (n - 1) + 8 == 8 * n; }
        u % Pow2(8 * n);
      }
    }
  }

  /** Encoding a decoded byte sequence gives the bytes back. */
  lemma {:induction false} BigEndianOfFromBigEndian(s: seq<byte>)
    ensures BigEndian(FromBigEndian(s), |s|) == s
  {
    if s != [] {
      var n := |s|;
      var x := FromBigEndian(s);
      assert x / 0x100 == FromBigEndian(s[..n - 1]);
      BigEndianOfFromBigEndian(s[..n - 1]);
      assert s == s[..n - 1] + [s[n - 1]];
    }
  }

  /** Two numbers have the same `n`-byte encoding exactly when they agree modulo 2^(8n). */
  lemma BigEndianInjective(u: nat, w: nat, n: nat)
    ensures BigEndian(u, n) == BigEndian(w, n) <==> u % Pow2(8 * n) == w % Pow2(8 * n)
  {
    FromBigEndianOfBigEndian(u, n);
    FromBigEndianOfBigEndian(w, n);
    BigEndianOfFromBigEndian(BigEndian(u, n));
    BigEndianOfFromBigEndian(BigEndian(w, n));
  }
}
