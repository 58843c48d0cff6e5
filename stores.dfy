/**
 * Facts about storing bytes one at a time into a byte sequence: a run of
 * consecutive single-byte stores is the same as splicing the run in.
 */
module Stores {
  import opened Java

  /** `a` with the bytes `t` written over it from index `at`. */
  function Splice(a: seq<byte>, at: nat, t: seq<byte>): (r: seq<byte>)
    requires at + |t| <= |a|
    ensures |r| == |a|
    ensures r[..at] == a[..at] && r[at..at + |t|] == t && r[at + |t|..] == a[at + |t|..]
  {
    a[..at] + t + a[at + |t|..]
  }

  lemma Store1(a: seq<byte>, at: nat, b0: byte)
    requires at + 1 <= |a|
    ensures a[at := b0] == Splice(a, at, [b0])
  {
  }

  lemma Store2(a: seq<byte>, at: nat, b0: byte, b1: byte)
    requires at + 2 <= |a|
    ensures a[at := b0][at + 1 := b1] == Splice(a, at, [b0, b1])
  {
  }

  lemma Store4(a: seq<byte>, at: nat, b0: byte, b1: byte, b2: byte, b3: byte)
    requires at + 4 <= |a|
    ensures a[at := b0][at + 1 := b1][at + 2 := b2][at + 3 := b3] == Splice(a, at, [b0, b1, b2, b3])
  {
  }

  lemma Store8(a: seq<byte>, at: nat, b0: byte, b1: byte, b2: byte, b3: byte, b4: byte, b5: byte, b6: byte, b7: byte)
    requires at + 8 <= |a|
    ensures a[at := b0][at + 1 := b1][at + 2 := b2][at + 3 := b3][at + 4 := b4][at + 5 := b5][at + 6 := b6][at + 7 := b7]
         == Splice(a, at, [b0, b1, b2, b3, b4, b5, b6, b7])
  {
  }

  /** Two splices at adjacent positions are one splice of the concatenation. */
  lemma SpliceTwice(a: seq<byte>, at: nat, t: seq<byte>, t': seq<byte>)
    requires at + |t| + |t'| <= |a|
    ensures Splice(Splice(a, at, t), at + |t|, t') == Splice(a, at, t + t')
  {
    var r := Splice(Splice(a, at, t), at + |t|, t');
    var r' := Splice(a, at, t + t');
    assert |r| == |r'|;
    forall i | 0 <= i < |r| ensures r[i] == r'[i] {
      if i < at {
      } else if i < at + |t| {
        assert r[i] == Splice(a, at, t)[i];
      } else if i < at + |t| + |t'| {
      } else {
      }
    }
  }
}
