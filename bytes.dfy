/**
 * Octets and the big-endian layout that `java.nio.ByteBuffer` uses once its
 * order is `ByteOrder.BIG_ENDIAN`.
 */
module Bytes {

  /** An octet: the bit pattern of a Java `byte`, read as an unsigned value. */
  type Byte = b: int | 0 <= b < 256

  /** 256 to the power `n`. */
  function Pow256(n: nat): (p: nat)
    ensures p >= 1
  {
    if n == 0 then 1 else 256 * Pow256(n - 1)
  }

  /** 2^64: one more than the largest bit pattern of a Java `long`. */
  const TWO_64: nat := 0x1_0000_0000_0000_0000

  lemma Pow256Of8()
    ensures Pow256(8) == TWO_64
  {
  }

  /** The low `n` octets of `v`, most significant first. */
  function BigEndian(v: nat, n: nat): (r: seq<Byte>)
    ensures |r| == n
  {
    if n == 0 then [] else BigEndian(v / 256, n - 1) + [v % 256]
  }

  /** The number that a sequence of octets denotes, most significant first. */
  function FromBigEndian(s: seq<Byte>): (v: nat)
    ensures v < Pow256(|s|)
  {
    if s == [] then 0
    else
      var w := FromBigEndian(s[..|s| - 1]);
      assert w * 256 + s[|s| - 1] < Pow256(|s|) by {
        assert w <= Pow256(|s| - 1) - 1;
        assert w * 256 <= (Pow256(|s| - 1) - 1) * 256;
      }
      w * 256 + s[|s| - 1]
  }

  /** Writing `v` as `n` octets and reading them back gives `v`, whenever `v` fits. */
  lemma {:induction false} FromBigEndianOfBigEndian(v: nat, n: nat)
    requires v < Pow256(n)
    ensures FromBigEndian(BigEndian(v, n)) == v
  {
    if n > 0 {
      var s := BigEndian(v, n);
      assert s[..n - 1] == BigEndian(v / 256, n - 1);
      assert v / 256 < Pow256(n - 1);
      FromBigEndianOfBigEndian(v / 256, n - 1);
    }
  }

  /** Reading `n` octets and writing the number back as `n` octets gives the same octets. */
  lemma {:induction false} BigEndianOfFromBigEndian(s: seq<Byte>)
    ensures BigEndian(FromBigEndian(s), |s|) == s
  {
    if s != [] {
      var n := |s|;
      var w := FromBigEndian(s[..n - 1]);
      var v := FromBigEndian(s);
      assert v / 256 == w && v % 256 == s[n - 1];
      BigEndianOfFromBigEndian(s[..n - 1]);
      assert s == s[..n - 1] + [s[n - 1]];
    }
  }
}
