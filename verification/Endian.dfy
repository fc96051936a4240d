/** Fixed-width byte forms of unsigned integers: `to_be_bytes` and `to_le_bytes`. */
module Endian {
  import opened Prelude

  /** The bytes of a 64-bit integer. */
  const WORD: nat := 8

  function Pow256(k: nat): nat {
    if k == 0 then 1 else 256 * Pow256(k - 1)
  }

  function BigEndian(n: nat, k: nat): (bytes: seq<byte>)
    ensures |bytes| == k
  {
    if k == 0 then [] else BigEndian(n / 256, k - 1) + [n % 256]
  }

  function LittleEndian(n: nat, k: nat): (bytes: seq<byte>)
    ensures |bytes| == k
  {
    if k == 0 then [] else [n % 256] + LittleEndian(n / 256, k - 1)
  }

  /** Comparing big-endian bytes is comparing the numbers. */
  lemma {:induction false} BigEndianOrder(n: nat, m: nat, k: nat)
    requires n < Pow256(k) && m < Pow256(k)
    ensures CompareBytes(BigEndian(n, k), BigEndian(m, k)) == CompareInt(n, m)
  {
    if k > 0 {
      var p, q := BigEndian(n / 256, k - 1), BigEndian(m / 256, k - 1);
      BigEndianOrder(n / 256, m / 256, k - 1);
      CompareBytesEqual(p, q);
      if p == q {
        CompareBytesCommonPrefix(p, [n % 256], [m % 256]);
      } else {
        CompareBytesLeading(p, q, [n % 256], [m % 256]);
      }
    }
  }

  lemma {:induction false} LittleEndianInjective(n: nat, m: nat, k: nat)
    requires n < Pow256(k) && m < Pow256(k)
    requires LittleEndian(n, k) == LittleEndian(m, k)
    ensures n == m
  {
    if k > 0 {
      var a, b := LittleEndian(n, k), LittleEndian(m, k);
      assert a[0] == n % 256 && b[0] == m % 256;
      assert a[1..] == LittleEndian(n / 256, k - 1) && b[1..] == LittleEndian(m / 256, k - 1);
      LittleEndianInjective(n / 256, m / 256, k - 1);
    }
  }

  lemma Pow256Eight()
    ensures Pow256(WORD) == 0x1_0000_0000_0000_0000
  {
    assert Pow256(4) == 0x1_0000_0000;
    assert Pow256(8) == 256 * (256 * (256 * (256 * Pow256(4))));
  }
}
