/** Unsigned big-endian integers, as Python's `int.to_bytes(k, "big")` and
    `int.from_bytes(s, "big")`. */
module BigEndian {
  import opened Base

  function Pow256(k: nat): (r: nat)
    ensures r >= 1
  {
    if k == 0 then 1 else 256 * Pow256(k - 1)
  }

  /** The value of `s` read as a big-endian unsigned integer. */
  function FromBytes(s: Bytes): (n: nat)
    ensures n < Pow256(|s|)
  {
    if s == [] then 0 else FromBytes(s[..|s| - 1]) * 256 + s[|s| - 1]
  }

  /** The `k`-byte big-endian encoding of `n`. */
  function ToBytes(n: nat, k: nat): (s: Bytes)
    requires n < Pow256(k)
    ensures |s| == k
  {
    if k == 0 then [] else ToBytes(n / 256, k - 1) + [n % 256]
  }

  /** Decoding an encoding gives the number back. */
  lemma {:induction false} FromToBytes(n: nat, k: nat)
    requires n < Pow256(k)
    ensures FromBytes(ToBytes(n, k)) == n
  {
    if k > 0 {
      var s := ToBytes(n, k);
      assert s[..k - 1] == ToBytes(n / 256, k - 1);
      FromToBytes(n / 256, k - 1);
    }
  }

  /** Encoding a decoded byte string gives the byte string back. */
  lemma {:induction false} ToFromBytes(s: Bytes)
    ensures ToBytes(FromBytes(s), |s|) == s
  {
    if s != [] {
      var init := s[..|s| - 1];
      var n := FromBytes(s);
      assert n / 256 == FromBytes(init) && n % 256 == s[|s| - 1];
      ToFromBytes(init);
      assert s == init + [s[|s| - 1]];
    }
  }
}
