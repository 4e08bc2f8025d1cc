/** Bytes and the little-endian integer layout `System.Guid` uses for its first three fields. */
module Bytes {

  type byte = b: int | 0 <= b < 256

  function Pow(base: nat, e: nat): nat {
    if e == 0 then 1 else base * Pow(base, e - 1)
  }

  lemma {:induction false} PowPositive(base: nat, e: nat)
    requires base > 0
    ensures Pow(base, e) > 0
  {
    if e > 0 {
      PowPositive(base, e - 1);
    }
  }

  /** One byte holds two hex digits. */
  lemma {:induction false} Pow256IsPow16(k: nat)
    ensures Pow(256, k) == Pow(16, 2 * k)
  {
    if k > 0 {
      Pow256IsPow16(k - 1);
      assert Pow(16, 2 * k) == 16 * (16 * Pow(16, 2 * (k - 1)));
    }
  }

  function Reverse<T>(xs: seq<T>): (r: seq<T>)
    ensures |r| == |xs|
    ensures forall i :: 0 <= i < |xs| ==> r[i] == xs[|xs| - 1 - i]
  {
    if |xs| == 0 then [] else Reverse(xs[1..]) + [xs[0]]
  }

  /** The number whose base-256 digits, least significant first, are `bs`. */
  function FromLittleEndian(bs: seq<byte>): (n: nat)
    ensures n < Pow(256, |bs|)
  {
    if |bs| == 0 then 0 else bs[0] + 256 * FromLittleEndian(bs[1..])
  }

  /** The low `k` bytes of `n`, least significant first (`BitConverter` order on x86). */
  function ToLittleEndian(n: nat, k: nat): (bs: seq<byte>)
    ensures |bs| == k
  {
    if k == 0 then [] else [n % 256] + ToLittleEndian(n / 256, k - 1)
  }

  lemma {:induction false} FromToLittleEndian(n: nat, k: nat)
    requires n < Pow(256, k)
    ensures FromLittleEndian(ToLittleEndian(n, k)) == n
  {
    if k > 0 {
      var bs := ToLittleEndian(n, k);
      assert bs[1..] == ToLittleEndian(n / 256, k - 1);
      FromToLittleEndian(n / 256, k - 1);
    }
  }

  lemma {:induction false} ToFromLittleEndian(bs: seq<byte>)
    ensures ToLittleEndian(FromLittleEndian(bs), |bs|) == bs
  {
    if |bs| > 0 {
      var n := FromLittleEndian(bs);
      assert n % 256 == bs[0] && n / 256 == FromLittleEndian(bs[1..]);
      ToFromLittleEndian(bs[1..]);
    }
  }
}
