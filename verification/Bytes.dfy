/** Bytes, fixed-width big-endian integers, and Python text as code points. */
module Bytes {
  import opened Wrappers

  type byte = b: nat | b < 256
  type bytes = seq<byte>

  /** Python text as a sequence of code points. */
  type Text = seq<nat>

  /** `s[lo:hi]`: bounds past the end are clamped. */
  function Slice<T>(s: seq<T>, lo: nat, hi: nat): seq<T>
    requires lo <= hi
  {
    if hi <= |s| then s[lo..hi] else if lo <= |s| then s[lo..] else []
  }

  /** `len` bytes can hold the numbers below this. */
  function Pow256(len: nat): (p: nat)
    ensures p >= 1
  {
    if len == 0 then 1 else 256 * Pow256(len - 1)
  }

  /** The low `len` bytes of `n`, most significant first. */
  function BigEndian(n: nat, len: nat): (r: bytes)
    ensures |r| == len
  {
    if len == 0 then [] else BigEndian(n / 256, len - 1) + [n % 256]
  }

  /** `n.to_bytes(len, "big")`; None is the OverflowError. */
  function ToBytes(n: nat, len: nat): Option<bytes> {
    if n < Pow256(len) then Some(BigEndian(n, len)) else None
  }

  /** `int.from_bytes(b, "big")`. */
  function FromBytes(b: bytes): nat {
    if b == [] then 0 else FromBytes(b[..|b| - 1]) * 256 + b[|b| - 1]
  }

  lemma {:induction false} FromToBytes(n: nat, len: nat)
    requires n < Pow256(len)
    ensures FromBytes(BigEndian(n, len)) == n
  {
    if len > 0 {
      FromToBytes(n / 256, len - 1);
      assert BigEndian(n, len)[..len - 1] == BigEndian(n / 256, len - 1);
    }
  }

  lemma {:induction false} ToFromBytes(b: bytes)
    ensures FromBytes(b) < Pow256(|b|) && BigEndian(FromBytes(b), |b|) == b
  {
    if b != [] {
      var init, last := b[..|b| - 1], b[|b| - 1];
      ToFromBytes(init);
      assert FromBytes(b) == FromBytes(init) * 256 + last;
      assert FromBytes(b) / 256 == FromBytes(init) && FromBytes(b) % 256 == last;
    }
  }
}
