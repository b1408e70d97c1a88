/** Bytes, optional values and the big-endian integer conversions used on the wire. */
module Bytes {

  /** A Python `bytes` element. */
  type byte = x: int | 0 <= x < 256

  datatype Option<+T> = None | Some(value: T)

  function Min(a: int, b: int): int { if a <= b then a else b }

  function Pow256(k: nat): (r: nat)
    ensures r > 0
  {
    if k == 0 then 1 else 256 * Pow256(k - 1)
  }

  /** Python's slice `s[lo:hi]` for non-negative bounds: out-of-range bounds are clipped. */
  function Slice<T>(s: seq<T>, lo: nat, hi: nat): (r: seq<T>)
    ensures lo <= hi <= |s| ==> r == s[lo..hi]
    ensures lo <= hi && lo <= |s| ==> r == s[lo..Min(hi, |s|)]
    ensures lo <= hi ==> |r| <= hi - lo
    ensures lo >= |s| || hi <= lo ==> r == []
  {
    if lo >= |s| || hi <= lo then [] else s[lo..Min(hi, |s|)]
  }

  lemma SuffixOfAppend<T>(a: seq<T>, b: seq<T>, k: nat)
    requires k <= |a|
    ensures (a + b)[k..] == a[k..] + b
  {
  }

  lemma AfterPrefix<T>(a: seq<T>, b: seq<T>)
    ensures (a + b)[|a|..] == b
  {
  }

  lemma PrefixOfAppend<T>(a: seq<T>, b: seq<T>, n: nat)
    requires |a| <= n <= |a| + |b|
    ensures (a + b)[..n] == a + b[..n - |a|]
  {
  }

  lemma AppendAssoc<T>(a: seq<T>, b: seq<T>, c: seq<T>)
    ensures a + (b + c) == a + b + c
  {
  }

  lemma AppendNothing<T>(a: seq<T>)
    ensures a + [] == a
  {
  }

  lemma HeadAndTail<T>(s: seq<T>)
    requires s != []
    ensures s == [s[0]] + s[1..]
  {
  }

  /** `int.from_bytes(b, 'big')`: the unsigned big-endian value of any number of bytes. */
  function BigEndian(b: seq<byte>): (r: nat)
    ensures r < Pow256(|b|)
  {
    if b == [] then 0
    else
      var high := BigEndian(b[..|b| - 1]);
      assert high * 256 + b[|b| - 1] < (high + 1) * 256 <= Pow256(|b| - 1) * 256;
      high * 256 + b[|b| - 1]
  }

  lemma BigEndianPair(b: seq<byte>)
    ensures |b| == 2 ==> BigEndian(b) == b[0] as int * 256 + b[1] as int
  {
    if |b| == 2 {
      assert b[..1][..0] == [];
    }
  }

  /** `n.to_bytes(k, 'big')`; Python raises OverflowError when `n` needs more than `k`
      bytes, hence the requires. */
  function ToBytes(n: nat, k: nat): (r: seq<byte>)
    requires n < Pow256(k)
    ensures |r| == k && BigEndian(r) == n
  {
    if k == 0 then []
    else
      var r := ToBytes(n / 256, k - 1) + [n % 256];
      assert r[..k - 1] == ToBytes(n / 256, k - 1);
      r
  }
}
