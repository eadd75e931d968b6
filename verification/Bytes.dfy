/** Bytes and little-endian numbers. */
module Bytes {
  import opened Arithmetic

  type Byte = b: int | 0 <= b < 0x100

  function Pow256(n: nat): (p: nat)
    ensures p > 0
  {
    if n == 0 then 1 else 0x100 * Pow256(n - 1)
  }

  lemma Powers()
    ensures Pow256(1) == 0x100 && Pow256(2) == TWO16 && Pow256(4) == TWO32 && Pow256(8) == TWO64
  {
    assert Pow256(2) == TWO16;
    assert Pow256(4) == TWO32;
    assert Pow256(6) == 0x1_0000_0000_0000;
  }

  function ToNat(bs: seq<Byte>): (v: nat)
    ensures v < Pow256(|bs|)
  {
    if bs == [] then 0 else bs[0] + 0x100 * ToNat(bs[1..])
  }

  function FromNat(v: nat, n: nat): (bs: seq<Byte>)
    ensures |bs| == n
  {
    if n == 0 then [] else [v % 0x100] + FromNat(v / 0x100, n - 1)
  }

  lemma {:induction false} RoundTripNat(v: nat, n: nat)
    requires v < Pow256(n)
    ensures ToNat(FromNat(v, n)) == v
  {
    if n > 0 {
      RoundTripNat(v / 0x100, n - 1);
      assert FromNat(v, n)[1..] == FromNat(v / 0x100, n - 1);
    }
  }

  lemma {:induction false} RoundTripBytes(bs: seq<Byte>)
    ensures FromNat(ToNat(bs), |bs|) == bs
  {
    if bs != [] {
      RoundTripBytes(bs[1..]);
      assert ToNat(bs) / 0x100 == ToNat(bs[1..]) && ToNat(bs) % 0x100 == bs[0];
    }
  }

  /** Byte k of a number. */
  lemma {:induction false} ByteOf(v: nat, n: nat, k: nat)
    requires k < n
    ensures FromNat(v, n)[k] == v / Pow256(k) % 0x100
  {
    if k > 0 {
      ByteOf(v / 0x100, n - 1, k - 1);
      DivDiv(v, 0x100, Pow256(k - 1));
    }
  }

  lemma Regroup(p: nat, v: nat)
    ensures 0x100 * (p * v) == (0x100 * p) * v
  {
  }

  lemma {:induction false} ToNatConcat(a: seq<Byte>, b: seq<Byte>)
    ensures ToNat(a + b) == ToNat(a) + Pow256(|a|) * ToNat(b)
  {
    if a == [] {
      assert a + b == b;
    } else {
      ToNatConcat(a[1..], b);
      assert (a + b)[1..] == a[1..] + b;
      Regroup(Pow256(|a| - 1), ToNat(b));
    }
  }

  /** `bs` with `src` copied over it at `sub`. */
  function Patch(bs: seq<Byte>, sub: nat, src: seq<Byte>): (r: seq<Byte>)
    requires sub + |src| <= |bs|
    ensures |r| == |bs|
    ensures forall j :: 0 <= j < |bs| ==> r[j] == if sub <= j < sub + |src| then src[j - sub] else bs[j]
  {
    bs[..sub] + src + bs[sub + |src|..]
  }
}
