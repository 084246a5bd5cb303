/** Bytes, and the two positional encodings of integers that the network layer uses. */
module Bytes {

  type Byte = b: int | 0 <= b < 256

  function Pow256(n: nat): (p: nat)
    ensures p >= 1
  {
    if n == 0 then 1 else 256 * Pow256(n - 1)
  }

  /** The `n` low-order bytes of `v`, least significant first: how the (little-endian) host stores an integer. */
  function ToLe(v: nat, n: nat): (s: seq<Byte>)
    ensures |s| == n
  {
    if n == 0 then [] else [v % 256] + ToLe(v / 256, n - 1)
  }

  function FromLe(s: seq<Byte>): nat
  {
    if s == [] then 0 else s[0] + 256 * FromLe(s[1..])
  }

  lemma FromLeCons(b: Byte, s: seq<Byte>)
    ensures FromLe([b] + s) == b + 256 * FromLe(s)
  {
    assert ([b] + s)[1..] == s;
  }

  /** The `n` low-order bytes of `v`, most significant first: network byte order. */
  function ToBe(v: nat, n: nat): (s: seq<Byte>)
    ensures |s| == n
  {
    if n == 0 then [] else ToBe(v / 256, n - 1) + [v % 256]
  }

  function FromBe(s: seq<Byte>): nat
  {
    if s == [] then 0 else 256 * FromBe(s[..|s| - 1]) + s[|s| - 1]
  }

  function Reverse(s: seq<Byte>): (r: seq<Byte>)
    ensures |r| == |s|
    ensures forall i :: 0 <= i < |s| ==> r[i] == s[|s| - 1 - i]
  {
    if s == [] then [] else Reverse(s[1..]) + [s[0]]
  }

  lemma ReverseTwice(s: seq<Byte>)
    ensures Reverse(Reverse(s)) == s
  {
  }

  /** Little-endian decoding undoes encoding, for every value that fits. */
  lemma {:induction false} FromLeToLe(v: nat, n: nat)
    requires v < Pow256(n)
    ensures FromLe(ToLe(v, n)) == v
  {
    if n > 0 {
      FromLeToLe(v / 256, n - 1);
      assert ToLe(v, n)[1..] == ToLe(v / 256, n - 1);
    }
  }

  /** Every byte string is the little-endian encoding of the value it decodes to. */
  lemma {:induction false} ToLeFromLe(s: seq<Byte>)
    ensures FromLe(s) < Pow256(|s|)
    ensures ToLe(FromLe(s), |s|) == s
  {
    if s != [] {
      ToLeFromLe(s[1..]);
      assert s == [s[0]] + s[1..];
    }
  }

  /** Network byte order is the reverse of the host's memory image. */
  lemma {:induction false} BigEndianIsReversed(v: nat, n: nat)
    ensures ToBe(v, n) == Reverse(ToLe(v, n))
  {
    if n > 0 {
      BigEndianIsReversed(v / 256, n - 1);
      assert ToLe(v, n)[1..] == ToLe(v / 256, n - 1);
    }
  }

  lemma {:induction false} FromBeToBe(v: nat, n: nat)
    requires v < Pow256(n)
    ensures FromBe(ToBe(v, n)) == v
  {
    if n > 0 {
      FromBeToBe(v / 256, n - 1);
      assert ToBe(v, n)[..n - 1] == ToBe(v / 256, n - 1);
    }
  }

  lemma {:induction false} ToBeFromBe(s: seq<Byte>)
    ensures FromBe(s) < Pow256(|s|)
    ensures ToBe(FromBe(s), |s|) == s
  {
    if s != [] {
      ToBeFromBe(s[..|s| - 1]);
      assert s == s[..|s| - 1] + [s[|s| - 1]];
    }
  }

  /** The parts of a concatenation of three strings. */
  lemma Slices(a: seq<Byte>, b: seq<Byte>, c: seq<Byte>)
    ensures (a + b + c)[..|a|] == a
    ensures (a + b + c)[|a|..|a| + |b|] == b
    ensures (a + b + c)[|a| + |b|..] == c
  {
  }

  /** Two's complement: the unsigned pattern of a signed integer of `n` bytes, and back. */
  function Unsigned(x: int, n: nat): (u: int)
  {
    if x < 0 then x + Pow256(n) else x
  }

  function Signed(u: nat, n: nat): (x: int)
  {
    if 2 * u >= Pow256(n) then u - Pow256(n) else u
  }

  predicate Fits(x: int, n: nat)
  {
    -(Pow256(n) as int) <= 2 * x < Pow256(n)
  }

  lemma SignedUnsigned(x: int, n: nat)
    requires Fits(x, n)
    ensures 0 <= Unsigned(x, n) < Pow256(n)
    ensures Signed(Unsigned(x, n), n) == x
  {
  }

  lemma UnsignedSigned(u: nat, n: nat)
    requires n > 0 && u < Pow256(n)
    ensures Fits(Signed(u, n), n)
    ensures Unsigned(Signed(u, n), n) == u
  {
    assert Pow256(n) == 256 * Pow256(n - 1);
  }

  lemma Pow256Values()
    ensures Pow256(0) == 1 && Pow256(1) == 0x100 && Pow256(2) == 0x1_0000
    ensures Pow256(4) == 0x1_0000_0000 && Pow256(8) == 0x1_0000_0000_0000_0000
  {
    assert Pow256(3) == 256 * Pow256(2);
    assert Pow256(5) == 256 * Pow256(4);
    assert Pow256(6) == 256 * Pow256(5);
    assert Pow256(7) == 256 * Pow256(6);
  }
}
