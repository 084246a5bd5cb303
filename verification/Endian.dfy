/** The host/network conversions of muduo's Endian.h, on a little-endian host. */
module Endian {
  import opened Bytes

  /** The widths for which the library declares conversions, in bytes (`W8` needs none). */
  datatype Width = W8 | W16 | W32 | W64 {
    function Size(): (n: nat)
      ensures 1 <= n <= 8
    {
      match this
      case W8 => 1
      case W16 => 2
      case W32 => 4
      case W64 => 8
    }
  }

  /** Exchanges the bytes of a host integer, least significant for most significant. */
  function SwapBytes(v: nat, w: Width): nat
  {
    FromLe(Reverse(ToLe(v, w.Size())))
  }

  function HostToNetwork(v: nat, w: Width): nat { SwapBytes(v, w) }

  function NetworkToHost(v: nat, w: Width): nat { SwapBytes(v, w) }

  /** A converted integer lies in memory most significant byte first. */
  lemma HostToNetworkMemory(v: nat, w: Width)
    ensures HostToNetwork(v, w) < Pow256(w.Size())
    ensures ToLe(HostToNetwork(v, w), w.Size()) == ToBe(v, w.Size())
  {
    ToLeFromLe(Reverse(ToLe(v, w.Size())));
    BigEndianIsReversed(v, w.Size());
  }

  /** Converting to network order and back is the identity on every value of the width. */
  lemma NetworkRoundTrip(v: nat, w: Width)
    requires v < Pow256(w.Size())
    ensures NetworkToHost(HostToNetwork(v, w), w) == v
  {
    var image := ToLe(v, w.Size());
    ToLeFromLe(Reverse(image));
    ReverseTwice(image);
    FromLeToLe(v, w.Size());
  }

  /** Reading a network-order field: copy the bytes into a host integer, then convert. */
  lemma NetworkToHostReads(v: nat, w: Width)
    requires v < Pow256(w.Size())
    ensures NetworkToHost(FromLe(ToBe(v, w.Size())), w) == v
  {
    HostToNetworkMemory(v, w);
    FromLeToLe(HostToNetwork(v, w), w.Size());
    NetworkRoundTrip(v, w);
  }

  /** A signed integer as a field in network byte order (Appendix B of RFC 791). */
  function Field(w: Width, x: int): (s: seq<Byte>)
    requires Fits(x, w.Size())
    ensures |s| == w.Size()
  {
    SignedUnsigned(x, w.Size());
    ToBe(Unsigned(x, w.Size()), w.Size())
  }

  lemma FieldIsInjective(w: Width, x: int, y: int)
    requires Fits(x, w.Size()) && Fits(y, w.Size())
    requires Field(w, x) == Field(w, y)
    ensures x == y
  {
    SignedUnsigned(x, w.Size());
    SignedUnsigned(y, w.Size());
    FromBeToBe(Unsigned(x, w.Size()), w.Size());
    FromBeToBe(Unsigned(y, w.Size()), w.Size());
  }

  lemma FromLeOf4(a: Byte, b: Byte, c: Byte, d: Byte)
    ensures FromLe([a, b, c, d]) == a + 0x100 * b + 0x1_0000 * c + 0x100_0000 * d
  {
    FromLeCons(a, [b, c, d]);
    FromLeCons(b, [c, d]);
    FromLeCons(c, [d]);
    FromLeCons(d, []);
    assert [a, b, c, d] == [a] + [b, c, d] && [b, c, d] == [b] + [c, d] && [c, d] == [c] + [d] && [d] == [d] + [];
  }

  /** The 32-bit conversion in closed form. */
  lemma SwapOf32(a: Byte, b: Byte, c: Byte, d: Byte)
    ensures HostToNetwork(a + 0x100 * b + 0x1_0000 * c + 0x100_0000 * d, W32)
         == d + 0x100 * c + 0x1_0000 * b + 0x100_0000 * a
  {
    FromLeOf4(a, b, c, d);
    FromLeOf4(d, c, b, a);
    ToLeFromLe([a, b, c, d]);
    assert Reverse([a, b, c, d]) == [d, c, b, a];
  }

  /** The bytes of a 32-bit integer, least significant first. */
  lemma FourBytes(v: nat) returns (a: Byte, b: Byte, c: Byte, d: Byte)
    requires v < Pow256(4)
    ensures v == a + 0x100 * b + 0x1_0000 * c + 0x100_0000 * d
  {
    var s := ToLe(v, 4);
    a, b, c, d := s[0], s[1], s[2], s[3];
    FromLeOf4(a, b, c, d);
    assert s == [a, b, c, d];
    FromLeToLe(v, 4);
  }

  lemma FromLeOf2(a: Byte, b: Byte)
    ensures FromLe([a, b]) == a + 0x100 * b
  {
    FromLeCons(a, [b]);
    FromLeCons(b, []);
    assert [a, b] == [a] + [b] && [b] == [b] + [];
  }

  /** The conversions of the other widths. */
  lemma SwapOf16(a: Byte, b: Byte)
    ensures HostToNetwork(a + 0x100 * b, W16) == b + 0x100 * a
  {
    FromLeOf2(a, b);
    FromLeOf2(b, a);
    ToLeFromLe([a, b]);
    assert Reverse([a, b]) == [b, a];
  }

  lemma FromLeStep(b: int, p: int, u: int, v: int)
    ensures b + 256 * (u + p * v) == (b + 256 * u) + 256 * p * v
  {
  }

  lemma {:induction false} FromLeConcat(s: seq<Byte>, t: seq<Byte>)
    ensures FromLe(s + t) == FromLe(s) + Pow256(|s|) * FromLe(t)
  {
    if s == [] {
      assert s + t == t;
    } else {
      FromLeConcat(s[1..], t);
      assert (s + t)[1..] == s[1..] + t;
      FromLeStep(s[0], Pow256(|s| - 1), FromLe(s[1..]), FromLe(t));
    }
  }

  lemma ReverseConcat(s: seq<Byte>, t: seq<Byte>)
    ensures Reverse(s + t) == Reverse(t) + Reverse(s)
  {
    var u, r := s + t, Reverse(t) + Reverse(s);
    forall i | 0 <= i < |u| ensures Reverse(u)[i] == r[i] {
    }
  }

  /** Of 64 bits, the two halves are converted and exchanged. */
  lemma SwapOf64(low: seq<Byte>, high: seq<Byte>)
    requires |low| == |high| == 4
    ensures HostToNetwork(FromLe(low + high), W64) == FromLe(Reverse(high) + Reverse(low))
    ensures FromLe(low + high) == FromLe(low) + 0x1_0000_0000 * FromLe(high)
  {
    ToLeFromLe(low + high);
    ReverseConcat(low, high);
    FromLeConcat(low, high);
    Pow256Values();
  }
}
