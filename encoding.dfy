/**
 * Bytes, the network-order integer encoding behind htonl/ntohl, and the
 * one-bit nonce toggle `nonce[0] ^= 1`.
 */
module Encoding {

  newtype byte = x: int | 0 <= x < 256

  type Bytes = seq<byte>

  /** 256 to the power w: the number of values that fit in w bytes. */
  function Pow256(w: nat): (p: nat)
    ensures p > 0
  {
    if w == 0 then 1 else 256 * Pow256(w - 1)
  }

  lemma Pow256Four()
    ensures Pow256(4) == 0x1_0000_0000
  {
    assert Pow256(1) == 256;
    assert Pow256(2) == 0x1_0000;
  }

  /** The w-byte big-endian (network order) encoding of n, most significant byte first. */
  function ToBigEndian(n: nat, w: nat): (s: Bytes)
    requires n < Pow256(w)
    ensures |s| == w
  {
    if w == 0 then [] else ToBigEndian(n / 256, w - 1) + [(n % 256) as byte]
  }

  /** The value of a big-endian byte string; for four bytes this is ntohl. */
  function FromBigEndian(s: Bytes): (n: nat)
    ensures n < Pow256(|s|)
  {
    if s == [] then 0 else FromBigEndian(s[..|s| - 1]) * 256 + s[|s| - 1] as nat
  }

  /** Decoding an encoded value gives the value back. */
  lemma {:induction false} FromToBigEndian(n: nat, w: nat)
    requires n < Pow256(w)
    ensures FromBigEndian(ToBigEndian(n, w)) == n
  {
    if w > 0 {
      var s := ToBigEndian(n, w);
      assert s[..|s| - 1] == ToBigEndian(n / 256, w - 1);
      FromToBigEndian(n / 256, w - 1);
    }
  }

  /** Encoding a decoded string at its own width gives the string back. */
  lemma {:induction false} ToFromBigEndian(s: Bytes)
    ensures ToBigEndian(FromBigEndian(s), |s|) == s
  {
    if s != [] {
      var init := s[..|s| - 1];
      var n := FromBigEndian(s);
      assert n / 256 == FromBigEndian(init) && n % 256 == s[|s| - 1] as nat;
      ToFromBigEndian(init);
      assert s == init + [s[|s| - 1]];
    }
  }

  /** `b ^ 1` on an 8-bit value: the same upper seven bits, the other low bit. */
  function FlipLowBit(b: byte): (r: byte)
    ensures r != b && r / 2 == b / 2
  {
    if b % 2 == 0 then b + 1 else b - 1
  }

  /** The nonce with the low bit of its first byte toggled, as `nonce[0] ^= 1` leaves it. */
  function FlipNonce(nonce: Bytes): (r: Bytes)
    requires |nonce| > 0
    ensures |r| == |nonce| && r[0] != nonce[0] && r[1..] == nonce[1..]
  {
    nonce[0 := FlipLowBit(nonce[0])]
  }

  /** Toggling twice restores the nonce. */
  lemma FlipNonceTwice(nonce: Bytes)
    requires |nonce| > 0
    ensures FlipNonce(FlipNonce(nonce)) == nonce
  {
  }
}
