/**
 * The libsodium crypto_box primitives the session relies on, kept abstract:
 * a CryptoBox is any triple of key agreement, sealing and opening functions,
 * and `Sound` is the one fact the framing protocol assumes of them.
 */
module Crypto {
  import opened Wrappers
  import opened Encoding

  /** crypto_box_NONCEBYTES */
  const NonceBytes: nat := 24
  /** crypto_box_MACBYTES: the authentication tag added to every sealed text. */
  const MacBytes: nat := 16
  /** crypto_box_PUBLICKEYBYTES */
  const PublicKeyBytes: nat := 32

  datatype CryptoBox = CryptoBox(
    /** Shared key from (peer public key, own private key); None when derivation fails. */
    agree: (Bytes, Bytes) -> Option<Bytes>,
    /** crypto_box_easy_afternm(key, nonce, plaintext); None when it reports failure. */
    seal: (Bytes, Bytes, Bytes) -> Option<Bytes>,
    /** crypto_box_open_easy_afternm(key, nonce, ciphertext); None on a failed tag check. */
    open: (Bytes, Bytes, Bytes) -> Option<Bytes>)

  /**
   * What the framing assumes of the primitive: a sealed text is the plaintext
   * plus a tag, opening it under the same key and nonce gives the plaintext
   * back, and an opened plaintext is the ciphertext minus its tag.
   */
  ghost predicate Sound(box: CryptoBox)
  {
    && (forall key, nonce, plain :: box.seal(key, nonce, plain).Some? ==>
          && |box.seal(key, nonce, plain).value| == |plain| + MacBytes
          && box.open(key, nonce, box.seal(key, nonce, plain).value) == Some(plain))
    && (forall key, nonce, cipher :: box.open(key, nonce, cipher).Some? ==>
          |box.open(key, nonce, cipher).value| + MacBytes == |cipher|)
  }

  /** A box that tags with zero bytes: no security, but it shows Sound can hold. */
  function ZeroTagBox(): CryptoBox
  {
    CryptoBox(
      (peer: Bytes, own: Bytes) => Some(peer),
      (key: Bytes, nonce: Bytes, plain: Bytes) => Some(seq(MacBytes, _ => 0 as byte) + plain),
      (key: Bytes, nonce: Bytes, cipher: Bytes) =>
        if |cipher| >= MacBytes && cipher[..MacBytes] == seq(MacBytes, _ => 0 as byte)
        then Some(cipher[MacBytes..]) else None)
  }

  lemma ZeroTagBoxIsSound()
    ensures Sound(ZeroTagBox())
  {
    var box := ZeroTagBox();
    forall key, nonce, plain
      ensures box.open(key, nonce, box.seal(key, nonce, plain).value) == Some(plain)
    {
      var c := box.seal(key, nonce, plain).value;
      assert c[..MacBytes] == seq(MacBytes, _ => 0 as byte);
      assert c[MacBytes..] == plain;
    }
  }
}
