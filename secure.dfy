/**
 * The session of src/connection/secure.c: the handshakes that create it,
 * Secure_Send and Secure_Recv working step by step on its socket, and
 * Secure_Close.
 */
module Secure {
  import opened Wrappers
  import opened Encoding
  import opened Crypto
  import opened Transport
  import opened Framing

  class Session {
    /** The connection; Secure_Close closes it. */
    const sock: Socket
    /** The shared key, set by the handshake. */
    var key: Bytes

    /** Secure_NewSession followed by connecting or accepting `sock`; the key is not derived yet. */
    constructor (sock: Socket)
      ensures this.sock == sock && key == []
    {
      this.sock := sock;
      this.key := [];
    }

    /**
     * Secure_Send with the freshly generated `nonce`: seals the length under
     * the nonce and the payload under the toggled nonce, toggles it back, then
     * writes nonce, sealed length and sealed payload, giving up at the first
     * short write. What it returns and writes is exactly SendOutcome.
     */
    method Send(box: CryptoBox, data: Bytes, nonce: Bytes) returns (r: SendResult)
      requires Sound(box) && |nonce| == NonceBytes
      requires !sock.closed
      modifies sock
      ensures var (result, written) := SendOutcome(box, key, nonce, data, old(sock.room));
        && r == result
        && sock.outbox == old(sock.outbox) + written
        && sock.room == old(sock.room) - |written|
      ensures sock.inbox == old(sock.inbox) && sock.closed == old(sock.closed)
    {
      var n := new byte[NonceBytes](i requires 0 <= i < NonceBytes => nonce[i]);
      assert n[..] == nonce;
      if |data| > MaxMsgSize {
        return SendFailed(MessageTooLarge);
      }
      SizeFieldRoundTrip(|data|);
      var size := ToBigEndian(|data|, SizeBytes);
      var sizeCipher := box.seal(key, n[..], size);
      if sizeCipher.None? {
        return SendFailed(EncryptFailed);
      }
      n[0] := FlipLowBit(n[0]);
      assert n[..] == FlipNonce(nonce);
      var payloadCipher := box.seal(key, n[..], data);
      if payloadCipher.None? {
        return SendFailed(EncryptFailed);
      }
      n[0] := FlipLowBit(n[0]);
      assert n[..] == nonce by { FlipNonceTwice(nonce); }

      ghost var f := Frame(nonce, sizeCipher.value, payloadCipher.value);
      assert SealFrame(box, key, nonce, data) == Success(f);
      FrameLayout(box, key, nonce, data);
      WirePrefix(f, sock.room);

      var count := sock.Send(n[..]);
      if count != NonceBytes {
        return SendFailed(ShortWrite);
      }
      count := sock.Send(sizeCipher.value);
      if count != SizeCipherBytes {
        return SendFailed(ShortWrite);
      }
      var sent := sock.Send(payloadCipher.value);
      return Sent(sent);
    }

    /**
     * Secure_Recv: reads the nonce and the sealed length, opens the length,
     * checks it against the cap, reads the sealed payload and opens it under
     * the toggled nonce, giving up at the first short read or failed open.
     * What it returns and consumes is exactly RecvOutcome.
     */
    method Recv(box: CryptoBox) returns (r: RecvResult)
      requires !sock.closed
      modifies sock
      ensures var (result, consumed) := RecvOutcome(box, key, old(sock.inbox));
        && r == result
        && sock.inbox == old(sock.inbox)[consumed..]
      ensures sock.outbox == old(sock.outbox) && sock.room == old(sock.room)
      ensures sock.closed == old(sock.closed)
    {
      ghost var input := sock.inbox;
      var sizeBuf := new byte[SizeCipherBytes];
      var nonce := new byte[NonceBytes];

      var count := sock.Recv(nonce);
      if count != NonceBytes {
        return RecvFailed(ShortRead);
      }
      assert nonce[..] == input[..NonceBytes];
      count := sock.Recv(sizeBuf);
      if count != SizeCipherBytes {
        return RecvFailed(ShortRead);
      }
      assert sizeBuf[..] == sizeBuf[..count] == input[NonceBytes..][..SizeCipherBytes];
      assert sizeBuf[..] == input[NonceBytes..HeaderBytes];
      assert sock.inbox == input[HeaderBytes..];

      var size := box.open(key, nonce[..], sizeBuf[..]);
      if size.None? {
        return RecvFailed(AuthFailed);
      }
      var out := FromBigEndian(size.value);
      if out > MaxMsgSize {
        return RecvFailed(MessageTooLarge);
      }

      var cipherText := new byte[out + MacBytes];
      count := sock.Recv(cipherText);
      if count != out + MacBytes {
        return RecvFailed(ShortRead);
      }
      assert cipherText[..] == cipherText[..count] == input[HeaderBytes..][..count];
      assert cipherText[..] == input[HeaderBytes..HeaderBytes + out + MacBytes];
      assert sock.inbox == input[HeaderBytes + out + MacBytes..];

      nonce[0] := FlipLowBit(nonce[0]);
      assert nonce[..] == FlipNonce(input[..NonceBytes]);
      var data := box.open(key, nonce[..], cipherText[..]);
      if data.None? {
        return RecvFailed(AuthFailed);
      }
      return Received(out, data.value);
    }

    /** Secure_Close: closes the connection; the session is released with it, so it is closed only once. */
    method Close()
      requires !sock.closed
      modifies sock
      ensures sock.closed
      ensures sock.outbox == old(sock.outbox) && sock.inbox == old(sock.inbox) && sock.room == old(sock.room)
    {
      sock.Close();
    }
  }

  /**
   * Secure_Connect over `dialed`, the connection Secure_ConnectSocket produced
   * (null when connecting failed). It returns null when connecting fails, when
   * key derivation fails and when sending the public key comes up short, and
   * closes the connection in the last two cases. Its only wire output is
   * (the start of) its own public key.
   */
  method Connect(box: CryptoBox, peer: Bytes, pub: Bytes, priv: Bytes, dialed: Socket?) returns (s: Session?)
    requires |pub| == PublicKeyBytes
    requires dialed != null ==> !dialed.closed
    modifies dialed
    ensures dialed == null ==> s == null
    ensures dialed != null ==>
      && dialed.inbox == old(dialed.inbox)
      && match box.agree(peer, priv)
         case None =>
           s == null && dialed.closed && dialed.outbox == old(dialed.outbox) && dialed.room == old(dialed.room)
         case Some(k) =>
           && dialed.outbox == old(dialed.outbox) + pub[..Min(PublicKeyBytes, old(dialed.room))]
           && dialed.room == old(dialed.room) - Min(PublicKeyBytes, old(dialed.room))
           && (s != null <==> old(dialed.room) >= PublicKeyBytes)
           && (s == null ==> dialed.closed)
           && (s != null ==> fresh(s) && s.sock == dialed && s.key == k && !dialed.closed)
  {
    if dialed == null {
      return null;
    }
    s := new Session(dialed);
    var shared := box.agree(peer, priv);
    if shared.None? {
      s.Close();
      return null;
    }
    s.key := shared.value;
    var count := dialed.Send(pub);
    if count != PublicKeyBytes {
      s.Close();
      return null;
    }
  }

  /**
   * Secure_Accept over `conn`, the connection Secure_AcceptSocket produced
   * (whose result the source does not check). It reads the peer's public key;
   * a short read, or a failed key derivation, closes the connection and
   * returns null. It writes nothing: the accepting side does not send `pub`.
   */
  method Accept(box: CryptoBox, pub: Bytes, priv: Bytes, conn: Socket) returns (s: Session?)
    requires !conn.closed
    modifies conn
    ensures conn.outbox == old(conn.outbox) && conn.room == old(conn.room)
    ensures |old(conn.inbox)| < PublicKeyBytes ==> s == null && conn.closed && conn.inbox == []
    ensures |old(conn.inbox)| >= PublicKeyBytes ==>
      && conn.inbox == old(conn.inbox)[PublicKeyBytes..]
      && match box.agree(old(conn.inbox)[..PublicKeyBytes], priv)
         case None => s == null && conn.closed
         case Some(k) => s != null && fresh(s) && s.sock == conn && s.key == k && !conn.closed
  {
    s := new Session(conn);
    var peer := new byte[PublicKeyBytes];
    ghost var input := conn.inbox;
    var count := conn.Recv(peer);
    if count != PublicKeyBytes {
      s.Close();
      return null;
    }
    assert peer[..] == input[..PublicKeyBytes];
    var shared := box.agree(peer[..], priv);
    if shared.None? {
      s.Close();
      return null;
    }
    s.key := shared.value;
  }

  /**
   * One message from `sender` to `receiver` over a link that delivers what
   * was written: when the send reports the whole payload ciphertext written
   * and both ends hold the same key, the receiver gets exactly `data`.
   */
  method Exchange(box: CryptoBox, sender: Session, receiver: Session, data: Bytes, nonce: Bytes)
    returns (sent: SendResult, got: RecvResult)
    requires Sound(box) && |nonce| == NonceBytes
    requires sender.key == receiver.key && sender.sock != receiver.sock
    requires receiver.sock.inbox == []
    requires !sender.sock.closed && !receiver.sock.closed
    modifies sender.sock, receiver.sock
    ensures sent == Sent(|data| + MacBytes) ==> got == Received(|data|, data)
    ensures sent == Sent(|data| + MacBytes) ==> receiver.sock.inbox == []
  {
    var start := |sender.sock.outbox|;
    ghost var room := sender.sock.room;
    sent := sender.Send(box, data, nonce);
    var written := sender.sock.outbox[start..];
    assert written == SendOutcome(box, sender.key, nonce, data, room).1;
    receiver.sock.Deliver(written);
    got := receiver.Recv(box);
    if sent == Sent(|data| + MacBytes) {
      SendThenRecv(box, sender.key, nonce, data, room, []);
      assert written + [] == written == [] + written;
    }
  }
}
