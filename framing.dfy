/**
 * The wire format of one message and what the two ends make of it, as
 * reference definitions: the frame Secure_Send builds, the bytes it leaves on
 * a connection that takes only `room` more bytes, and what Secure_Recv returns
 * and consumes on a given input stream. The Session methods are proved against
 * these; the properties of the protocol are lemmas about them.
 */
module Framing {
  import opened Wrappers
  import opened Encoding
  import opened Crypto

  /** sizeof(Secure_MsgSize): the length field is a 32-bit integer. */
  const SizeBytes: nat := 4
  /** The sealed length field. */
  const SizeCipherBytes: nat := SizeBytes + MacBytes
  /** Nonce and sealed length field: what precedes the payload on the wire. */
  const HeaderBytes: nat := NonceBytes + SizeCipherBytes

  /**
   * The protocol cap, SECURE_MAX_MSGSIZE. Its value is not fixed here. It is
   * assumed small enough that a message length plus the tag fits the signed
   * 32-bit `int` Secure_Send returns, and so also the 32-bit length field.
   */
  type MsgSizeCap = n: nat | n + MacBytes < 0x8000_0000
  const MaxMsgSize: MsgSizeCap

  /** Why an operation gave up. The C code reports every one of them as -1. */
  datatype Error = MessageTooLarge | EncryptFailed | ShortWrite | ShortRead | AuthFailed

  /** Secure_Send's return: -1, or what the transport reported for the payload write. */
  datatype SendResult = SendFailed(error: Error) | Sent(count: nat)

  /** Secure_Recv's return value and `*data`: -1 without plaintext, or the length and the plaintext. */
  datatype RecvResult = RecvFailed(error: Error) | Received(count: nat, data: Bytes)

  /** The three parts of a message, in wire order. */
  datatype Frame = Frame(nonce: Bytes, sizeCipher: Bytes, payloadCipher: Bytes)

  function Wire(f: Frame): Bytes
  {
    f.nonce + f.sizeCipher + f.payloadCipher
  }

  /**
   * The frame for `data` under a fresh nonce: the raw nonce, the big-endian
   * length sealed under it, and the payload sealed under the nonce with the
   * low bit of its first byte toggled.
   */
  function SealFrame(box: CryptoBox, key: Bytes, nonce: Bytes, data: Bytes): (r: Result<Frame, Error>)
    requires |nonce| == NonceBytes
    ensures |data| > MaxMsgSize ==> r == Failure(MessageTooLarge)
    ensures r.Success? ==> |data| <= MaxMsgSize && r.value.nonce == nonce
    ensures |data| <= MaxMsgSize ==>
      (r == Failure(EncryptFailed) <==>
        box.seal(key, nonce, ToBigEndian(|data|, SizeBytes)).None? || box.seal(key, FlipNonce(nonce), data).None?)
  {
    if |data| > MaxMsgSize then Failure(MessageTooLarge)
    else
      Pow256Four();
      match box.seal(key, nonce, ToBigEndian(|data|, SizeBytes))
      case None => Failure(EncryptFailed)
      case Some(sizeCipher) =>
        match box.seal(key, FlipNonce(nonce), data)
        case None => Failure(EncryptFailed)
        case Some(payloadCipher) => Success(Frame(nonce, sizeCipher, payloadCipher))
  }

  /**
   * Secure_Send on a connection that takes `room` more bytes: the result and
   * the bytes that reach the wire. Whatever happens, the bytes written are the
   * start of the frame; the header must go out whole for the payload to follow.
   */
  function SendOutcome(box: CryptoBox, key: Bytes, nonce: Bytes, data: Bytes, room: nat): (r: (SendResult, Bytes))
    requires |nonce| == NonceBytes
    ensures SealFrame(box, key, nonce, data).Failure? ==>
      r == (SendFailed(SealFrame(box, key, nonce, data).error), [])
    ensures SealFrame(box, key, nonce, data).Success? ==>
      r.1 <= Wire(SealFrame(box, key, nonce, data).value) && |r.1| <= room
    ensures r.0.Sent? ==> HeaderBytes + r.0.count <= room
  {
    match SealFrame(box, key, nonce, data)
    case Failure(e) => (SendFailed(e), [])
    case Success(f) =>
      var w := Wire(f);
      if room < HeaderBytes then
        (SendFailed(ShortWrite), w[..Min(room, |w|)])
      else
        (Sent(Min(|f.payloadCipher|, room - HeaderBytes)), w[..Min(room, |w|)])
  }

  /**
   * Secure_Recv on the input stream `input`: the result and how many bytes it
   * consumes. A short read consumes the rest of the stream.
   */
  function RecvOutcome(box: CryptoBox, key: Bytes, input: Bytes): (r: (RecvResult, nat))
    ensures r.1 <= |input|
    ensures r.0.Received? ==> r.0.count <= MaxMsgSize && r.1 == HeaderBytes + r.0.count + MacBytes
    ensures r.0.Received? ==>
      && |input| >= HeaderBytes
      && box.open(key, input[..NonceBytes], input[NonceBytes..HeaderBytes]).Some?
      && r.0.count == FromBigEndian(box.open(key, input[..NonceBytes], input[NonceBytes..HeaderBytes]).value)
  {
    if |input| < HeaderBytes then (RecvFailed(ShortRead), |input|)
    else
      var nonce := input[..NonceBytes];
      match box.open(key, nonce, input[NonceBytes..HeaderBytes])
      case None => (RecvFailed(AuthFailed), HeaderBytes)
      case Some(size) =>
        var n := FromBigEndian(size);
        if n > MaxMsgSize then (RecvFailed(MessageTooLarge), HeaderBytes)
        else if |input| < HeaderBytes + n + MacBytes then (RecvFailed(ShortRead), |input|)
        else
          var end := HeaderBytes + n + MacBytes;
          match box.open(key, FlipNonce(nonce), input[HeaderBytes..end])
          case None => (RecvFailed(AuthFailed), end)
          case Some(plain) => (Received(n, plain), end)
  }

  // ---------------------------------------------------------------- Send

  /** What a connection with `room` bytes left takes of a frame, part by part. */
  lemma WirePrefix(f: Frame, room: nat)
    requires |f.nonce| == NonceBytes && |f.sizeCipher| == SizeCipherBytes
    ensures room < NonceBytes ==> Wire(f)[..room] == f.nonce[..room]
    ensures NonceBytes <= room < HeaderBytes ==>
      Wire(f)[..room] == f.nonce + f.sizeCipher[..room - NonceBytes]
    ensures HeaderBytes <= room ==>
      Wire(f)[..Min(room, |Wire(f)|)] == f.nonce + f.sizeCipher + f.payloadCipher[..Min(|f.payloadCipher|, room - HeaderBytes)]
  {
    var w := Wire(f);
    if room < NonceBytes {
      assert w == f.nonce + (f.sizeCipher + f.payloadCipher);
    } else if room < HeaderBytes {
      assert w == f.nonce + f.sizeCipher + f.payloadCipher;
    } else {
      assert w[..HeaderBytes] == f.nonce + f.sizeCipher;
    }
  }

  /** An oversized message fails before anything is sealed or written. */
  lemma SendTooLargeWritesNothing(box: CryptoBox, key: Bytes, nonce: Bytes, data: Bytes, room: nat)
    requires |nonce| == NonceBytes && |data| > MaxMsgSize
    ensures SendOutcome(box, key, nonce, data, room) == (SendFailed(MessageTooLarge), [])
  {
  }

  /** The length field is the 4-byte network-order encoding of the length, and ntohl undoes it. */
  lemma SizeFieldRoundTrip(len: nat)
    requires len <= MaxMsgSize
    ensures Pow256(SizeBytes) == 0x1_0000_0000
    ensures |ToBigEndian(len, SizeBytes)| == SizeBytes
    ensures FromBigEndian(ToBigEndian(len, SizeBytes)) == len
  {
    Pow256Four();
    FromToBigEndian(len, SizeBytes);
  }

  /**
   * The layout of a sealed frame: the raw nonce, then 4 + tag bytes that open
   * under that nonce to the length, then length + tag bytes that open to the
   * payload under a different nonce, the toggled one.
   */
  lemma FrameLayout(box: CryptoBox, key: Bytes, nonce: Bytes, data: Bytes)
    requires Sound(box) && |nonce| == NonceBytes
    requires SealFrame(box, key, nonce, data).Success?
    ensures var f := SealFrame(box, key, nonce, data).value;
      && f.nonce == nonce
      && |f.sizeCipher| == SizeCipherBytes
      && |f.payloadCipher| == |data| + MacBytes
      && |Wire(f)| == HeaderBytes + |data| + MacBytes
      && box.open(key, nonce, f.sizeCipher) == Some(ToBigEndian(|data|, SizeBytes))
      && box.open(key, FlipNonce(nonce), f.payloadCipher) == Some(data)
      && FlipNonce(nonce) != nonce
  {
    Pow256Four();
    var f := SealFrame(box, key, nonce, data).value;
    assert |ToBigEndian(|data|, SizeBytes)| == SizeBytes;
    assert box.seal(key, nonce, ToBigEndian(|data|, SizeBytes)) == Some(f.sizeCipher);
    assert box.seal(key, FlipNonce(nonce), data) == Some(f.payloadCipher);
  }

  /**
   * A short write of the nonce or of the sealed length fails the send, and
   * nothing past the header reaches the wire.
   */
  lemma SendShortHeaderSkipsPayload(box: CryptoBox, key: Bytes, nonce: Bytes, data: Bytes, room: nat)
    requires Sound(box) && |nonce| == NonceBytes
    requires SealFrame(box, key, nonce, data).Success? && room < HeaderBytes
    ensures var f := SealFrame(box, key, nonce, data).value;
      && SendOutcome(box, key, nonce, data, room) == (SendFailed(ShortWrite), Wire(f)[..room])
      && Wire(f)[..room] == (nonce + f.sizeCipher)[..room]
  {
    FrameLayout(box, key, nonce, data);
    var f := SealFrame(box, key, nonce, data).value;
    assert Wire(f) == (nonce + f.sizeCipher) + f.payloadCipher;
  }

  /**
   * Once the header is out, Send returns what the transport took of the
   * payload ciphertext, which is length + tag when the connection has room for
   * the whole frame; the final write is not checked for a short count.
   */
  lemma SendReportsPayloadWrite(box: CryptoBox, key: Bytes, nonce: Bytes, data: Bytes, room: nat)
    requires Sound(box) && |nonce| == NonceBytes
    requires SealFrame(box, key, nonce, data).Success? && room >= HeaderBytes
    ensures var f := SealFrame(box, key, nonce, data).value;
      && SendOutcome(box, key, nonce, data, room).0 == Sent(Min(|data| + MacBytes, room - HeaderBytes))
      && (room >= |Wire(f)| ==> SendOutcome(box, key, nonce, data, room) == (Sent(|data| + MacBytes), Wire(f)))
  {
    FrameLayout(box, key, nonce, data);
    var w := Wire(SealFrame(box, key, nonce, data).value);
    assert w[..|w|] == w;
  }

  /**
   * Whatever Send reports as written fits the `int` Secure_Send returns: at
   * most length + tag, which the cap keeps below 2^31.
   */
  lemma SentCountFitsInt(box: CryptoBox, key: Bytes, nonce: Bytes, data: Bytes, room: nat)
    requires Sound(box) && |nonce| == NonceBytes
    requires SendOutcome(box, key, nonce, data, room).0.Sent?
    ensures SendOutcome(box, key, nonce, data, room).0.count <= |data| + MacBytes
    ensures SendOutcome(box, key, nonce, data, room).0.count < 0x8000_0000
  {
    FrameLayout(box, key, nonce, data);
  }

  // ---------------------------------------------------------------- Recv

  /**
   * Recv reads past the header only when the header is whole, the length
   * field authenticates and the declared length is within the cap: every
   * earlier failure leaves the payload unread.
   */
  lemma RecvReadsPayloadOnlyAfterValidHeader(box: CryptoBox, key: Bytes, input: Bytes)
    requires RecvOutcome(box, key, input).1 > HeaderBytes
    ensures |input| > HeaderBytes
    ensures box.open(key, input[..NonceBytes], input[NonceBytes..HeaderBytes]).Some?
    ensures FromBigEndian(box.open(key, input[..NonceBytes], input[NonceBytes..HeaderBytes]).value) <= MaxMsgSize
  {
  }

  /**
   * A successful Recv returns the declared length, the one the length field
   * authenticated to, and a plaintext of exactly that length that
   * authenticated under the toggled nonce; no other result carries plaintext.
   */
  lemma RecvReturnsOnlyAuthenticatedPlaintext(box: CryptoBox, key: Bytes, input: Bytes)
    requires Sound(box)
    requires RecvOutcome(box, key, input).0.Received?
    ensures box.open(key, input[..NonceBytes], input[NonceBytes..HeaderBytes]).Some?
    ensures var r := RecvOutcome(box, key, input).0;
      && r.count == FromBigEndian(box.open(key, input[..NonceBytes], input[NonceBytes..HeaderBytes]).value)
      && r.count <= MaxMsgSize
      && |r.data| == r.count
      && RecvOutcome(box, key, input).1 == HeaderBytes + r.count + MacBytes
      && box.open(key, FlipNonce(input[..NonceBytes]), input[HeaderBytes..HeaderBytes + r.count + MacBytes]) == Some(r.data)
  {
  }

  /**
   * Recv succeeds exactly when the whole header is there, the length field
   * authenticates, the declared length is within the cap, the stream holds
   * that many bytes plus the tag after the header, and they authenticate
   * under the toggled nonce. A short payload or a failed payload open is a
   * failure with no plaintext.
   */
  lemma RecvSucceedsExactlyOnValidFrame(box: CryptoBox, key: Bytes, input: Bytes)
    ensures RecvOutcome(box, key, input).0.Received? <==>
      && |input| >= HeaderBytes
      && box.open(key, input[..NonceBytes], input[NonceBytes..HeaderBytes]).Some?
      && var n := FromBigEndian(box.open(key, input[..NonceBytes], input[NonceBytes..HeaderBytes]).value);
         && n <= MaxMsgSize
         && |input| >= HeaderBytes + n + MacBytes
         && box.open(key, FlipNonce(input[..NonceBytes]), input[HeaderBytes..HeaderBytes + n + MacBytes]).Some?
  {
  }

  /**
   * The two failures after a valid header: a stream that ends before the
   * declared length + tag is a short read, and a payload that does not
   * authenticate under the toggled nonce is an authentication failure.
   */
  lemma RecvPayloadFailures(box: CryptoBox, key: Bytes, input: Bytes)
    requires |input| >= HeaderBytes
    requires box.open(key, input[..NonceBytes], input[NonceBytes..HeaderBytes]).Some?
    requires FromBigEndian(box.open(key, input[..NonceBytes], input[NonceBytes..HeaderBytes]).value) <= MaxMsgSize
    ensures var n := FromBigEndian(box.open(key, input[..NonceBytes], input[NonceBytes..HeaderBytes]).value);
      && (|input| < HeaderBytes + n + MacBytes ==> RecvOutcome(box, key, input) == (RecvFailed(ShortRead), |input|))
      && (|input| >= HeaderBytes + n + MacBytes
          && box.open(key, FlipNonce(input[..NonceBytes]), input[HeaderBytes..HeaderBytes + n + MacBytes]).None?
          ==> RecvOutcome(box, key, input) == (RecvFailed(AuthFailed), HeaderBytes + n + MacBytes))
  {
  }

  // ---------------------------------------------------------- round trip

  /**
   * A frame sealed for `data` is received as `data` with its length, and Recv
   * consumes exactly that frame, whatever follows it on the stream.
   */
  lemma {:induction false} FrameRoundTrip(box: CryptoBox, key: Bytes, nonce: Bytes, data: Bytes, rest: Bytes)
    requires Sound(box) && |nonce| == NonceBytes
    requires SealFrame(box, key, nonce, data).Success?
    ensures var f := SealFrame(box, key, nonce, data).value;
      RecvOutcome(box, key, Wire(f) + rest) == (Received(|data|, data), |Wire(f)|)
  {
    FrameLayout(box, key, nonce, data);
    SizeFieldRoundTrip(|data|);
    var f := SealFrame(box, key, nonce, data).value;
    var input := Wire(f) + rest;
    assert input[..NonceBytes] == nonce;
    assert input[NonceBytes..HeaderBytes] == f.sizeCipher;
    assert input[HeaderBytes..HeaderBytes + |data| + MacBytes] == f.payloadCipher;
  }

  /**
   * Sending `data` on a connection with room for the whole frame returns
   * length + tag, and receiving the bytes it wrote yields `data` and its
   * length, consuming exactly those bytes. The empty message included.
   */
  lemma SendThenRecv(box: CryptoBox, key: Bytes, nonce: Bytes, data: Bytes, room: nat, rest: Bytes)
    requires Sound(box) && |nonce| == NonceBytes
    requires SendOutcome(box, key, nonce, data, room).0 == Sent(|data| + MacBytes)
    ensures var written := SendOutcome(box, key, nonce, data, room).1;
      RecvOutcome(box, key, written + rest) == (Received(|data|, data), |written|)
  {
    FrameLayout(box, key, nonce, data);
    var w := Wire(SealFrame(box, key, nonce, data).value);
    assert w[..|w|] == w;
    assert SendOutcome(box, key, nonce, data, room).1 == w;
    FrameRoundTrip(box, key, nonce, data, rest);
  }

  /** An empty message makes a frame of header and tag alone and comes back empty. */
  lemma EmptyMessageRoundTrip(box: CryptoBox, key: Bytes, nonce: Bytes, room: nat)
    requires Sound(box) && |nonce| == NonceBytes
    requires SendOutcome(box, key, nonce, [], room).0 == Sent(MacBytes)
    ensures |SendOutcome(box, key, nonce, [], room).1| == HeaderBytes + MacBytes
    ensures RecvOutcome(box, key, SendOutcome(box, key, nonce, [], room).1) == (Received(0, []), HeaderBytes + MacBytes)
  {
    FrameLayout(box, key, nonce, []);
    SendThenRecv(box, key, nonce, [], room, []);
    assert SendOutcome(box, key, nonce, [], room).1 + [] == SendOutcome(box, key, nonce, [], room).1;
  }

  /**
   * When the payload write comes up short Send still reports success with the
   * short count. If the short write ended the connection, so that nothing
   * follows what was written, the peer gets a short read instead of the message.
   */
  lemma TruncatedPayloadIsShortRead(box: CryptoBox, key: Bytes, nonce: Bytes, data: Bytes, room: nat)
    requires Sound(box) && |nonce| == NonceBytes
    requires SendOutcome(box, key, nonce, data, room).0.Sent?
    requires SendOutcome(box, key, nonce, data, room).0.count < |data| + MacBytes
    ensures RecvOutcome(box, key, SendOutcome(box, key, nonce, data, room).1).0 == RecvFailed(ShortRead)
  {
    FrameLayout(box, key, nonce, data);
    SizeFieldRoundTrip(|data|);
    var f := SealFrame(box, key, nonce, data).value;
    var written := SendOutcome(box, key, nonce, data, room).1;
    WirePrefix(f, room);
    var taken := f.payloadCipher[..room - HeaderBytes];
    assert written == nonce + f.sizeCipher + taken;
    assert |written| < HeaderBytes + |data| + MacBytes;
    assert written[..NonceBytes] == nonce;
    assert written[NonceBytes..HeaderBytes] == f.sizeCipher;
  }

  /**
   * When the payload write comes up short but the connection carries on, the
   * peer's Recv takes the declared length + tag bytes anyway: it reads past
   * what this Send wrote, into whatever follows, and the stream loses its
   * frame boundaries.
   */
  lemma TruncatedPayloadDesyncs(box: CryptoBox, key: Bytes, nonce: Bytes, data: Bytes, room: nat, rest: Bytes)
    requires Sound(box) && |nonce| == NonceBytes
    requires SendOutcome(box, key, nonce, data, room).0.Sent?
    requires SendOutcome(box, key, nonce, data, room).0.count < |data| + MacBytes
    requires |SendOutcome(box, key, nonce, data, room).1| + |rest| >= HeaderBytes + |data| + MacBytes
    ensures var written := SendOutcome(box, key, nonce, data, room).1;
      && RecvOutcome(box, key, written + rest).1 == HeaderBytes + |data| + MacBytes
      && RecvOutcome(box, key, written + rest).1 > |written|
  {
    FrameLayout(box, key, nonce, data);
    SizeFieldRoundTrip(|data|);
    var f := SealFrame(box, key, nonce, data).value;
    var written := SendOutcome(box, key, nonce, data, room).1;
    WirePrefix(f, room);
    var taken := f.payloadCipher[..room - HeaderBytes];
    assert written == nonce + f.sizeCipher + taken;
    var input := written + rest;
    assert input[..NonceBytes] == nonce;
    assert input[NonceBytes..HeaderBytes] == f.sizeCipher;
  }
}
