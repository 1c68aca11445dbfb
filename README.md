# Secure session framing, modelled in Dafny

This project models the encrypted session layer of `src/connection/secure.c`. It covers:

- the two handshakes that create a session (`Secure_Connect`, `Secure_Accept`);
- the message framing that carries application data over it (`Secure_Send`, `Secure_Recv`);
- the teardown (`Secure_Close`).

One message goes on the wire as three parts:

1. a raw 24-byte nonce;
2. the message length as a 4-byte big-endian integer, sealed under that nonce (4 + 16 bytes);
3. the payload, sealed under the nonce with the low bit of its first byte toggled (length + 16 bytes).

Recv undoes this one step at a time. It gives up at the first short read, failed authentication or over-long declared length.

Files, leaf first:

- `wrappers.dfy`: `Option`, `Result` and `Min`.
- `encoding.dfy`: bytes, the network-order encoding behind `htonl`/`ntohl`, and the nonce toggle `nonce[0] ^= 1`.
- `crypto.dfy`: the libsodium primitives as an abstract `CryptoBox` (key agreement, seal, open). `Sound(box)` is the one assumption the protocol makes about them: a sealed text is the plaintext plus a 16-byte tag, and it opens back to the plaintext under the same key and nonce. `ZeroTagBox` is an insecure box that satisfies `Sound`, which shows the assumption is consistent. `Session.Send` and the Send and round-trip lemmas take `Sound(box)` as a precondition. This is an assumption about libsodium, not a demand on callers. `Session.Recv` does not need it.
- `transport.dfy`: the socket as byte sequences. `outbox` holds everything written. `room` is how many more bytes a write can place; a write beyond it comes up short after writing a prefix. `room` never grows back, so a short write in effect ends the connection. `inbox` holds the bytes not yet read; the stream ends after them, so a read past the end is short.
- `framing.dfy`: reference definitions and the protocol's properties. `SealFrame` is the frame for a message, `SendOutcome` is what Send returns and writes, and `RecvOutcome` is what Recv returns and consumes. The lemmas prove the round trip, the size cap, the layout, the distinct nonces and where each failure stops.
- `secure.dfy`: the `Session` class. `Send` and `Recv` work step by step on arrays and the socket, as the C code does, and are proved equal to `SendOutcome` and `RecvOutcome`. The file also holds `Connect`, `Accept` and a two-session `Exchange`.

The C functions return `-1` or `NULL` on every failure. The model returns `SendResult`, `RecvResult` or a null session instead. Each failed result carries an `Error` kind saying which check fired, which the C caller cannot see.

`SECURE_MAX_MSGSIZE` is defined in `secure.h`, which is not part of this model. `Framing.MaxMsgSize` is therefore a constant with no fixed value, and the results hold for every cap the model admits. The model ASSUMES a bound the source does not state: length + 16 is below 2^31. This has two consequences. A full payload write's count fits the `int` that `Secure_Send` returns. The length also fits the 32-bit field, so `htonl` never truncates it.

## Model

| member | source | states |
|---|---|---|
| Encoding.ToBigEndian | src/connection/secure.c:93 | the length field `htonl` lays out has exactly the requested width (4 bytes) |
| Encoding.FromBigEndian | src/connection/secure.c:180 | the value `ntohl` decodes from w bytes is below 256^w, so a decoded length always fits 32 bits |
| Encoding.FromToBigEndian | src/connection/secure.c:93 | decoding the network-order encoding of any n < 256^w gives n back |
| Encoding.ToFromBigEndian | src/connection/secure.c:180 | re-encoding a decoded byte string at its own width gives the same bytes, so the encoding is a bijection |
| Encoding.FlipLowBit | src/connection/secure.c:105 | `b ^ 1` changes the byte but keeps its upper seven bits |
| Encoding.FlipNonce | src/connection/secure.c:198 | `nonce[0] ^= 1` yields a nonce of the same length that differs in byte 0 only |
| Encoding.FlipNonceTwice | src/connection/secure.c:105-116 | the second toggle restores the original nonce |
| Framing.SealFrame | src/connection/secure.c:85-116 | the frame for a message: an over-cap length fails with `MessageTooLarge` before any sealing, a failed seal of the length or of the payload fails with `EncryptFailed`, and a built frame carries the raw nonce |
| Framing.SendOutcome | src/connection/secure.c:74-143 | what Send returns and writes on a connection with `room` bytes left: nothing when building the frame fails, otherwise a prefix of the frame no longer than `room`; a reported count leaves room for the whole header |
| Framing.RecvOutcome | src/connection/secure.c:145-224 | what Recv returns and how many bytes it consumes: never more than the stream holds; success needs an authenticated length field, reports the length `ntohl` decodes from it, within the cap, and consumes exactly header + length + MAC |
| Framing.SentCountFitsInt | src/connection/secure.c:136-142 | the count Send reports is at most len + MAC and fits the `int` it is returned through |
| Framing.SendTooLargeWritesNothing | src/connection/secure.c:85-91 | a message longer than the cap fails with nothing sealed and nothing written |
| Framing.SizeFieldRoundTrip | src/connection/secure.c:93 | the length field is the 4-byte network-order encoding of `len`, and `ntohl` returns `len` for every `len` up to the cap |
| Framing.FrameLayout | src/connection/secure.c:93-116 | a sealed frame is the raw nonce, 4 + MAC bytes that open under that nonce to the length, and len + MAC bytes that open to the payload under the toggled nonce, which differs from the raw one |
| Framing.WirePrefix | src/connection/secure.c:118-136 | with `room` bytes left, the transport takes part of the nonce, or the nonce and part of the sealed length, or the whole header and part of the payload ciphertext |
| Framing.SendShortHeaderSkipsPayload | src/connection/secure.c:118-134 | a short write of the nonce or the sealed length fails the send, and only a prefix of nonce and sealed length reaches the wire |
| Framing.SendReportsPayloadWrite | src/connection/secure.c:136-142 | once the header is out, Send returns what the transport took of the payload ciphertext: len + MAC with room for the whole frame, then having written exactly the frame |
| Framing.RecvReadsPayloadOnlyAfterValidHeader | src/connection/secure.c:154-186 | Recv consumes bytes past the header only when the header was read whole, the length field authenticated and the declared length is within the cap |
| Framing.RecvReturnsOnlyAuthenticatedPlaintext | src/connection/secure.c:169-223 | a successful Recv returns the declared length, the value `ntohl` decodes from the authenticated length field, at most the cap, and a plaintext of that length that opened under the toggled nonce; every other result carries no plaintext |
| Framing.RecvSucceedsExactlyOnValidFrame | src/connection/secure.c:154-223 | Recv succeeds if and only if the header is whole, the length field authenticates, the declared length is within the cap, the stream holds that length + MAC more bytes, and they authenticate under the toggled nonce |
| Framing.RecvPayloadFailures | src/connection/secure.c:188-218 | after a valid header, a stream ending before the declared length + MAC fails with a short read, and a payload that does not authenticate fails with no plaintext |
| Framing.FrameRoundTrip | src/connection/secure.c:74-224 | Recv on a sealed frame followed by anything returns the message and its length and consumes exactly the frame |
| Framing.SendThenRecv | src/connection/secure.c:74-224 | when Send returns len + MAC, Recv on the bytes it wrote returns exactly the message with return value its length |
| Framing.EmptyMessageRoundTrip | src/connection/secure.c:74-224 | the zero-length message travels as header + MAC bytes and is received as an empty plaintext |
| Framing.TruncatedPayloadIsShortRead | src/connection/secure.c:136-196 | when the unchecked final write comes up short and nothing follows it, Send still returns its count, and Recv on what was written fails with a short read |
| Framing.TruncatedPayloadDesyncs | src/connection/secure.c:136-196 | when the unchecked final write comes up short and more bytes follow on the stream, Recv consumes the full declared length + MAC, reading past what that Send wrote into the next bytes |
| Secure.Session.constructor | src/connection/secure.c:6 | a new session is bound to its connection and has no key yet |
| Secure.Session.Send | src/connection/secure.c:74-143 | the step-by-step send, with its in-place nonce toggles, returns and writes exactly `SendOutcome` and leaves the input side untouched |
| Secure.Session.Recv | src/connection/secure.c:145-224 | the step-by-step receive, with its in-place nonce toggle, returns exactly `RecvOutcome` and consumes exactly the bytes it names; nothing is written |
| Secure.Session.Close | src/connection/secure.c:226-231 | closing marks the connection closed and changes nothing else |
| Secure.Connect | src/connection/secure.c:3-35 | NULL when connecting fails; NULL with the connection closed when key derivation fails or the public-key write is short; otherwise a fresh session holding the derived key; the only bytes written are (a prefix of) its public key |
| Secure.Accept | src/connection/secure.c:46-72 | reads exactly the peer's public key; NULL with the connection closed on a short read or a failed key derivation; otherwise a fresh session holding the key derived from the received public key; nothing is written |
| Secure.Exchange | src/connection/secure.c:74-224 | between two sessions sharing a key, a send that reports len + MAC written is received as exactly the message, and the receiver's stream is left empty |

## Where the code and its design notes differ

The model follows the code in each case.

- Key derivation: the design notes say key agreement never fails by itself. `Secure_Connect` and `Secure_Accept` do check `Secure_GenSharedKey` and fail on it, so the model has that branch.
- Accept failure: the design notes say a failed accept propagates. `Secure_Accept` ignores the result of `Secure_AcceptSocket`, so the model takes the accepted connection as given and has no branch for it.
- The final write: the design notes say every short write aborts Send. `Secure_Send` does not check the payload write and returns its count. `SendReportsPayloadWrite`, `TruncatedPayloadIsShortRead` and `TruncatedPayloadDesyncs` state what follows from that.
- The `pub` parameter: `Secure_Accept` takes the own public key but never sends it.

## Left out

- Cryptography: seal, open and key agreement are arbitrary functions. The model assumes only `Sound`. It proves nothing about secrecy, tamper detection beyond a failed open, or the two sides deriving equal keys; `Exchange` and `SendThenRecv` take a shared key as given.
- Nonce generation (`Secure_GenNonce`): it is random, so the nonce is a parameter of `Send`. Nonces of different messages are not compared.
- The transport (`Net_Send`, `Net_Recv`, `Net_Close`, `Secure_ConnectSocket`, `Secure_AcceptSocket`, `Secure_StartServer`): these are modelled only by the `Socket` byte sequences. A connect failure is a null socket. Transport errors other than a short count are not modelled.
- `Secure_SendPublicKey` and `Secure_RecvPublicKey` are not part of this model. Each is taken to be one exact write or read of a 32-byte public key that fails on a short count.
- Memory: `malloc`, `free`, `Secure_NewSession` returning NULL, the failed allocation of `*data` (src/connection/secure.c:200-208), leak-freedom and key zeroisation are not modelled. Dafny manages memory.
- Framing.EmptyMessageRoundTrip: for the zero-length message `Secure_Recv` calls `malloc(0)` (src/connection/secure.c:200), which C allows to return NULL; there the C code fails that Recv with -1, while the model and this lemma receive an empty plaintext.
- The -1 wrap-around: `Secure_Recv` returns -1 through a `size_t`. The model returns a result value instead of the wrapped number.
- Use after close: `Secure_Close` frees the session, so later use is undefined in C. `Session.Send`, `Session.Recv` and `Session.Close` require an open connection instead of modelling that.
- `Error_Print` logging and concurrent use of a session from two threads are not modelled.
