/**
 * The socket under a session, as byte sequences: everything written so far,
 * how much more the connection will take, and what the peer sent that has not
 * been read yet (the stream ends after it).
 */
module Transport {
  import opened Wrappers
  import opened Encoding

  class Socket {
    /** Every byte written on this socket, in order. */
    var outbox: Bytes
    /** How many more bytes a write can place before it comes up short. */
    var room: nat
    /** Bytes received and not yet read; the connection ends after them. */
    var inbox: Bytes
    var closed: bool

    constructor (room: nat, inbox: Bytes)
      ensures this.outbox == [] && this.room == room && this.inbox == inbox && !closed
    {
      this.outbox := [];
      this.room := room;
      this.inbox := inbox;
      this.closed := false;
    }

    /** Net_Send: places as much of buf as fits and reports how many bytes went out. */
    method Send(buf: Bytes) returns (count: nat)
      modifies this
      ensures count == Min(|buf|, old(room))
      ensures outbox == old(outbox) + buf[..count] && room == old(room) - count
      ensures inbox == old(inbox) && closed == old(closed)
    {
      count := Min(|buf|, room);
      outbox := outbox + buf[..count];
      room := room - count;
    }

    /** Net_Recv: fills buf from the front of the stream, short when the stream ends first. */
    method Recv(buf: array<byte>) returns (count: nat)
      modifies this, buf
      ensures count == Min(buf.Length, |old(inbox)|)
      ensures buf[..count] == old(inbox)[..count] && buf[count..] == old(buf[count..])
      ensures inbox == old(inbox)[count..]
      ensures outbox == old(outbox) && room == old(room) && closed == old(closed)
    {
      count := Min(buf.Length, |inbox|);
      forall i | 0 <= i < count {
        buf[i] := inbox[i];
      }
      inbox := inbox[count..];
    }

    /** Bytes the peer sends arrive at the end of the stream. */
    method Deliver(bytes: Bytes)
      modifies this
      ensures inbox == old(inbox) + bytes
      ensures outbox == old(outbox) && room == old(room) && closed == old(closed)
    {
      inbox := inbox + bytes;
    }

    /** Net_Close */
    method Close()
      modifies this
      ensures closed
      ensures outbox == old(outbox) && room == old(room) && inbox == old(inbox)
    {
      closed := true;
    }
  }
}
