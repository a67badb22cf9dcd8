/** Answering requests: replies rebuilt from the file, starting where the ring says a number was. */
module Retransmission {
  import opened Bytes
  import opened Framing
  import opened Replay
  import opened Sequences
  import opened Wire
  import opened Wrappers
  import Builder = PacketBuilder
  import Buffer = RetransmissionBuffer

  // The messages build_packet puts in a reply: up to `count`, read from pos on, until one does not fit.
  function Collect(file: seq<Byte>, pos: nat, room: nat, count: nat): (ms: seq<Message>)
    ensures |ms| <= count
    decreases count
  {
    if count == 0 || !Takes(file, pos, room) then []
    else
      var end := EndAt(file, pos);
      [file[pos..end]] + Collect(file, end, room - (end - pos), count - 1)
  }

  // What recvfrom leaves in the 20-byte receive buffer: the rest of a longer datagram is discarded.
  function Received(datagram: seq<Byte>): seq<Byte> {
    if |datagram| <= HEADER_LENGTH then datagram else datagram[..HEADER_LENGTH]
  }

  // The fields of a request.
  function NumberAsked(request: seq<Byte>): U64
    requires |request| >= HEADER_LENGTH
  {
    WordSizes();
    BigEndianBound(request[SEQUENCE_NUMBER_OFFSET..MESSAGE_COUNT_OFFSET]);
    BigEndian(request[SEQUENCE_NUMBER_OFFSET..MESSAGE_COUNT_OFFSET])
  }

  function CountAsked(request: seq<Byte>): U16
    requires |request| >= HEADER_LENGTH
  {
    WordSizes();
    BigEndianBound(request[MESSAGE_COUNT_OFFSET..HEADER_LENGTH]);
    BigEndian(request[MESSAGE_COUNT_OFFSET..HEADER_LENGTH])
  }

  // parse_request and build_packet on the bytes received.
  function Respond(env: Env, ring: Buffer.Ring, request: seq<Byte>): (r: Option<Packet>)
    requires |ring.slots| == env.ringSize
    ensures r.Some? ==> |request| == HEADER_LENGTH && request[..SESSION_SIZE] == env.session
  {
    if |request| != HEADER_LENGTH || request[..SESSION_SIZE] != env.session then
      None
    else match Buffer.Lookup(ring, NumberAsked(request))
      case None => None
      case Some(pos) =>
        Some(Packet(NumberAsked(request), Collect(env.file, pos, env.Cap(), CountAsked(request))))
  }

  class Feed {
    const env: Env
    const ring: Buffer.RetransmissionBuffer  // shared with the downstream feed, never written here
    const builder: Builder.PacketBuilder
    const recvBuffer: array<Byte>

    ghost predicate Valid()
      reads this, ring, ring.buffer, builder, builder.header
    {
      && ring.Valid() && builder.Valid()
      && ring.buffer.Length == env.ringSize
      && builder.mtu == env.mtu
      && builder.header[..SESSION_SIZE] == env.session
      && recvBuffer.Length == HEADER_LENGTH
      && recvBuffer != builder.header
    }

    constructor (env: Env, ring: Buffer.RetransmissionBuffer)
      requires ring.Valid() && ring.buffer.Length == env.ringSize
      ensures Valid() && this.env == env && this.ring == ring
      ensures fresh(builder) && fresh(builder.header) && fresh(recvBuffer)
    {
      this.env, this.ring := env, ring;
      builder := new Builder.PacketBuilder(env.session, env.mtu, env.minMessageSize);
      recvBuffer := new Byte[HEADER_LENGTH](_ => 0);
    }

    // The ring's answer for the number in the receive buffer, unless the session is another one.
    method ParseRequest() returns (context: Option<(U64, U16, nat)>)
      requires Valid()
      ensures recvBuffer[..SESSION_SIZE] != env.session ==> context == None
      ensures recvBuffer[..SESSION_SIZE] == env.session ==>
              var start, count := NumberAsked(recvBuffer[..]), CountAsked(recvBuffer[..]);
              match Buffer.Lookup(ring.View(), start)
              case None => context == None
              case Some(pos) => context == Some((start, count, pos))
    {
      WordSizes();
      var request := recvBuffer[..];
      assert forall i, j | 0 <= i <= j <= HEADER_LENGTH :: recvBuffer[i..j] == request[i..j];
      var session := builder.Session();
      if request[..SESSION_SIZE] != session {
        return None;
      }
      var start, count, next;
      start, next := ReadBe(request, SEQUENCE_NUMBER_OFFSET, 8);
      var pos := ring.FilePositionFor(start);
      if pos.None? {
        return None;
      }
      count, next := ReadBe(request, MESSAGE_COUNT_OFFSET, 2);
      context := Some((start, count, pos.value));
    }

    // One pass through the loop: read a message and add it, or stop.
    method TakeMessage(pos: nat, ghost count: nat) returns (more: bool, next: nat)
      requires Valid() && count > 0
      modifies builder
      ensures Valid()
      ensures var all := old(builder.messages + Collect(env.file, pos, builder.bytesRemaining, count));
              all == if more then builder.messages + Collect(env.file, next, builder.bytesRemaining, count - 1)
                     else builder.messages
    {
      ghost var room, taken := builder.bytesRemaining, builder.messages;
      var message;
      message, next := ReadMessage(env.file, pos);
      if message == [] {
        return false, next;
      }
      more := builder.TryAdd(message);
      if more {
        CollectNext(env.file, pos, room, count, taken, message);
      }
    }

    method BuildPacket(start: U64, count: U16, pos: nat)
      requires Valid()
      modifies builder, builder.header
      ensures Valid()
      ensures builder.messages == Collect(env.file, pos, env.Cap(), count)
      ensures builder.header[..MESSAGE_COUNT_OFFSET] == env.session + BeBytes(start, 8)
    {
      var filePos := pos;
      builder.Reset(start);
      var i, more := 0, true;
      while i < count && more
        invariant Valid() && i <= count
        invariant builder.header[..MESSAGE_COUNT_OFFSET] == env.session + BeBytes(start, 8)
        invariant Collect(env.file, pos, env.Cap(), count)
               == if more then builder.messages + Collect(env.file, filePos, builder.bytesRemaining, count - i)
                  else builder.messages
        decreases count - i
      {
        more, filePos := TakeMessage(filePos, count - i);
        i := i + 1;
      }
    }

    // Parses what is in the receive buffer and builds the reply, if there is one to send.
    method Answer() returns (reply: Option<seq<Byte>>)
      requires Valid()
      modifies builder, builder.header
      ensures Valid()
      ensures match Respond(env, ring.View(), recvBuffer[..])
              case None => reply == None
              case Some(p) => reply == Some(Encode(env.session, p))
    {
      assert recvBuffer[..][..SESSION_SIZE] == recvBuffer[..SESSION_SIZE];
      var context := ParseRequest();
      if context.None? {
        return None;
      }
      var (start, count, pos) := context.value;
      BuildPacket(start, count, pos);
      var bytes := builder.Finalize(env.session, Packet(start, builder.messages));
      reply := Some(bytes);
    }

    // handle_request: at most one reply per datagram, and none to a short, foreign or unanswerable one.
    method HandleRequest(datagram: seq<Byte>) returns (reply: Option<seq<Byte>>)
      requires Valid()
      modifies builder, builder.header, recvBuffer
      ensures Valid()
      ensures |datagram| < HEADER_LENGTH || datagram[..SESSION_SIZE] != env.session ==> reply == None
      ensures |datagram| >= HEADER_LENGTH && datagram[..SESSION_SIZE] == env.session ==>
              var start, count := NumberAsked(datagram), CountAsked(datagram);
              match Buffer.Lookup(ring.View(), start)
              case None => reply == None
              case Some(pos) =>
                reply == Some(Encode(env.session, Packet(start, Collect(env.file, pos, env.Cap(), count))))
      ensures match Respond(env, ring.View(), Received(datagram))
              case None => reply == None
              case Some(p) => reply == Some(Encode(env.session, p))
    {
      var request := Received(datagram);
      var length := Write(recvBuffer, 0, request);
      if length != HEADER_LENGTH {
        return None;
      }
      assert recvBuffer[..] == request;
      ReceivedFields(datagram);
      reply := Answer();
    }
  }

  // Cutting a datagram to the buffer keeps the fields of the request.
  lemma ReceivedFields(datagram: seq<Byte>)
    requires |datagram| >= HEADER_LENGTH
    ensures |Received(datagram)| == HEADER_LENGTH && Received(datagram)[..SESSION_SIZE] == datagram[..SESSION_SIZE]
    ensures NumberAsked(Received(datagram)) == NumberAsked(datagram)
    ensures CountAsked(Received(datagram)) == CountAsked(datagram)
  {
    var request := Received(datagram);
    assert request[SEQUENCE_NUMBER_OFFSET..MESSAGE_COUNT_OFFSET]
        == datagram[SEQUENCE_NUMBER_OFFSET..MESSAGE_COUNT_OFFSET];
    assert request[MESSAGE_COUNT_OFFSET..HEADER_LENGTH] == datagram[MESSAGE_COUNT_OFFSET..HEADER_LENGTH];
  }

  lemma CollectNext(file: seq<Byte>, pos: nat, room: nat, count: nat, taken: seq<Message>, m: Message)
    requires count > 0 && Takes(file, pos, room) && m == file[pos..EndAt(file, pos)]
    ensures taken + Collect(file, pos, room, count)
         == (taken + [m]) + Collect(file, EndAt(file, pos), room - |m|, count - 1)
  {
  }

  // Whatever the file, a reply holds only frames and fits.
  lemma {:induction false} CollectYieldsFrames(file: seq<Byte>, pos: nat, room: nat, count: nat)
    ensures AllFrames(Collect(file, pos, room, count))
    ensures |Flatten(Collect(file, pos, room, count))| <= room
    decreases count
  {
    if count > 0 && Takes(file, pos, room) {
      var end := EndAt(file, pos);
      CompleteIsFrame(file, pos);
      CollectYieldsFrames(file, end, room - (end - pos), count - 1);
    }
  }
}
