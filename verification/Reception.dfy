/** What a receiver of the multicast stream makes of the datagrams. */
module Reception {
  import opened Bytes
  import opened Framing
  import opened Replay
  import opened Retransmission
  import opened Sequences
  import opened WholeRun
  import opened Wire
  import opened Wrappers
  import Buffer = RetransmissionBuffer
  import Builder = PacketBuilder

  lemma {:induction false} PackYieldsFrames(file: seq<Byte>, pos: nat, room: nat)
    requires pos <= |file|
    ensures AllFrames(Pack(file, pos, room).messages)
    ensures |Flatten(Pack(file, pos, room).messages)| <= room
    decreases |file| - pos
  {
    if Takes(file, pos, room) {
      var end := EndAt(file, pos);
      CompleteIsFrame(file, pos);
      PackYieldsFrames(file, end, room - (end - pos));
    }
  }

  // A packet holds only frames, stays within the MTU and has a 64-bit number.
  predicate Decent(env: Env, p: Packet) {
    AllFrames(p.messages) && |Flatten(p.messages)| <= env.Cap() && p.sequenceNumber < TWO_TO_THE_64
  }

  lemma IterationDecent(env: Env, s: State, i: nat)
    requires Sound(env, s) && i < |Iterate(env, s).packets|
    requires i < |s.packets| ==> Decent(env, s.packets[i])
    ensures Decent(env, Iterate(env, s).packets[i])
  {
    PackYieldsFrames(env.file, s.pos, env.Cap());
  }

  // Whatever the file, every packet is such.
  lemma {:induction false} PacketsWellFormed(env: Env, n: nat, i: nat)
    requires i < |Run(env, n).packets|
    ensures Decent(env, Run(env, n).packets[i])
    decreases n
  {
    if n > 0 {
      if i < |Run(env, n - 1).packets| { PacketsWellFormed(env, n - 1, i); }
      IterationDecent(env, Run(env, n - 1), i);
    }
  }

  // Below the MTU at which 65535 two-byte frames fit, no packet can be taken for the end of the session, and
  // the receiver gets back exactly the number and the messages that were sent.
  lemma ReceiverDecodes(env: Env, n: nat, i: nat, p: Packet)
    requires env.mtu < 131090 && i < |Run(env, n).packets| && p == Run(env, n).packets[i]
    ensures |p.messages| < END_OF_SESSION_COUNT && p.sequenceNumber < TWO_TO_THE_64
    ensures Decode(Encode(env.session, p))
         == Some(Datagram(env.session, p.sequenceNumber, |p.messages|, p.messages))
  {
    PacketsWellFormed(env, n, i);
    FewFrames(env, p.messages);
    RoundTripExact(env.session, p);
  }

  // Datagram i on the wire is packet i, header and messages.
  ghost predicate Carries(env: Env, wire: seq<seq<Byte>>, packets: seq<Packet>) {
    |wire| == |packets| && forall i | 0 <= i < |wire| :: wire[i] == Encode(env.session, packets[i])
  }

  lemma CarriesOneMore(env: Env, wire: seq<seq<Byte>>, packets: seq<Packet>, datagram: seq<Byte>, p: Packet)
    requires Carries(env, wire, packets) && datagram == Encode(env.session, p)
    ensures Carries(env, wire + [datagram], packets + [p])
  {
  }

  // A receiver makes of the datagram exactly the number and the messages of the packet.
  ghost predicate Understood(env: Env, datagram: seq<Byte>, p: Packet) {
    Decode(datagram).Some? &&
      var d := Decode(datagram).value;
      d.session == env.session && d.sequenceNumber == p.sequenceNumber && d.messages == p.messages
  }

  lemma WireUnderstood(env: Env, n: nat, wire: seq<seq<Byte>>)
    requires Carries(env, wire, Run(env, n).packets)
    ensures env.mtu < 131090 ==> forall i | 0 <= i < |wire| :: Understood(env, wire[i], Run(env, n).packets[i])
  {
    if env.mtu < 131090 {
      forall i | 0 <= i < |wire| ensures Understood(env, wire[i], Run(env, n).packets[i]) {
        ReceiverDecodes(env, n, i, Run(env, n).packets[i]);
      }
    }
  }

  lemma FewFrames(env: Env, ms: seq<Message>)
    requires env.mtu < 131090 && AllFrames(ms) && |Flatten(ms)| <= env.Cap()
    ensures |ms| < END_OF_SESSION_COUNT
  {
    FramesAtLeastPrefix(ms);
    Builder.TotalAtLeast(ms, PREFIX_SIZE);
  }

  lemma FramesAtLeastPrefix(ms: seq<Message>)
    requires AllFrames(ms)
    ensures forall i | 0 <= i < |ms| :: |ms[i]| >= PREFIX_SIZE
  {
    forall i | 0 <= i < |ms| ensures |ms[i]| >= PREFIX_SIZE {
      assert IsFrame(ms[i]);
    }
  }

  // Over a well-formed file every packet is received as data.
  lemma ReceivedAsData(env: Env, ms: seq<Message>, n: nat, i: nat, p: Packet)
    requires WellFormed(env, ms) && env.mtu < 131090 && i < |Run(env, n).packets| && p == Run(env, n).packets[i]
    ensures Decode(Encode(env.session, p)).Some? && KindOf(Decode(Encode(env.session, p)).value) == Data
  {
    PacketsNonempty(env, ms, n, i);
    ReceiverDecodes(env, n, i, p);
  }

  // A packet without messages, such as a truncated or oversized message gives rise to, is received as a heartbeat.
  lemma EmptyReceivedAsHeartbeat(session: seq<Byte>, q: U64)
    requires |session| == SESSION_SIZE
    ensures Decode(Encode(session, Packet(q, []))) == Some(Datagram(session, q, HEARTBEAT_COUNT, []))
  {
    RoundTripExact(session, Packet(q, []));
  }

  /** Only requests of this session are replied to. A client gets back exactly the number it asked for and the
      messages of the reply if and only if it holds fewer than 65535; so it does below that MTU, and at any MTU
      if it asked for fewer. */
  lemma ReplyReceived(env: Env, ring: Buffer.Ring, request: seq<Byte>, p: Packet)
    requires |ring.slots| == env.ringSize && Respond(env, ring, request) == Some(p)
    ensures |request| == HEADER_LENGTH && request[..SESSION_SIZE] == env.session
    ensures p.sequenceNumber == NumberAsked(request)
    ensures Decode(Encode(env.session, p)).Some?
    ensures |p.messages| < END_OF_SESSION_COUNT <==> Decode(Encode(env.session, p)).value.messages == p.messages
    ensures |p.messages| < END_OF_SESSION_COUNT ==>
              Decode(Encode(env.session, p)).value == Datagram(env.session, p.sequenceNumber, |p.messages|, p.messages)
    ensures env.mtu < 131090 || CountAsked(request) < END_OF_SESSION_COUNT ==> |p.messages| < END_OF_SESSION_COUNT
  {
    RespondYieldsFrames(env, ring, request, p);
    RoundTripExact(env.session, p);
    if env.mtu < 131090 { FewFrames(env, p.messages); }
  }

  lemma RespondYieldsFrames(env: Env, ring: Buffer.Ring, request: seq<Byte>, p: Packet)
    requires |ring.slots| == env.ringSize && Respond(env, ring, request) == Some(p)
    ensures |request| == HEADER_LENGTH && p.sequenceNumber < TWO_TO_THE_64
    ensures AllFrames(p.messages) && |Flatten(p.messages)| <= env.Cap() && |p.messages| <= CountAsked(request)
  {
    var pos := Buffer.Lookup(ring, NumberAsked(request)).value;
    CollectYieldsFrames(env.file, pos, env.Cap(), CountAsked(request));
  }
}
