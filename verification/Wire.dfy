/** MoldUDP64 downstream datagrams: 20-byte header, then the message block. */
module Wire {
  import opened Bytes
  import opened Framing
  import opened Sequences
  import opened Wrappers

  const SESSION_SIZE := 10
  const SEQUENCE_NUMBER_OFFSET := 10
  const MESSAGE_COUNT_OFFSET := 18
  const HEADER_LENGTH := 20
  const HEARTBEAT_COUNT: U16 := 0
  const END_OF_SESSION_COUNT: U16 := 0xFFFF

  datatype Packet = Packet(sequenceNumber: nat, messages: seq<Message>)

  function Header(session: seq<Byte>, sequenceNumber: nat, count: U16): seq<Byte> {
    session + BeBytes(sequenceNumber, 8) + BeBytes(count, 2)
  }

  // message_count() narrows the number of messages to 16 bits.
  function Count(messages: seq<Message>): (count: U16)
    ensures count <= |messages|
    ensures |messages| < TWO_TO_THE_16 ==> count == |messages|
  {
    |messages| % TWO_TO_THE_16
  }

  function Encode(session: seq<Byte>, p: Packet): seq<Byte> {
    Header(session, p.sequenceNumber, Count(p.messages)) + Flatten(p.messages)
  }

  // What a receiver makes of a datagram: header fields, then `count` length-prefixed messages.
  datatype Datagram = Datagram(session: seq<Byte>, sequenceNumber: U64, count: U16, messages: seq<Message>)

  function TakeFrames(block: seq<Byte>, pos: nat, count: nat): Option<seq<Message>>
    decreases count
  {
    if count == 0 then
      Some([])
    else if !Complete(block, pos) then None
    else match TakeFrames(block, EndAt(block, pos), count - 1)
      case None => None
      case Some(rest) => Some([block[pos..EndAt(block, pos)]] + rest)
  }

  function Decode(bytes: seq<Byte>): Option<Datagram> {
    if |bytes| < HEADER_LENGTH then
      None
    else
      WordSizes();
      BigEndianBound(bytes[MESSAGE_COUNT_OFFSET..HEADER_LENGTH]);
      BigEndianBound(bytes[SEQUENCE_NUMBER_OFFSET..MESSAGE_COUNT_OFFSET]);
      var count := BigEndian(bytes[MESSAGE_COUNT_OFFSET..HEADER_LENGTH]);
      match TakeFrames(bytes[HEADER_LENGTH..], 0, Listed(count))
      case None => None
      case Some(messages) =>
        var number := BigEndian(bytes[SEQUENCE_NUMBER_OFFSET..MESSAGE_COUNT_OFFSET]);
        Some(Datagram(bytes[..SESSION_SIZE], number, count, messages))
  }

  lemma HeaderFields(session: seq<Byte>, sequenceNumber: U64, count: U16, block: seq<Byte>)
    requires |session| == SESSION_SIZE
    ensures var bytes := Header(session, sequenceNumber, count) + block;
            && |bytes| == HEADER_LENGTH + |block|
            && bytes[..SESSION_SIZE] == session
            && BigEndian(bytes[SEQUENCE_NUMBER_OFFSET..MESSAGE_COUNT_OFFSET]) == sequenceNumber
            && BigEndian(bytes[MESSAGE_COUNT_OFFSET..HEADER_LENGTH]) == count
            && bytes[HEADER_LENGTH..] == block
  {
    WordSizes();
    var bytes := Header(session, sequenceNumber, count) + block;
    assert bytes[SEQUENCE_NUMBER_OFFSET..MESSAGE_COUNT_OFFSET] == BeBytes(sequenceNumber, 8);
    assert bytes[MESSAGE_COUNT_OFFSET..HEADER_LENGTH] == BeBytes(count, 2);
    DigitsDenote(sequenceNumber, 8);
    DigitsDenote(count, 2);
  }

  // The fields of a bare header.
  lemma HeaderAlone(session: seq<Byte>, sequenceNumber: U64, count: U16)
    requires |session| == SESSION_SIZE
    ensures var bytes := Header(session, sequenceNumber, count);
            && |bytes| == HEADER_LENGTH
            && bytes[..SESSION_SIZE] == session
            && BigEndian(bytes[SEQUENCE_NUMBER_OFFSET..MESSAGE_COUNT_OFFSET]) == sequenceNumber
            && BigEndian(bytes[MESSAGE_COUNT_OFFSET..HEADER_LENGTH]) == count
  {
    HeaderFields(session, sequenceNumber, count, []);
    assert Header(session, sequenceNumber, count) + [] == Header(session, sequenceNumber, count);
  }

  lemma {:induction false} TakeFramesBack(ms: seq<Message>, k: nat, count: nat)
    requires AllFrames(ms) && k + count <= |ms|
    ensures TakeFrames(Flatten(ms), Boundary(ms, k), count) == Some(ms[k..k + count])
    decreases count
  {
    if count > 0 {
      ScanAtBoundary(ms, k);
      TakeFramesBack(ms, k + 1, count - 1);
      assert ms[k..k + count] == [ms[k]] + ms[k + 1..k + count];
    } else {
      assert ms[k..k + count] == [];
    }
  }

  // Reading as many messages as the count says gives back the block exactly when the count did not wrap.
  lemma BlockRoundTrip(ms: seq<Message>)
    requires AllFrames(ms)
    ensures TakeFrames(Flatten(ms), 0, Count(ms)) == Some(ms) <==> |ms| < TWO_TO_THE_16
  {
    BoundaryEnds(ms);
    TakeFramesBack(ms, 0, Count(ms));
    assert ms[0..Count(ms)] == ms <==> Count(ms) == |ms|;
  }

  // How many messages a receiver reads that first tests for the end of the session: the special counts announce none.
  function Listed(count: U16): nat {
    if count == END_OF_SESSION_COUNT then 0 else count
  }

  lemma DecodeParts(bytes: seq<Byte>, d: Datagram)
    requires |bytes| >= HEADER_LENGTH
    requires bytes[..SESSION_SIZE] == d.session
    requires BigEndian(bytes[SEQUENCE_NUMBER_OFFSET..MESSAGE_COUNT_OFFSET]) == d.sequenceNumber
    requires BigEndian(bytes[MESSAGE_COUNT_OFFSET..HEADER_LENGTH]) == d.count
    requires TakeFrames(bytes[HEADER_LENGTH..], 0, Listed(d.count)) == Some(d.messages)
    ensures Decode(bytes) == Some(d)
  {
  }

  // Decoding an encoded packet gives back its session, its number and the messages its count announces.
  lemma RoundTrip(session: seq<Byte>, p: Packet)
    requires |session| == SESSION_SIZE && AllFrames(p.messages) && p.sequenceNumber < TWO_TO_THE_64
    ensures var n := Count(p.messages);
            Decode(Encode(session, p)) == Some(Datagram(session, p.sequenceNumber, n, p.messages[..Listed(n)]))
  {
    var n := Count(p.messages);
    HeaderFields(session, p.sequenceNumber, n, Flatten(p.messages));
    BoundaryEnds(p.messages);
    TakeFramesBack(p.messages, 0, Listed(n));
    assert p.messages[..Listed(n)] == p.messages[0..Listed(n)];
    var bytes := Encode(session, p);
    assert bytes[HEADER_LENGTH..] == Flatten(p.messages);
    DecodeParts(bytes, Datagram(session, p.sequenceNumber, n, p.messages[..Listed(n)]));
  }

  // All messages survive exactly when there are fewer than 65535 of them.
  lemma RoundTripExact(session: seq<Byte>, p: Packet)
    requires |session| == SESSION_SIZE && AllFrames(p.messages) && p.sequenceNumber < TWO_TO_THE_64
    ensures Decode(Encode(session, p)).Some?
    ensures |p.messages| < END_OF_SESSION_COUNT <==> Decode(Encode(session, p)).value.messages == p.messages
    ensures |p.messages| < END_OF_SESSION_COUNT ==>
              Decode(Encode(session, p)).value == Datagram(session, p.sequenceNumber, |p.messages|, p.messages)
  {
    RoundTrip(session, p);
    assert |p.messages[..Listed(Count(p.messages))]| == Listed(Count(p.messages));
  }

  // Two packets that leave as the same bytes are the same packet.
  lemma EncodeInjective(session: seq<Byte>, p: Packet, q: Packet)
    requires |session| == SESSION_SIZE && AllFrames(p.messages) && AllFrames(q.messages)
    requires p.sequenceNumber < TWO_TO_THE_64 && q.sequenceNumber < TWO_TO_THE_64
    requires Encode(session, p) == Encode(session, q)
    ensures p == q
  {
    HeaderFields(session, p.sequenceNumber, Count(p.messages), Flatten(p.messages));
    HeaderFields(session, q.sequenceNumber, Count(q.messages), Flatten(q.messages));
    FramingIsUnique(p.messages, q.messages);
  }

  datatype Kind = Data | Heartbeat | EndOfSession

  function KindOf(d: Datagram): Kind {
    if d.count == HEARTBEAT_COUNT then Heartbeat
    else if d.count == END_OF_SESSION_COUNT then EndOfSession
    else Data
  }

  // Header-only datagrams: heartbeats and end of session.
  lemma ControlRoundTrip(session: seq<Byte>, sequenceNumber: U64, count: U16)
    requires |session| == SESSION_SIZE
    requires count == HEARTBEAT_COUNT || count == END_OF_SESSION_COUNT
    ensures Decode(Header(session, sequenceNumber, count)) == Some(Datagram(session, sequenceNumber, count, []))
  {
    HeaderFields(session, sequenceNumber, count, []);
    assert Header(session, sequenceNumber, count) + [] == Header(session, sequenceNumber, count);
  }
}
