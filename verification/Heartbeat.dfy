/** The heartbeat sender: one header-only packet, rewritten in place for every send. */
module Heartbeat {
  import opened Bytes
  import opened Wire
  import opened Wrappers

  class Heartbeat {
    const session: seq<Byte>
    const packet: array<Byte>

    // Everything but the number is written once.
    ghost predicate Valid()
      reads this, packet
    {
      && |session| == SESSION_SIZE && packet.Length == HEADER_LENGTH
      && packet[..SEQUENCE_NUMBER_OFFSET] == session
      && packet[MESSAGE_COUNT_OFFSET..] == BeBytes(HEARTBEAT_COUNT, 2)
    }

    constructor (session: seq<Byte>)
      requires |session| == SESSION_SIZE
      ensures Valid() && fresh(packet) && this.session == session
    {
      this.session := session;
      packet := new Byte[HEADER_LENGTH](_ => 0);
      new;
      var _ := Write(packet, 0, session);
      WriteAtBe(packet, MESSAGE_COUNT_OFFSET, HEARTBEAT_COUNT, 2);
    }

    // `counter` is the shared counter as loaded at the start of the send.
    method Send(counter: U64) returns (datagram: seq<Byte>)
      requires Valid()
      modifies packet
      ensures Valid()
      ensures datagram == packet[..] == Header(session, counter, HEARTBEAT_COUNT)
      ensures Decode(datagram) == Some(Datagram(session, counter, HEARTBEAT_COUNT, []))
    {
      WriteAtBe(packet, SEQUENCE_NUMBER_OFFSET, counter, 8);
      datagram := packet[..];
      ControlRoundTrip(session, counter, HEARTBEAT_COUNT);
    }
  }
}
