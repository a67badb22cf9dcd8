/** Accumulates one packet: a header rewritten in place and a message block bounded by the MTU. */
module PacketBuilder {
  import Bits
  import opened Bytes
  import opened Framing
  import opened Sequences
  import opened Wire

  // The message block: iovecs_[1..] and the byte budget left for more.
  datatype Block = Block(remaining: nat, messages: seq<Message>)

  function Fresh(mtu: nat): Block
    requires mtu >= HEADER_LENGTH
  {
    Block(mtu - HEADER_LENGTH, [])
  }

  predicate Accepts(b: Block, m: Message) {
    0 < |m| <= b.remaining
  }

  function Added(b: Block, m: Message): Block {
    if Accepts(b, m) then Block(b.remaining - |m|, b.messages + [m]) else b
  }

  datatype Call = Reset | TryAdd(m: Message)

  // The block after any sequence of calls on a new builder.
  function After(mtu: nat, calls: seq<Call>): Block
    requires mtu >= HEADER_LENGTH
  {
    if calls == [] then Fresh(mtu)
    else match calls[|calls| - 1]
      case Reset => Fresh(mtu)
      case TryAdd(m) => Added(After(mtu, calls[..|calls| - 1]), m)
  }

  predicate OffersAtLeast(calls: seq<Call>, size: nat) {
    forall i | 0 <= i < |calls| :: calls[i].TryAdd? ==> |calls[i].m| >= size
  }

  // No byte is lost or invented, and every message held was offered.
  lemma {:induction false} Conservation(mtu: nat, calls: seq<Call>)
    requires mtu >= HEADER_LENGTH
    ensures After(mtu, calls).remaining + |Flatten(After(mtu, calls).messages)| == mtu - HEADER_LENGTH
    ensures forall i | 0 <= i < |After(mtu, calls).messages| :: TryAdd(After(mtu, calls).messages[i]) in calls
  {
    if calls != [] && calls[|calls| - 1].TryAdd? {
      var init := calls[..|calls| - 1];
      Conservation(mtu, init);
      FlattenSnoc(After(mtu, init).messages, calls[|calls| - 1].m);
    }
  }

  lemma Distribute(n: nat, size: nat)
    ensures (n + 1) * size == n * size + size
  {
  }

  lemma {:induction false} TotalAtLeast(ms: seq<Message>, size: nat)
    requires forall i | 0 <= i < |ms| :: |ms[i]| >= size
    ensures |Flatten(ms)| >= |ms| * size
  {
    if ms != [] {
      TotalAtLeast(ms[1..], size);
      Distribute(|ms[1..]|, size);
    }
  }

  lemma DivideBound(a: nat, size: nat, total: nat)
    requires size > 0 && a * size <= total
    ensures a <= total / size
  {
    Bits.MultipleSpread(size, a - total / size);
    assert size * (a - total / size) == a * size - (total - total % size);
  }

  // The iovec list (header plus one per message) never outgrows what the constructor reserved.
  lemma ReservationHolds(mtu: nat, minMessageSize: nat, calls: seq<Call>)
    requires mtu >= HEADER_LENGTH && minMessageSize >= 1
    requires OffersAtLeast(calls, minMessageSize)
    ensures 1 + |After(mtu, calls).messages| <= 1 + mtu / minMessageSize
  {
    var ms := After(mtu, calls).messages;
    Conservation(mtu, calls);
    TotalAtLeast(ms, minMessageSize);
    DivideBound(|ms|, minMessageSize, mtu);
  }

  function SmallestOffers(k: nat): (calls: seq<Call>)
    ensures |calls| == k
  {
    seq(k, _ => TryAdd([0, 0]))
  }

  lemma {:induction false} SmallestFill(mtu: nat, k: nat)
    requires HEADER_LENGTH + 2 * k <= mtu
    ensures After(mtu, SmallestOffers(k)).remaining == mtu - HEADER_LENGTH - 2 * k
    ensures |After(mtu, SmallestOffers(k)).messages| == k
  {
    if k > 0 {
      SmallestFill(mtu, k - 1);
      assert SmallestOffers(k)[..k - 1] == SmallestOffers(k - 1);
    }
  }

  // With prefixed messages the count stays below the end-of-session marker exactly for MTUs below 131090.
  lemma CountStaysClear(mtu: nat)
    requires mtu >= HEADER_LENGTH
    ensures (forall calls | OffersAtLeast(calls, PREFIX_SIZE) ::
               |After(mtu, calls).messages| < END_OF_SESSION_COUNT)
            <==> mtu < 131090
  {
    if mtu < 131090 {
      forall calls | OffersAtLeast(calls, PREFIX_SIZE)
        ensures |After(mtu, calls).messages| < END_OF_SESSION_COUNT
      {
        Conservation(mtu, calls);
        TotalAtLeast(After(mtu, calls).messages, PREFIX_SIZE);
      }
    } else {
      SmallestFill(mtu, 65535);
      assert OffersAtLeast(SmallestOffers(65535), PREFIX_SIZE);
    }
  }

  class PacketBuilder {
    const mtu: nat
    const minMessageSize: nat
    const header: array<Byte>
    var bytesRemaining: nat
    var messages: seq<Message>

    ghost predicate Valid()
      reads this, header
    {
      && mtu >= HEADER_LENGTH
      && header.Length == HEADER_LENGTH
      && bytesRemaining + |Flatten(messages)| == mtu - HEADER_LENGTH
    }

    function View(): Block
      reads this
    {
      Block(bytesRemaining, messages)
    }

    constructor (session: seq<Byte>, mtu: nat, minMessageSize: nat)
      requires mtu >= HEADER_LENGTH && |session| == SESSION_SIZE && minMessageSize > 0
      ensures Valid() && fresh(header)
      ensures this.mtu == mtu && View() == Fresh(mtu)
      ensures header[..] == session + seq(HEADER_LENGTH - SESSION_SIZE, _ => 0 as Byte)
    {
      this.mtu, this.minMessageSize := mtu, minMessageSize;
      header := new Byte[HEADER_LENGTH](_ => 0);
      bytesRemaining, messages := mtu - HEADER_LENGTH, [];
      new;
      var _ := Write(header, 0, session);
    }

    method TryAdd(m: Message) returns (ok: bool)
      requires Valid()
      modifies this
      ensures Valid()
      ensures ok <==> m != [] && |m| <= old(bytesRemaining)
      ensures messages == if ok then old(messages) + [m] else old(messages)
      ensures bytesRemaining == if ok then old(bytesRemaining) - |m| else old(bytesRemaining)
      ensures View() == Added(old(View()), m)
    {
      if |m| > bytesRemaining || m == [] {
        return false;
      }
      FlattenSnoc(messages, m);
      messages := messages + [m];
      bytesRemaining := bytesRemaining - |m|;
      ok := true;
    }

    method Reset(sequenceNumber: U64)
      requires Valid()
      modifies this, header
      ensures Valid()
      ensures View() == Fresh(mtu)
      ensures header[..] == Spliced(old(header[..]), SEQUENCE_NUMBER_OFFSET, BeBytes(sequenceNumber, 8))
      ensures header[..MESSAGE_COUNT_OFFSET] == old(header[..SESSION_SIZE]) + BeBytes(sequenceNumber, 8)
    {
      WordSizes();
      WriteAtBe(header, SEQUENCE_NUMBER_OFFSET, sequenceNumber, 8);
      messages := [];
      bytesRemaining := mtu - HEADER_LENGTH;
    }

    method MessageCount() returns (count: U16)
      ensures count == Count(messages)
    {
      count := |messages| % TWO_TO_THE_16;
    }

    method Session() returns (session: seq<Byte>)
      requires Valid()
      ensures session == header[..SESSION_SIZE]
    {
      session := header[..SESSION_SIZE];
    }

    // Writes the count and hands out header and messages for one gathered send. If the header carries
    // this session and number, the bytes are exactly the encoded packet.
    method Finalize(ghost session: seq<Byte>, ghost p: Packet) returns (datagram: seq<Byte>)
      requires Valid()
      modifies header
      ensures Valid()
      ensures header[..] == Spliced(old(header[..]), MESSAGE_COUNT_OFFSET, BeBytes(Count(messages), 2))
      ensures datagram == header[..] + Flatten(messages)
      ensures |session| == SESSION_SIZE && p.messages == messages
              && old(header[..MESSAGE_COUNT_OFFSET]) == session + BeBytes(p.sequenceNumber, 8)
              ==> datagram == Encode(session, p)
      ensures |datagram| <= mtu
    {
      WordSizes();
      var count := MessageCount();
      WriteAtBe(header, MESSAGE_COUNT_OFFSET, count, 2);
      datagram := header[..] + Flatten(messages);
    }
  }
}
