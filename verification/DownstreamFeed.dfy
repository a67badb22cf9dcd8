/** The downstream feed object: the loop, the packet builder and the ring it drives. */
module DownstreamFeed {
  import opened Bytes
  import opened Framing
  import opened Wire
  import opened Reception
  import opened Replay
  import opened Wrappers
  import Builder = PacketBuilder
  import Buffer = RetransmissionBuffer
  import Timestamp

  // peek_timestamp
  method PeekTimestamp(env: Env, pos: nat) returns (timestamp: Option<nat>)
    requires pos <= |env.file|
    ensures timestamp == if |env.file| - pos < PEEK_SIZE then None else Some(env.TimestampAt(pos))
  {
    if |env.file| - pos < PEEK_SIZE {
      return None;
    }
    var bytes := (env.file + env.beyond)[pos + PREFIX_SIZE..];
    timestamp := Some(Timestamp.Extract(bytes));
    Timestamp.ExtractIsBigEndian(bytes);
    Timestamp.SameValue(bytes, Timestamp.TIMESTAMP_OFFSET, env.file + env.beyond,
                        pos + PREFIX_SIZE + Timestamp.TIMESTAMP_OFFSET, Timestamp.TIMESTAMP_SIZE);
  }

  class Feed {
    const env: Env
    const ring: Buffer.RetransmissionBuffer
    const builder: Builder.PacketBuilder
    var filePos: nat
    var sequenceNumber: U64
    var sentSequenceNumber: U64
    ghost var log: seq<nat>
    ghost var packets: seq<Packet>
    ghost var wire: seq<seq<Byte>>  // datagrams handed to sendmsg

    ghost predicate Valid()
      reads this, ring, ring.buffer, builder, builder.header
    {
      && ring.Valid() && builder.Valid()
      && builder.mtu == env.mtu
      && builder.header[..SESSION_SIZE] == env.session
      && ring.buffer.Length == env.ringSize
      && filePos <= |env.file| && sequenceNumber == |log| + 1 && 2 * |log| <= filePos
      && ring.View() == Buffer.PushAll(env.ringSize, log)
      && Carries(env, wire, packets)
    }

    ghost function View(halted: bool): State
      reads this
    {
      State(filePos, sequenceNumber, log, packets, halted)
    }

    constructor (env: Env)
      ensures Valid() && this.env == env
      ensures View(false) == Initial && sentSequenceNumber == 1
      ensures fresh(ring) && fresh(ring.buffer) && fresh(builder) && fresh(builder.header)
    {
      this.env := env;
      ring := new Buffer.RetransmissionBuffer(env.ringSize);
      builder := new Builder.PacketBuilder(env.session, env.mtu, env.minMessageSize);
      filePos, sequenceNumber, sentSequenceNumber := 0, 1, 1;
      log, packets, wire := [], [], [];
    }

    // Pushes the position of the message just accepted under the next number.
    method Record(messageFilePos: nat)
      requires Valid() && 2 * |log| + 2 <= filePos
      modifies this`sequenceNumber, this`log, ring, ring.buffer
      ensures Valid()
      ensures sequenceNumber == old(sequenceNumber) + 1
      ensures log == old(log) + [messageFilePos]
    {
      Buffer.PushAllSnoc(env.ringSize, log, messageFilePos);
      ring.Push(Buffer.Record(sequenceNumber, messageFilePos));
      sequenceNumber := sequenceNumber + 1;
      log := log + [messageFilePos];
    }

    ghost function Building(starts: seq<nat>): Packed
      requires filePos <= |env.file|
      reads this, builder
    {
      Completion(env.file, filePos, builder.bytesRemaining, builder.messages, starts)
    }

    // Adds the message just read, which starts at messageFilePos; rolls back if it does not fit.
    method Offer(message: Message, messageFilePos: nat, ghost starts: seq<nat>) returns (more: bool)
      requires Valid() && Complete(env.file, messageFilePos) && filePos == EndAt(env.file, messageFilePos)
      requires 2 * |log| <= messageFilePos && message == env.file[messageFilePos..filePos]
      modifies this`filePos, this`sequenceNumber, this`log, ring, ring.buffer, builder
      ensures Valid() && filePos == if more then old(filePos) else messageFilePos
      ensures log == if more then old(log) + [messageFilePos] else old(log)
      ensures !more ==> builder.messages == old(builder.messages)
      ensures Completion(env.file, messageFilePos, old(builder.bytesRemaining), old(builder.messages), starts)
           == if more then Building(starts + [messageFilePos]) else Packed(builder.messages, starts, filePos)
    {
      ghost var room, taken := builder.bytesRemaining, builder.messages;
      more := builder.TryAdd(message);
      if !more {
        CompletionDone(env.file, messageFilePos, room, taken, starts);
        filePos := messageFilePos;
        return;
      }
      CompletionNext(env.file, messageFilePos, room, taken, starts, message);
      Record(messageFilePos);
    }

    // One pass through build_packet's loop: take a message, or stop with the packet as it is.
    method TakeMessage(ghost starts: seq<nat>) returns (more: bool)
      requires Valid()
      modifies this`filePos, this`sequenceNumber, this`log, ring, ring.buffer, builder
      ensures Valid()
      ensures more ==> filePos > old(filePos)
      ensures log == if more then old(log) + [old(filePos)] else old(log)
      ensures !more ==> builder.messages == old(builder.messages)
      ensures old(Building(starts))
           == if more then Building(starts + [old(filePos)]) else Packed(builder.messages, starts, filePos)
    {
      var messageFilePos := filePos;
      var message;
      message, filePos := ReadMessage(env.file, filePos);
      if message == [] {
        CompletionDone(env.file, messageFilePos, builder.bytesRemaining, builder.messages, starts);
        return false;
      }
      more := Offer(message, messageFilePos, starts);
    }

    // build_packet's loop: fills the builder from the file and records every accepted message in the ring.
    method Fill() returns (ghost starts: seq<nat>)
      requires Valid()
      modifies this`filePos, this`sequenceNumber, this`log, ring, ring.buffer, builder
      ensures Valid()
      ensures log == old(log) + starts
      ensures old(Building([])) == Packed(builder.messages, starts, filePos)
    {
      starts := [];
      var more := true;
      while more && filePos < |env.file|
        invariant Valid()
        invariant log == old(log) + starts
        invariant old(Building([])) == if more then Building(starts) else Packed(builder.messages, starts, filePos)
        decreases more, |env.file| - filePos
      {
        ghost var start := filePos;
        more := TakeMessage(starts);
        if more { starts := starts + [start]; }
      }
      if more {
        CompletionDone(env.file, filePos, builder.bytesRemaining, builder.messages, starts);
      }
    }

    method BuildPacket() returns (ghost starts: seq<nat>)
      requires Valid()
      modifies this`filePos, this`sequenceNumber, this`log, ring, ring.buffer, builder, builder.header
      ensures Valid()
      ensures log == old(log) + starts
      ensures Pack(env.file, old(filePos), env.Cap()) == Packed(builder.messages, starts, filePos)
      ensures builder.header[..MESSAGE_COUNT_OFFSET] == env.session + BeBytes(old(sequenceNumber), 8)
    {
      builder.Reset(sequenceNumber);
      assert Building([]) == Pack(env.file, filePos, env.Cap());
      starts := Fill();
    }

    // Stores the counter the heartbeat reads, then sends.
    method SendPacket(ghost p: Packet)
      requires Valid()
      requires builder.messages == p.messages
      requires builder.header[..MESSAGE_COUNT_OFFSET] == env.session + BeBytes(p.sequenceNumber, 8)
      modifies this`sentSequenceNumber, this`packets, this`wire, builder.header
      ensures Valid()
      ensures sentSequenceNumber == sequenceNumber
      ensures packets == old(packets) + [p]
      ensures wire == old(wire) + [Encode(env.session, p)]
    {
      var datagram := builder.Finalize(env.session, p);
      sentSequenceNumber := sequenceNumber;
      CarriesOneMore(env, wire, packets, datagram, p);
      packets := packets + [p];
      wire := wire + [datagram];
    }

    // build_packet, then send_packet: what an iteration that does not skip does.
    method Emit()
      requires Valid()
      modifies this, ring, ring.buffer, builder, builder.header
      ensures Valid() && sentSequenceNumber == sequenceNumber
      ensures View(false) == Emitted(env, old(View(false)))
    {
      ghost var starts := BuildPacket();
      SendPacket(Packet(old(sequenceNumber), builder.messages));
    }

    // One pass through the body of the replay loop.
    method Advance() returns (halted: bool)
      requires Valid() && filePos < |env.file| && sentSequenceNumber == sequenceNumber
      modifies this, ring, ring.buffer, builder, builder.header
      ensures Valid()
      ensures View(halted) == Iterate(env, old(View(false)))
      ensures sentSequenceNumber == sequenceNumber
    {
      var timestamp := PeekTimestamp(env, filePos);
      if timestamp.None? {
        return true;
      }
      if timestamp.value < env.skipBefore {
        var ok;
        ok, filePos := SkipMessage(env.file, filePos);
        return !ok;
      }
      Emit();
      halted := false;
    }

    // The replay loop; stop_requested() is first true at the test after `checks` iterations.
    method Replay(checks: nat)
      requires Valid() && View(false) == Initial && sentSequenceNumber == 1
      modifies this, ring, ring.buffer, builder, builder.header
      ensures Valid()
      ensures View(Run(env, checks).halted) == Run(env, checks)
      ensures sentSequenceNumber == sequenceNumber
      ensures |wire| == |Run(env, checks).packets|
      ensures forall i | 0 <= i < |wire| :: wire[i] == Encode(env.session, Run(env, checks).packets[i])
      ensures env.mtu < 131090 ==> forall i | 0 <= i < |wire| :: Understood(env, wire[i], Run(env, checks).packets[i])
    {
      var i := 0;
      while filePos < |env.file| && i < checks
        invariant Valid() && i <= checks
        invariant View(false) == Run(env, i)
        invariant sentSequenceNumber == sequenceNumber
        decreases checks - i
      {
        var halted := Advance();
        i := i + 1;
        if halted {
          HaltedStays(env, i, checks);
          WireUnderstood(env, checks, wire);
          return;
        }
      }
      if i < checks {
        HaltedStays(env, i + 1, checks);
      }
      WireUnderstood(env, checks, wire);
    }

    // The datagram end_of_session repeats once the loop is over.
    method EndOfSession() returns (datagram: seq<Byte>)
      requires Valid()
      ensures datagram == Header(env.session, sequenceNumber, END_OF_SESSION_COUNT)
      ensures Decode(datagram) == Some(Datagram(env.session, sequenceNumber, END_OF_SESSION_COUNT, []))
    {
      WordSizes();
      var eos := new Byte[HEADER_LENGTH](_ => 0);
      var session := builder.Session();
      var _ := Write(eos, 0, session);
      WriteAtBe(eos, SEQUENCE_NUMBER_OFFSET, sequenceNumber, 8);
      assert eos[..MESSAGE_COUNT_OFFSET] == env.session + BeBytes(sequenceNumber, 8);
      WriteAtBe(eos, MESSAGE_COUNT_OFFSET, END_OF_SESSION_COUNT, 2);
      datagram := eos[..];
      ControlRoundTrip(env.session, sequenceNumber, END_OF_SESSION_COUNT);
    }
  }
}
