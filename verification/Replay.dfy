/** What the downstream loop does, iteration by iteration, on arbitrary file bytes. */
module Replay {
  import opened Bytes
  import opened Framing
  import opened Wire
  import Timestamp

  // peek_timestamp asks for a prefix and six bytes, but the timestamp it reads ends at byte 13.
  const PEEK_SIZE := 8
  const TIMESTAMP_END := 13

  /** Everything fixed for a session. `beyond` is whatever five bytes follow the mapping in memory: the
      timestamp read can reach them when only 8 to 12 bytes of the file remain. */
  datatype RawEnv = RawEnv(
    file: seq<Byte>,
    beyond: seq<Byte>,
    session: seq<Byte>,
    mtu: nat,
    minMessageSize: nat,
    skipBefore: int,
    ringSize: nat)
  {
    predicate Valid() {
      && |beyond| == TIMESTAMP_END - PEEK_SIZE
      && |session| == SESSION_SIZE
      && mtu >= HEADER_LENGTH
      && minMessageSize > 0
      && 0 < ringSize
      && |file| + ringSize < TWO_TO_THE_64
    }

    function Cap(): nat
      requires Valid()
    {
      mtu - HEADER_LENGTH
    }

    function TimestampAt(pos: nat): nat
      requires Valid() && pos + PEEK_SIZE <= |file|
    {
      Timestamp.Value(file + beyond, pos + PREFIX_SIZE + Timestamp.TIMESTAMP_OFFSET, Timestamp.TIMESTAMP_SIZE)
    }

    predicate SkipsAt(pos: nat)
      requires Valid() && pos + PEEK_SIZE <= |file|
    {
      TimestampAt(pos) < skipBefore
    }
  }

  type Env = e: RawEnv | e.Valid()
    witness RawEnv([], [0, 0, 0, 0, 0], [0, 0, 0, 0, 0, 0, 0, 0, 0, 0], 20, 1, 0, 1)

  // The shortest message that holds a timestamp, stamped t.
  function Tiny(t: Byte): Message {
    [0, 11, 0, 0, 0, 0, 0, 0, 0, 0, 0, 0, t]
  }

  // A complete message lies at pos and fits.
  predicate Takes(file: seq<Byte>, pos: nat, room: nat) {
    Complete(file, pos) && EndAt(file, pos) - pos <= room
  }

  // The outcome of build_packet: messages taken, where each started, and where the file position ends up.
  datatype Packed = Packed(messages: seq<Message>, starts: seq<nat>, end: nat)

  function Pack(file: seq<Byte>, pos: nat, room: nat): (p: Packed)
    requires pos <= |file|
    ensures |p.starts| == |p.messages|
    ensures pos + 2 * |p.messages| <= p.end <= |file|
    decreases |file| - pos
  {
    if !Takes(file, pos, room) then
      // A complete message that does not fit is rolled back; a failed read is not.
      Packed([], [], if Complete(file, pos) then pos else NextPos(file, pos))
    else
      var end := EndAt(file, pos);
      var rest := Pack(file, end, room - (end - pos));
      Packed([file[pos..end]] + rest.messages, [pos] + rest.starts, rest.end)
  }

  // A packet in the making: what build_packet ends with when it has already taken `messages`.
  function Completion(file: seq<Byte>, pos: nat, room: nat, messages: seq<Message>, starts: seq<nat>): Packed
    requires pos <= |file|
  {
    var q := Pack(file, pos, room);
    Packed(messages + q.messages, starts + q.starts, q.end)
  }

  lemma CompletionNext(file: seq<Byte>, pos: nat, room: nat, messages: seq<Message>, starts: seq<nat>, m: Message)
    requires pos <= |file| && Takes(file, pos, room) && m == file[pos..EndAt(file, pos)]
    ensures Completion(file, pos, room, messages, starts)
         == Completion(file, EndAt(file, pos), room - |m|, messages + [m], starts + [pos])
  {
    var rest := Pack(file, EndAt(file, pos), room - |m|);
    assert messages + ([m] + rest.messages) == (messages + [m]) + rest.messages;
    assert starts + ([pos] + rest.starts) == (starts + [pos]) + rest.starts;
  }

  lemma CompletionDone(file: seq<Byte>, pos: nat, room: nat, messages: seq<Message>, starts: seq<nat>)
    requires pos <= |file| && !Takes(file, pos, room)
    ensures Completion(file, pos, room, messages, starts)
         == Packed(messages, starts, if Complete(file, pos) then pos else NextPos(file, pos))
  {
    assert messages + [] == messages && starts + [] == starts;
  }

  /** The feed between two loop iterations. `log` holds the file position pushed for each number, first
      number first; `halted` says that the loop has left by its condition or a break. */
  datatype State = State(pos: nat, seqNo: nat, log: seq<nat>, packets: seq<Packet>, halted: bool)

  const Initial := State(0, 1, [], [], false)

  predicate Sound(env: Env, s: State) {
    && s.pos <= |env.file|
    && s.seqNo == |s.log| + 1
    && 2 * |s.log| <= s.pos
  }

  // One packet built and sent.
  function Emitted(env: Env, s: State): (s': State)
    requires Sound(env, s)
    ensures Sound(env, s')
  {
    var p := Pack(env.file, s.pos, env.Cap());
    State(p.end, s.seqNo + |p.messages|, s.log + p.starts, s.packets + [Packet(s.seqNo, p.messages)], false)
  }

  function Iterate(env: Env, s: State): (s': State)
    requires Sound(env, s)
    ensures Sound(env, s')
  {
    if s.halted || s.pos + PEEK_SIZE > |env.file| then s.(halted := true)
    else if env.SkipsAt(s.pos) then s.(pos := NextPos(env.file, s.pos), halted := !Complete(env.file, s.pos))
    else Emitted(env, s)
  }

  // The feed after `n` iterations. A stop request seen at the top of iteration n+1 leaves it here.
  function Run(env: Env, n: nat): (s: State)
    ensures Sound(env, s)
  {
    if n == 0 then Initial else Iterate(env, Run(env, n - 1))
  }

  lemma {:induction false} HaltedStays(env: Env, m: nat, n: nat)
    requires m <= n && Run(env, m).halted
    ensures Run(env, n) == Run(env, m)
    decreases n
  {
    if m < n { HaltedStays(env, m, n - 1); }
  }

  // Whatever the file, numbers are consecutive from 1: each packet starts where the previous one ended.
  ghost predicate Consecutive(packets: seq<Packet>, next: nat) {
    && (forall i | 0 <= i < |packets| - 1 ::
          packets[i + 1].sequenceNumber == packets[i].sequenceNumber + |packets[i].messages|)
    && (packets == [] ==> next == 1)
    && (packets != [] ==>
          && packets[0].sequenceNumber == 1
          && next == packets[|packets| - 1].sequenceNumber + |packets[|packets| - 1].messages|)
  }

  lemma ConsecutiveSnoc(packets: seq<Packet>, p: Packet)
    requires Consecutive(packets, p.sequenceNumber)
    ensures Consecutive(packets + [p], p.sequenceNumber + |p.messages|)
  {
  }

  lemma IterateConsecutive(env: Env, s: State)
    requires Sound(env, s) && Consecutive(s.packets, s.seqNo)
    ensures Consecutive(Iterate(env, s).packets, Iterate(env, s).seqNo)
  {
    var s' := Iterate(env, s);
    if s'.packets != s.packets {
      ConsecutiveSnoc(s.packets, s'.packets[|s.packets|]);
    }
  }

  lemma {:induction false} NumbersAreConsecutive(env: Env, n: nat)
    ensures Consecutive(Run(env, n).packets, Run(env, n).seqNo)
  {
    if n > 0 {
      NumbersAreConsecutive(env, n - 1);
      IterateConsecutive(env, Run(env, n - 1));
    }
  }
}
