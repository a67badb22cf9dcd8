/** What holds of packets, numbers and replies on any bytes whatever, well-formed or not. */
module AnyFile {
  import opened Bytes
  import opened Framing
  import opened Replay
  import opened Retransmission
  import opened Sequences
  import opened WholeRun
  import opened Wire
  import opened Wrappers
  import Buffer = RetransmissionBuffer

  // These messages follow one another in the file from pos on, each whole, and fit.
  ghost predicate RunFrom(file: seq<Byte>, pos: nat, room: nat, ms: seq<Message>) {
    && |Flatten(ms)| <= room && pos + |Flatten(ms)| <= |file|
    && Flatten(ms) == file[pos..pos + |Flatten(ms)|]
    && AllFrames(ms)
  }

  lemma RunFromNext(file: seq<Byte>, pos: nat, room: nat, rest: seq<Message>)
    requires Takes(file, pos, room)
    requires RunFrom(file, EndAt(file, pos), room - (EndAt(file, pos) - pos), rest)
    ensures RunFrom(file, pos, room, [file[pos..EndAt(file, pos)]] + rest)
    ensures |Flatten([file[pos..EndAt(file, pos)]] + rest)| == EndAt(file, pos) - pos + |Flatten(rest)|
  {
    var m := file[pos..EndAt(file, pos)];
    CompleteIsFrame(file, pos);
    assert ([m] + rest)[1..] == rest;
    assert Flatten([m] + rest) == m + Flatten(rest);
  }

  // Where the position is left behind a packet that ends at pos: a failed read has advanced it.
  function Behind(file: seq<Byte>, pos: nat): nat {
    if Complete(file, pos) || pos + PREFIX_SIZE > |file| then pos else pos + PREFIX_SIZE
  }

  // A packet filled as far as it goes.
  ghost predicate Filled(file: seq<Byte>, pos: nat, room: nat, p: Packed) {
    var w := |Flatten(p.messages)|;
    RunFrom(file, pos, room, p.messages) && !Takes(file, pos + w, room - w) && p.end == Behind(file, pos + w)
  }

  lemma FilledNext(file: seq<Byte>, pos: nat, room: nat, rest: Packed, starts: seq<nat>)
    requires Takes(file, pos, room)
    requires Filled(file, EndAt(file, pos), room - (EndAt(file, pos) - pos), rest)
    ensures Filled(file, pos, room, Packed([file[pos..EndAt(file, pos)]] + rest.messages, starts, rest.end))
  {
    RunFromNext(file, pos, room, rest.messages);
  }

  lemma NoneTaken(file: seq<Byte>, pos: nat, room: nat)
    requires pos <= |file| && !Takes(file, pos, room)
    ensures Pack(file, pos, room) == Packed([], [], Behind(file, pos))
    ensures Filled(file, pos, room, Packed([], [], Behind(file, pos)))
  {
  }

  /** On any bytes a packet carries consecutive whole messages of the file, and the next does not fit or is not
      there. */
  lemma {:induction false} PackIsGreedy(file: seq<Byte>, pos: nat, room: nat)
    requires pos <= |file|
    ensures Filled(file, pos, room, Pack(file, pos, room))
    decreases |file| - pos
  {
    if Takes(file, pos, room) {
      var end := EndAt(file, pos);
      var rest := Pack(file, end, room - (end - pos));
      PackIsGreedy(file, end, room - (end - pos));
      FilledNext(file, pos, room, rest, [pos] + rest.starts);
    } else {
      NoneTaken(file, pos, room);
    }
  }

  // A reply as long as was asked for, or as is there and fits.
  ghost predicate Greedy(file: seq<Byte>, pos: nat, room: nat, count: nat, ms: seq<Message>) {
    && RunFrom(file, pos, room, ms) && |ms| <= count
    && (|ms| < count ==> !Takes(file, pos + |Flatten(ms)|, room - |Flatten(ms)|))
  }

  lemma GreedyNext(file: seq<Byte>, pos: nat, room: nat, count: nat, rest: seq<Message>)
    requires count > 0 && Takes(file, pos, room)
    requires Greedy(file, EndAt(file, pos), room - (EndAt(file, pos) - pos), count - 1, rest)
    ensures Greedy(file, pos, room, count, [file[pos..EndAt(file, pos)]] + rest)
  {
    RunFromNext(file, pos, room, rest);
  }

  // Likewise a reply, which also stops at the number of messages asked for.
  lemma {:induction false} CollectIsGreedy(file: seq<Byte>, pos: nat, room: nat, count: nat)
    requires pos <= |file|
    ensures Greedy(file, pos, room, count, Collect(file, pos, room, count))
    decreases count
  {
    if count > 0 && Takes(file, pos, room) {
      var end := EndAt(file, pos);
      CollectIsGreedy(file, end, room - (end - pos), count - 1);
      GreedyNext(file, pos, room, count, Collect(file, end, room - (end - pos), count - 1));
    } else {
      assert Collect(file, pos, room, count) == [];
    }
  }

  /* ---- Numbers ---- */

  // The message m is what lies at `start`, whole and small enough for a packet, and ends before `next`.
  predicate Reads(env: Env, m: Message, start: nat, next: nat) {
    && Takes(env.file, start, env.Cap()) && m == env.file[start..EndAt(env.file, start)]
    && EndAt(env.file, start) <= next
  }

  function NextStart(starts: seq<nat>, end: nat, i: nat): nat {
    if i + 1 < |starts| then starts[i + 1] else end
  }

  // Message i of these was read at position starts[i], each behind the one before and all before `end`.
  ghost predicate ReadAt(env: Env, ms: seq<Message>, starts: seq<nat>, end: nat) {
    && |ms| == |starts|
    && forall i: nat {:trigger NextStart(starts, end, i)} | i < |ms| ::
         Reads(env, ms[i], starts[i], NextStart(starts, end, i))
  }

  lemma ReadOn(env: Env, ms: seq<Message>, starts: seq<nat>, mid: nat, ns: seq<Message>, more: seq<nat>, end: nat)
    requires ReadAt(env, ms, starts, mid) && ReadAt(env, ns, more, end)
    requires mid <= if more == [] then end else more[0]
    ensures ReadAt(env, ms + ns, starts + more, end)
  {
    forall i: nat {:trigger NextStart(starts + more, end, i)} | i < |ms + ns|
      ensures Reads(env, (ms + ns)[i], (starts + more)[i], NextStart(starts + more, end, i))
    {
      if i < |ms| {
        assert Reads(env, ms[i], starts[i], NextStart(starts, mid, i));
      } else {
        assert Reads(env, ns[i - |ms|], more[i - |ms|], NextStart(more, end, i - |ms|));
      }
    }
  }

  lemma {:induction false} PackReadAt(env: Env, pos: nat, room: nat)
    requires pos <= |env.file| && room <= env.Cap()
    ensures var p := Pack(env.file, pos, room);
            && ReadAt(env, p.messages, p.starts, p.end)
            && pos <= (if p.starts == [] then p.end else p.starts[0])
    decreases |env.file| - pos
  {
    if Takes(env.file, pos, room) {
      var end := EndAt(env.file, pos);
      var m, rest := env.file[pos..end], Pack(env.file, end, room - (end - pos));
      PackReadAt(env, end, room - (end - pos));
      ReadOn(env, [m], [pos], end, rest.messages, rest.starts, rest.end);
    }
  }

  lemma SentMore(packets: seq<Packet>, p: Packet)
    ensures Flatten(Bodies(packets + [p])) == Flatten(Bodies(packets)) + p.messages
  {
    SentSnoc(packets, p);
    FlattenSnoc(Bodies(packets), p.messages);
  }

  lemma IterateReadAt(env: Env, s: State)
    requires Sound(env, s) && ReadAt(env, Sent(s), s.log, s.pos)
    ensures ReadAt(env, Sent(Iterate(env, s)), Iterate(env, s).log, Iterate(env, s).pos)
  {
    var s' := Iterate(env, s);
    if s'.packets == s.packets {
      assert Sent(s) + [] == Sent(s) && s.log + [] == s.log;
      ReadOn(env, Sent(s), s.log, s.pos, [], [], s'.pos);
    } else {
      var p := Pack(env.file, s.pos, env.Cap());
      PackReadAt(env, s.pos, env.Cap());
      SentMore(s.packets, Packet(s.seqNo, p.messages));
      ReadOn(env, Sent(s), s.log, s.pos, p.messages, p.starts, p.end);
    }
  }

  /** On any bytes, number t is pushed with the position at which message t of those sent was read; these positions
      follow one another in the file without overlap. */
  lemma {:induction false} NumbersAnyFile(env: Env, n: nat)
    ensures ReadAt(env, Sent(Run(env, n)), Run(env, n).log, Run(env, n).pos)
  {
    if n > 0 {
      NumbersAnyFile(env, n - 1);
      IterateReadAt(env, Run(env, n - 1));
    }
  }

  /** On any bytes, in every ring the replay can have written, a reply to (t, count) that is sent begins with
      message t of those sent, and carries what follows it in the file. */
  lemma ReplyAnyFile(env: Env, n: nat, log: seq<nat>, t: U64, count: nat)
    requires log <= Run(env, n).log && |log| < TWO_TO_THE_64 && t >= 1 && count >= 1
    requires Buffer.Lookup(Buffer.PushAll(env.ringSize, log), t).Some?
    ensures var pos := Buffer.Lookup(Buffer.PushAll(env.ringSize, log), t).value;
            var reply := Collect(env.file, pos, env.Cap(), count);
            && t <= |Sent(Run(env, n))|
            && reply != [] && reply[0] == Sent(Run(env, n))[t - 1]
            && RunFrom(env.file, pos, env.Cap(), reply)
  {
    Buffer.RingRefinesWindow(env.ringSize, log, t);
    NumbersAnyFile(env, n);
    assert Reads(env, Sent(Run(env, n))[t - 1], log[t - 1], NextStart(Run(env, n).log, Run(env, n).pos, t - 1));
    CollectIsGreedy(env.file, log[t - 1], env.Cap(), count);
  }

  /* ---- Every byte is accounted for ---- */

  datatype Fate = Carried | PassedOver | Dropped

  // What became of the bytes from start to end - 1.
  datatype Piece = Piece(fate: Fate, start: nat, end: nat)

  /** Only whole messages that fit are carried, only whole messages below the threshold are skipped, and only a
      prefix whose body overruns the file is dropped. */
  predicate Lawful(env: Env, p: Piece) {
    match p.fate
    case Carried => Takes(env.file, p.start, env.Cap()) && p.end == EndAt(env.file, p.start)
    case PassedOver =>
      && Complete(env.file, p.start) && p.end == EndAt(env.file, p.start)
      && p.start + PEEK_SIZE <= |env.file| && env.TimestampAt(p.start) < env.skipBefore
    case Dropped =>
      p.end == p.start + PREFIX_SIZE <= |env.file| && p.end + Prefix(env.file, p.start) > |env.file|
  }

  // The pieces follow one another, each lawful, from one position to another.
  predicate Tiles(env: Env, ps: seq<Piece>, from: nat, to: nat) {
    if ps == [] then from == to
    else ps[0].start == from && Lawful(env, ps[0]) && Tiles(env, ps[1..], ps[0].end, to)
  }

  // The messages carried, in order, and where each starts.
  function Carriage(file: seq<Byte>, ps: seq<Piece>): (seq<Message>, seq<nat>) {
    if ps == [] then ([], [])
    else
      var (ms, starts) := Carriage(file, ps[1..]);
      if ps[0].fate.Carried? && ps[0].start <= ps[0].end <= |file|
      then ([file[ps[0].start..ps[0].end]] + ms, [ps[0].start] + starts)
      else (ms, starts)
  }

  lemma {:induction false} TilesOn(env: Env, ps: seq<Piece>, qs: seq<Piece>, from: nat, mid: nat, to: nat)
    requires Tiles(env, ps, from, mid) && Tiles(env, qs, mid, to)
    ensures Tiles(env, ps + qs, from, to)
    decreases |ps|
  {
    if ps == [] {
      assert ps + qs == qs;
    } else {
      assert (ps + qs)[1..] == ps[1..] + qs;
      TilesOn(env, ps[1..], qs, ps[0].end, mid, to);
    }
  }

  lemma {:induction false} CarriageOn(file: seq<Byte>, ps: seq<Piece>, qs: seq<Piece>)
    ensures Carriage(file, ps + qs).0 == Carriage(file, ps).0 + Carriage(file, qs).0
    ensures Carriage(file, ps + qs).1 == Carriage(file, ps).1 + Carriage(file, qs).1
    decreases |ps|
  {
    if ps == [] {
      assert ps + qs == qs;
    } else {
      assert (ps + qs)[1..] == ps[1..] + qs;
      CarriageOn(file, ps[1..], qs);
    }
  }

  // The pieces one packet makes of the file, and those one iteration makes.
  function PacketPieces(file: seq<Byte>, pos: nat, room: nat): seq<Piece>
    requires pos <= |file|
    decreases |file| - pos
  {
    if Takes(file, pos, room) then
      var end := EndAt(file, pos);
      [Piece(Carried, pos, end)] + PacketPieces(file, end, room - (end - pos))
    else if HasPrefix(file, pos) && !Complete(file, pos) then [Piece(Dropped, pos, pos + PREFIX_SIZE)]
    else []
  }

  function IterationPieces(env: Env, s: State): seq<Piece>
    requires Sound(env, s)
  {
    if s.halted || s.pos + PEEK_SIZE > |env.file| then []
    else if env.SkipsAt(s.pos) then
      [Piece(if Complete(env.file, s.pos) then PassedOver else Dropped, s.pos, NextPos(env.file, s.pos))]
    else PacketPieces(env.file, s.pos, env.Cap())
  }

  lemma {:induction false} PacketAccount(env: Env, pos: nat, room: nat)
    requires pos <= |env.file| && room <= env.Cap()
    ensures var p, ps := Pack(env.file, pos, room), PacketPieces(env.file, pos, room);
            Tiles(env, ps, pos, p.end) && Carriage(env.file, ps) == (p.messages, p.starts)
    decreases |env.file| - pos
  {
    if Takes(env.file, pos, room) {
      var end := EndAt(env.file, pos);
      var rest := PacketPieces(env.file, end, room - (end - pos));
      PacketAccount(env, end, room - (end - pos));
      assert ([Piece(Carried, pos, end)] + rest)[1..] == rest;
    }
  }

  // Everything before the position is accounted for: what went out, and the rest by its fate.
  ghost predicate Accounts(env: Env, s: State, ps: seq<Piece>) {
    Tiles(env, ps, 0, s.pos) && Carriage(env.file, ps) == (Sent(s), s.log)
  }

  lemma QuietAccount(env: Env, s: State)
    requires Sound(env, s) && (s.halted || s.pos + PEEK_SIZE > |env.file| || env.SkipsAt(s.pos))
    ensures Tiles(env, IterationPieces(env, s), s.pos, Iterate(env, s).pos)
    ensures Carriage(env.file, IterationPieces(env, s)) == ([], [])
    ensures Sent(Iterate(env, s)) == Sent(s) && Iterate(env, s).log == s.log
  {
  }

  lemma EmittedAccount(env: Env, s: State)
    requires Sound(env, s)
    ensures var ps, s' := PacketPieces(env.file, s.pos, env.Cap()), Emitted(env, s);
            && Tiles(env, ps, s.pos, s'.pos)
            && Sent(s') == Sent(s) + Carriage(env.file, ps).0 && s'.log == s.log + Carriage(env.file, ps).1
  {
    PacketAccount(env, s.pos, env.Cap());
    SentMore(s.packets, Packet(s.seqNo, Pack(env.file, s.pos, env.Cap()).messages));
  }

  lemma IterationAccount(env: Env, s: State, ps: seq<Piece>)
    requires Sound(env, s) && Accounts(env, s, ps)
    ensures Accounts(env, Iterate(env, s), ps + IterationPieces(env, s))
  {
    var qs := IterationPieces(env, s);
    CarriageOn(env.file, ps, qs);
    if s.halted || s.pos + PEEK_SIZE > |env.file| || env.SkipsAt(s.pos) {
      QuietAccount(env, s);
      assert Sent(s) + [] == Sent(s) && s.log + [] == s.log;
    } else {
      EmittedAccount(env, s);
    }
    TilesOn(env, ps, qs, 0, s.pos, Iterate(env, s).pos);
  }

  // Fewer than eight bytes are left, or a prefix that was to be skipped has just been dropped.
  ghost predicate OverAt(env: Env, pos: nat) {
    || pos + 8 > |env.file|
    || (pos >= 2 && pos + 6 <= |env.file| && !Complete(env.file, pos - 2) && env.TimestampAt(pos - 2) < env.skipBefore)
  }

  /** Conservation, on any bytes and at any time: the file up to the current position falls into the messages sent,
      in order and at the positions pushed for them, whole messages skipped for their timestamps, and prefixes
      whose body overruns the file. */
  lemma {:induction false} EveryByteAccounted(env: Env, n: nat) returns (ps: seq<Piece>)
    ensures Accounts(env, Run(env, n), ps)
  {
    if n == 0 {
      ps := [];
    } else {
      var before := EveryByteAccounted(env, n - 1);
      IterationAccount(env, Run(env, n - 1), before);
      ps := before + IterationPieces(env, Run(env, n - 1));
    }
  }

  lemma IterationOver(env: Env, s: State)
    requires Sound(env, s) && (s.halted ==> OverAt(env, s.pos))
    ensures Iterate(env, s).halted ==> OverAt(env, Iterate(env, s).pos)
  {
  }

  // And a loop that has ended had no other reason to.
  lemma {:induction false} NothingLeftBehind(env: Env, n: nat)
    requires Run(env, n).halted
    ensures OverAt(env, Run(env, n).pos)
  {
    if Run(env, n - 1).halted { NothingLeftBehind(env, n - 1); }
    IterationOver(env, Run(env, n - 1));
  }
}
