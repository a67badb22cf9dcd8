/** When the replay loop makes progress, halts, or spins, on arbitrary file bytes. */
module Progress {
  import opened Framing
  import opened Replay
  import opened Wire

  // An unskipped complete message too large for any packet stands where a packet would start.
  predicate Jammed(env: Env, pos: nat) {
    && pos + PEEK_SIZE <= |env.file|
    && !env.SkipsAt(pos)
    && Complete(env.file, pos)
    && EndAt(env.file, pos) - pos > env.Cap()
  }

  // The loop, after m iterations, is about to retry such a message.
  predicate JamsAt(env: Env, m: nat) {
    !Run(env, m).halted && Jammed(env, Run(env, m).pos)
  }

  // A jammed iteration changes nothing but the wire, which gets a packet without messages.
  lemma JammedIteration(env: Env, s: State)
    requires Sound(env, s) && !s.halted && Jammed(env, s.pos)
    ensures Iterate(env, s) == s.(packets := s.packets + [Packet(s.seqNo, [])])
  {
    assert s.log + [] == s.log;
  }

  // An iteration that is not jammed and stays in the loop advances the position.
  lemma FreeIteration(env: Env, s: State)
    requires Sound(env, s) && !Jammed(env, s.pos) && !Iterate(env, s).halted
    ensures Iterate(env, s).pos > s.pos
  {
  }

  lemma {:induction false} AdvancesUntilJam(env: Env, n: nat)
    requires !Run(env, n).halted
    requires forall m | 0 <= m < n :: !JamsAt(env, m)
    ensures Run(env, n).pos >= n
  {
    if n > 0 {
      assert !JamsAt(env, n - 1);
      AdvancesUntilJam(env, n - 1);
      FreeIteration(env, Run(env, n - 1));
    }
  }

  // t has the position, the numbers and the pushes of s, and is still in the loop.
  predicate StandsAt(s: State, t: State) {
    t.pos == s.pos && t.seqNo == s.seqNo && t.log == s.log && !t.halted
  }

  lemma JammedStep(env: Env, s: State, t: State)
    requires Sound(env, t) && StandsAt(s, t) && Jammed(env, s.pos)
    ensures StandsAt(s, Iterate(env, t))
    ensures Iterate(env, t).packets == t.packets + [Packet(s.seqNo, [])]
  {
    JammedIteration(env, t);
  }

  // Whatever stands at s stays there.
  ghost predicate Stuck(env: Env, s: State) {
    forall t {:trigger Iterate(env, t)} | Sound(env, t) && StandsAt(s, t) :: StandsAt(s, Iterate(env, t))
  }

  lemma JammedIsStuck(env: Env, s: State)
    requires Jammed(env, s.pos)
    ensures Stuck(env, s)
  {
    forall t | Sound(env, t) && StandsAt(s, t) ensures StandsAt(s, Iterate(env, t)) {
      JammedStep(env, s, t);
    }
  }

  lemma {:induction false} StuckStays(env: Env, s: State, m: nat, n: nat)
    requires m <= n && StandsAt(s, Run(env, m)) && Stuck(env, s)
    ensures StandsAt(s, Run(env, n))
    decreases n
  {
    if m < n { StuckStays(env, s, m, n - 1); }
  }

  // A jam is for ever: position, numbers and ring contents never change again,
  lemma {:induction false} JamIsForever(env: Env, m: nat, n: nat)
    requires m <= n && JamsAt(env, m)
    ensures StandsAt(Run(env, m), Run(env, n))
  {
    JammedIsStuck(env, Run(env, m));
    StuckStays(env, Run(env, m), m, n);
  }

  // and every later iteration sends one more packet without messages.
  lemma JamSendsEmptyPackets(env: Env, m: nat, n: nat)
    requires m <= n && JamsAt(env, m)
    ensures Run(env, n + 1).packets == Run(env, n).packets + [Packet(Run(env, m).seqNo, [])]
  {
    JamIsForever(env, m, n);
    JammedStep(env, Run(env, m), Run(env, n));
  }

  lemma NoJamHalts(env: Env)
    requires forall m | 0 <= m <= |env.file| :: !JamsAt(env, m)
    ensures Run(env, |env.file| + 1).halted
  {
    var n := |env.file|;
    if Run(env, n).halted {
      HaltedStays(env, n, n + 1);
    } else {
      AdvancesUntilJam(env, n);
    }
  }

  // Without a jam the loop is over after at most file-size + 1 iterations; with one it never ends.
  lemma HaltsUnlessJammed(env: Env)
    ensures (exists n: nat :: Run(env, n).halted) <==> forall m: nat :: !JamsAt(env, m)
    ensures (exists n: nat :: Run(env, n).halted) ==> Run(env, |env.file| + 1).halted
  {
    if m: nat :| JamsAt(env, m) {
      forall n: nat ensures !Run(env, n).halted {
        if n < m {
          if Run(env, n).halted { HaltedStays(env, n, m); }
        } else {
          JamIsForever(env, m, n);
        }
      }
    } else {
      NoJamHalts(env);
    }
  }

  /** Reading the file from where a packet would start: does an unskipped oversized message turn up there? Besides
      the position, the walk carries only the bytes left in the packet. */
  predicate WalkJams(env: Env, pos: nat)
    requires pos <= |env.file|
    decreases |env.file| - pos, 0
  {
    pos + PEEK_SIZE <= |env.file| &&
      if env.SkipsAt(pos) then Complete(env.file, pos) && WalkJams(env, NextPos(env.file, pos))
      else if Takes(env.file, pos, env.Cap()) then
        PacketWalkJams(env, EndAt(env.file, pos), env.Cap() - (EndAt(env.file, pos) - pos))
      else Complete(env.file, pos) || WalkJams(env, NextPos(env.file, pos))
  }

  // The same inside a packet with `room` bytes left.
  predicate PacketWalkJams(env: Env, pos: nat, room: nat)
    requires pos <= |env.file|
    decreases |env.file| - pos, 1
  {
    if Takes(env.file, pos, room) then PacketWalkJams(env, EndAt(env.file, pos), room - (EndAt(env.file, pos) - pos))
    else WalkJams(env, if Complete(env.file, pos) then pos else NextPos(env.file, pos))
  }

  // Packing moves along the walk.
  lemma {:induction false} PackStaysOnWalk(env: Env, pos: nat, room: nat)
    requires pos <= |env.file|
    ensures PacketWalkJams(env, pos, room) == WalkJams(env, Pack(env.file, pos, room).end)
    decreases |env.file| - pos
  {
    if Takes(env.file, pos, room) {
      var end := EndAt(env.file, pos);
      PackStaysOnWalk(env, end, room - (end - pos));
    }
  }

  lemma IterationStaysOnWalk(env: Env, s: State)
    requires Sound(env, s) && !s.halted && !Jammed(env, s.pos)
    ensures WalkJams(env, s.pos) == (!Iterate(env, s).halted && WalkJams(env, Iterate(env, s).pos))
  {
    PackStaysOnWalk(env, s.pos, env.Cap());
  }

  lemma {:induction false} RunStaysOnWalk(env: Env, n: nat)
    requires forall m | 0 <= m < n :: !JamsAt(env, m)
    ensures WalkJams(env, 0) == (!Run(env, n).halted && WalkJams(env, Run(env, n).pos))
  {
    if n > 0 {
      RunStaysOnWalk(env, n - 1);
      assert !JamsAt(env, n - 1);
      if !Run(env, n - 1).halted {
        IterationStaysOnWalk(env, Run(env, n - 1));
      }
    }
  }

  // So whether the loop ends can be read off the file beforehand, whatever its bytes.
  lemma HaltsUnlessWalkJams(env: Env)
    ensures (exists n: nat :: Run(env, n).halted) <==> !WalkJams(env, 0)
  {
    HaltsUnlessJammed(env);
    if m: nat :| JamsAt(env, m) {
      var first := FirstJam(env, m);
      RunStaysOnWalk(env, first);
    } else {
      NoJamHalts(env);
      RunStaysOnWalk(env, |env.file| + 1);
    }
  }

  lemma {:induction false} FirstJam(env: Env, m: nat) returns (first: nat)
    requires JamsAt(env, m)
    ensures JamsAt(env, first) && forall i | 0 <= i < first :: !JamsAt(env, i)
  {
    if i: nat :| i < m && JamsAt(env, i) {
      first := FirstJam(env, i);
    } else {
      first := m;
    }
  }

  /** A plainer walk decides too, one that reads frame after frame and forgets about packets, unless a body that
      overruns the file carries a timestamp to skip. */
  predicate FrameWalkJams(env: Env, pos: nat)
    decreases |env.file| - pos
  {
    pos + PEEK_SIZE <= |env.file| && (Jammed(env, pos) || FrameWalkJams(env, NextPos(env.file, pos)))
  }

  predicate OverrunsKept(env: Env, pos: nat)
    decreases |env.file| - pos
  {
    pos + PEEK_SIZE <= |env.file| ==>
      (Complete(env.file, pos) || !env.SkipsAt(pos)) && OverrunsKept(env, NextPos(env.file, pos))
  }

  lemma {:induction false} FrameWalkDecides(env: Env, pos: nat)
    requires pos <= |env.file| && OverrunsKept(env, pos)
    ensures WalkJams(env, pos) == FrameWalkJams(env, pos)
    decreases |env.file| - pos, 0
  {
    if pos + PEEK_SIZE <= |env.file| {
      if !env.SkipsAt(pos) && Takes(env.file, pos, env.Cap()) {
        PacketFrameWalk(env, EndAt(env.file, pos), env.Cap() - (EndAt(env.file, pos) - pos));
      } else if NextPos(env.file, pos) <= |env.file| {
        FrameWalkDecides(env, NextPos(env.file, pos));
      }
    }
  }

  lemma {:induction false} PacketFrameWalk(env: Env, pos: nat, room: nat)
    requires pos <= |env.file| && room <= env.Cap() && OverrunsKept(env, pos)
    ensures PacketWalkJams(env, pos, room) == FrameWalkJams(env, pos)
    decreases |env.file| - pos, 1
  {
    if pos + PEEK_SIZE > |env.file| {
      PastPeek(env, pos, room);
    } else if Takes(env.file, pos, room) {
      PacketFrameWalk(env, EndAt(env.file, pos), room - (EndAt(env.file, pos) - pos));
    } else {
      FrameWalkDecides(env, if Complete(env.file, pos) then pos else NextPos(env.file, pos));
    }
  }

  lemma {:induction false} PastPeek(env: Env, pos: nat, room: nat)
    requires pos <= |env.file| < pos + PEEK_SIZE
    ensures !PacketWalkJams(env, pos, room)
    decreases |env.file| - pos
  {
    if Takes(env.file, pos, room) {
      PastPeek(env, EndAt(env.file, pos), room - (EndAt(env.file, pos) - pos));
    }
  }

  // It does happen: at an MTU of 32 a single message of 13 bytes is retried for ever, an empty packet each time.
  lemma OversizedMessage(env: Env, n: nat)
    requires env.file == Tiny(5) && env.mtu == 32 && env.skipBefore <= 0
    ensures JamsAt(env, 0) && !Run(env, n).halted && Run(env, n).pos == 0
    ensures Run(env, n + 1).packets == Run(env, n).packets + [Packet(1, [])]
  {
    assert Complete(env.file, 0) && EndAt(env.file, 0) == 13;
    JamIsForever(env, 0, n);
    JamSendsEmptyPackets(env, 0, n);
  }
}
