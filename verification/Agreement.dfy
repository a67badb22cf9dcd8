/** Retransmission against the downstream feed: when replies carry what downstream numbered, and closing gaps. */
module Agreement {
  import opened Bytes
  import opened Framing
  import opened Packing
  import opened Replay
  import opened Retransmission
  import opened Sequences
  import opened Skipping
  import opened WholeRun
  import opened Wire
  import opened Wrappers
  import Buffer = RetransmissionBuffer

  // The largest k <= count such that k messages from index i on exist and fit in a packet.
  function Longest(kept: seq<Message>, i: nat, count: nat, cap: nat): (k: nat)
    requires i <= |kept|
    ensures k <= count && i + k <= |kept|
  {
    if RunEnd(kept, i, cap) - i <= count then RunEnd(kept, i, cap) - i else count
  }

  // Longest is what its name says, in terms of sizes alone.
  lemma LongestIsLargest(kept: seq<Message>, i: nat, count: nat, cap: nat, k: nat)
    requires i <= |kept| && k <= count && i + k <= |kept|
    ensures |Flatten(kept[i..i + k])| <= cap <==> k <= Longest(kept, i, count, cap)
  {
    SliceWidth(kept, i, i + k);
    RunEndIsLargest(kept, i, cap, i + k);
  }

  lemma LongestNext(ms: seq<Message>, k: nat, count: nat, room: nat)
    requires k < |ms| && count > 0
    ensures Longest(ms, k, count, room)
         == if |ms[k]| <= room then 1 + Longest(ms, k + 1, count - 1, room - |ms[k]|) else 0
  {
  }

  lemma CollectTakes(file: seq<Byte>, pos: nat, room: nat, count: nat, m: Message)
    requires count > 0 && Takes(file, pos, room) && m == file[pos..EndAt(file, pos)]
    ensures Collect(file, pos, room, count) == [m] + Collect(file, EndAt(file, pos), room - |m|, count - 1)
  {
  }

  lemma {:induction false} CollectAtBoundary(ms: seq<Message>, k: nat, room: nat, count: nat)
    requires AllFrames(ms) && k <= |ms|
    ensures Collect(Flatten(ms), Boundary(ms, k), room, count) == ms[k..k + Longest(ms, k, count, room)]
    decreases count
  {
    if k == |ms| {
      BoundaryEnds(ms);
    } else if count > 0 {
      ScanAtBoundary(ms, k);
      LongestNext(ms, k, count, room);
      if |ms[k]| <= room {
        CollectTakes(Flatten(ms), Boundary(ms, k), room, count, ms[k]);
        CollectAtBoundary(ms, k + 1, room - |ms[k]|, count - 1);
        HeadFirst(ms, k, k + Longest(ms, k, count, room));
      }
    }
  }

  /* ---- Numbers and the messages they belong to ---- */

  // Downstream skips none of the messages i to j - 1.
  ghost predicate NoneSkipped(env: Env, ms: seq<Message>, i: nat, j: nat)
    requires WellFormed(env, ms)
  {
    forall x: nat {:trigger x in Chosen(env, ms, 0)} | i <= x < j :: x in Chosen(env, ms, 0)
  }

  lemma {:induction false} ChosenIncreases(env: Env, ms: seq<Message>, k: nat, a: nat, b: nat)
    requires WellFormed(env, ms) && k <= |ms| && a < b < |Chosen(env, ms, k)|
    ensures Chosen(env, ms, k)[a] < Chosen(env, ms, k)[b]
    decreases |ms| - k
  {
    if !Keeps(env, ms[k]) {
      ChosenIncreases(env, ms, k + 1, a, b);
    } else {
      var n := PacketEnd(env, ms, k);
      if a >= n - k {
        ChosenIncreases(env, ms, n, a - (n - k), b - (n - k));
      } else {
        StartsAt(ms, k, n, a);
        if b < n - k { StartsAt(ms, k, n, b); } else { ChosenAt(env, ms, n, b - (n - k)); }
      }
    }
  }

  // While nothing is skipped, the next number belongs to the next message of the file.
  lemma {:induction false} NextNumbers(env: Env, ms: seq<Message>, a: nat, d: nat)
    requires WellFormed(env, ms) && a < |Chosen(env, ms, 0)|
    requires NoneSkipped(env, ms, Chosen(env, ms, 0)[a], Chosen(env, ms, 0)[a] + d + 1)
    ensures a + d < |Chosen(env, ms, 0)| && Chosen(env, ms, 0)[a + d] == Chosen(env, ms, 0)[a] + d
    decreases d
  {
    if d > 0 {
      var c, x := Chosen(env, ms, 0), Chosen(env, ms, 0)[a] + d;
      NextNumbers(env, ms, a, d - 1);
      assert x in c;
      var b: nat :| b < |c| && c[b] == x;
      if b < a + d - 1 { ChosenIncreases(env, ms, 0, b, a + d - 1); }
      ChosenIncreases(env, ms, 0, a + d - 1, a + d);
      if a + d < b { ChosenIncreases(env, ms, 0, a + d, b); }
    }
  }

  lemma {:induction false} FirstChosenKept(env: Env, ms: seq<Message>, k: nat)
    requires WellFormed(env, ms) && k <= |ms| && Chosen(env, ms, k) != []
    ensures Keeps(env, Flatten(Groups(env, ms, k))[0])
    ensures Keeps(env, ms[k]) ==> Chosen(env, ms, k)[0] == k
    decreases |ms| - k
  {
    if !Keeps(env, ms[k]) { FirstChosenKept(env, ms, k + 1); }
  }

  // Where the file and the numbers part, a message below the threshold was skipped and a kept one follows.
  lemma {:induction false} AfterGap(env: Env, ms: seq<Message>, k: nat, a: nat)
    requires WellFormed(env, ms) && k <= |ms| && a < |Chosen(env, ms, k)| && Chosen(env, ms, k)[a] + 1 < |ms|
    requires a + 1 < |Chosen(env, ms, k)| ==> Chosen(env, ms, k)[a + 1] != Chosen(env, ms, k)[a] + 1
    ensures !Keeps(env, ms[Chosen(env, ms, k)[a] + 1])
    ensures a + 1 < |Chosen(env, ms, k)| ==> Keeps(env, Flatten(Groups(env, ms, k))[a + 1])
    decreases |ms| - k
  {
    if !Keeps(env, ms[k]) {
      AfterGap(env, ms, k + 1, a);
    } else {
      var n := PacketEnd(env, ms, k);
      if a >= n - k {
        AfterGap(env, ms, n, a - (n - k));
      } else {
        StartsAt(ms, k, n, a);
        if a + 1 < n - k { StartsAt(ms, k, n, a + 1); }
        if Chosen(env, ms, n) != [] { FirstChosenKept(env, ms, n); }
      }
    }
  }

  /** Consecutive messages of the file, from that of number a + 1 on, are those numbered from there exactly when
      downstream skips none of them: what it skipped is below the threshold, and the message that gets the
      number instead is not. */
  lemma SpanAgrees(env: Env, ms: seq<Message>, a: nat, c: nat)
    requires WellFormed(env, ms) && a < |Chosen(env, ms, 0)| && Chosen(env, ms, 0)[a] + c <= |ms|
    ensures var i := Chosen(env, ms, 0)[a];
            ms[i..i + c] <= Selected(env, ms)[a..] <==> NoneSkipped(env, ms, i, i + c)
  {
    var i := Chosen(env, ms, 0)[a];
    if NoneSkipped(env, ms, i, i + c) {
      SpanIsNumbered(env, ms, a, c);
      assert Selected(env, ms)[a..][..c] == Selected(env, ms)[a..a + c];
    } else {
      var x := FirstSkipped(env, ms, i, i + c);
      var d := x - i;
      PartsAt(env, ms, a, d);
      NotPrefix(ms[i..i + c], Selected(env, ms)[a..], d);
    }
  }

  lemma NotPrefix(xs: seq<Message>, ys: seq<Message>, d: nat)
    requires d < |xs| && (d < |ys| ==> xs[d] != ys[d])
    ensures !(xs <= ys)
  {
  }

  lemma {:induction false} SpanIsNumbered(env: Env, ms: seq<Message>, a: nat, c: nat)
    requires WellFormed(env, ms) && a < |Chosen(env, ms, 0)| && Chosen(env, ms, 0)[a] + c <= |ms|
    requires NoneSkipped(env, ms, Chosen(env, ms, 0)[a], Chosen(env, ms, 0)[a] + c)
    ensures a + c <= |Selected(env, ms)|
    ensures ms[Chosen(env, ms, 0)[a]..Chosen(env, ms, 0)[a] + c] == Selected(env, ms)[a..a + c]
  {
    if c > 0 {
      var i := Chosen(env, ms, 0)[a];
      SpanIsNumbered(env, ms, a, c - 1);
      NextNumbers(env, ms, a, c - 1);
      ChosenAt(env, ms, 0, a + c - 1);
      assert ms[i..i + c] == ms[i..i + c - 1] + [ms[i + c - 1]];
    }
  }

  lemma {:induction false} FirstSkipped(env: Env, ms: seq<Message>, i: nat, j: nat) returns (x: nat)
    requires WellFormed(env, ms) && !NoneSkipped(env, ms, i, j)
    ensures i <= x < j && x !in Chosen(env, ms, 0) && NoneSkipped(env, ms, i, x)
    decreases j
  {
    x := j - 1;
    if !NoneSkipped(env, ms, i, j - 1) { x := FirstSkipped(env, ms, i, j - 1); }
  }

  // At the first skipped message the numbers have run out, or they go on with another message.
  lemma PartsAt(env: Env, ms: seq<Message>, a: nat, d: nat)
    requires WellFormed(env, ms) && a < |Chosen(env, ms, 0)|
    requires NoneSkipped(env, ms, Chosen(env, ms, 0)[a], Chosen(env, ms, 0)[a] + d)
    requires Chosen(env, ms, 0)[a] + d < |ms| && Chosen(env, ms, 0)[a] + d !in Chosen(env, ms, 0)
    ensures a + d < |Selected(env, ms)| ==> Selected(env, ms)[a + d] != ms[Chosen(env, ms, 0)[a] + d]
  {
    assert d > 0;
    NextNumbers(env, ms, a, d - 1);
    AfterGap(env, ms, 0, a + d - 1);
  }

  /* ---- Replies ---- */

  // Whatever has been pushed at any time during a replay is a prefix of the positions of the selected messages.
  lemma RunPushesPositions(env: Env, ms: seq<Message>, n: nat, log: seq<nat>)
    requires WellFormed(env, ms) && log <= Run(env, n).log
    ensures log <= Recorded(env, ms, 0)
  {
    RunPrefix(env, ms, n);
  }

  /** What a reply to (t, count) that starts at the position pushed for t carries: the messages that follow one
      another in the file from there, as many as were asked for, exist and fit. They are those downstream numbers
      t, t + 1, ... if and only if downstream skipped none of them; and where it skips nothing once it has
      started, the reply is as long as those numbered messages allow. */
  ghost predicate Agrees(env: Env, ms: seq<Message>, t: nat, count: nat, reply: seq<Message>)
    requires WellFormed(env, ms)
  {
    && 1 <= t <= |Selected(env, ms)|
    && (var i := Chosen(env, ms, 0)[t - 1];
        && i < |ms| && reply == ms[i..i + Longest(ms, i, count, env.Cap())]
        && (reply <= Selected(env, ms)[t - 1..] <==> NoneSkipped(env, ms, i, i + |reply|)))
    && (SkipsOnlyAhead(env, ms) ==>
          && reply <= Selected(env, ms)[t - 1..]
          && |reply| == Longest(Selected(env, ms), t - 1, count, env.Cap()))
  }

  lemma {:induction false} UnbrokenIndices(env: Env, ms: seq<Message>, k: nat, i: nat)
    requires WellFormed(env, ms) && k <= |ms| && Unbroken(env, ms, k) && i < |Chosen(env, ms, k)|
    ensures Chosen(env, ms, k)[i] == k + i
    decreases |ms| - k
  {
    var n := PacketEnd(env, ms, k);
    if i < n - k { StartsAt(ms, k, n, i); } else { UnbrokenIndices(env, ms, n, i - (n - k)); }
  }

  // Where nothing is skipped once it has started, messages and numbers run in step.
  lemma AheadIndex(env: Env, ms: seq<Message>, a: nat)
    requires SkipsOnlyAhead(env, ms) && a < |Chosen(env, ms, 0)|
    ensures First(env, ms, 0) + a < |ms|
    ensures Chosen(env, ms, 0)[a] == First(env, ms, 0) + a
    ensures Selected(env, ms) == ms[First(env, ms, 0)..]
  {
    ChosenAt(env, ms, 0, a);
    SkipsToFirst(env, ms, 0);
    UnbrokenIndices(env, ms, First(env, ms, 0), a);
    SendsSuffix(env, ms);
  }

  lemma {:induction false} RunEndShifts(ms: seq<Message>, f: nat, k: nat, room: nat)
    requires f + k <= |ms|
    ensures RunEnd(ms, f + k, room) == f + RunEnd(ms[f..], k, room)
    decreases |ms| - k
  {
    if f + k < |ms| && |ms[f + k]| <= room { RunEndShifts(ms, f, k + 1, room - |ms[f + k]|); }
  }

  lemma LongestAhead(env: Env, ms: seq<Message>, a: nat, count: nat)
    requires SkipsOnlyAhead(env, ms) && a < |Chosen(env, ms, 0)|
    ensures Chosen(env, ms, 0)[a] < |ms|
    ensures Longest(Selected(env, ms), a, count, env.Cap()) == Longest(ms, Chosen(env, ms, 0)[a], count, env.Cap())
  {
    AheadIndex(env, ms, a);
    RunEndShifts(ms, First(env, ms, 0), a, env.Cap());
  }

  lemma NoneSkippedAhead(env: Env, ms: seq<Message>, i: nat, j: nat)
    requires SkipsOnlyAhead(env, ms) && First(env, ms, 0) <= i && j <= |ms|
    ensures NoneSkipped(env, ms, i, j)
  {
    var f := First(env, ms, 0);
    SkipsToFirst(env, ms, 0);
    UnbrokenSendsAll(env, ms, f);
    forall x: nat {:trigger x in Chosen(env, ms, 0)} | i <= x < j ensures x in Chosen(env, ms, 0) {
      AheadIndex(env, ms, x - f);
    }
  }

  // A reply from the position that belongs to t, however it was obtained.
  lemma AnswerCollects(env: Env, ms: seq<Message>, t: nat, count: nat, i: nat)
    requires WellFormed(env, ms) && 1 <= t <= |Recorded(env, ms, 0)| && i == Chosen(env, ms, 0)[t - 1]
    ensures i < |ms|
    ensures Collect(env.file, Recorded(env, ms, 0)[t - 1], env.Cap(), count)
         == ms[i..i + Longest(ms, i, count, env.Cap())]
  {
    ChosenAt(env, ms, 0, t - 1);
    FramesOf(env, ms);
    CollectAtBoundary(ms, i, env.Cap(), count);
  }

  lemma SpanAhead(env: Env, ms: seq<Message>, a: nat, count: nat, i: nat, c: nat)
    requires SkipsOnlyAhead(env, ms) && a < |Chosen(env, ms, 0)| && i == Chosen(env, ms, 0)[a] < |ms|
    requires c == Longest(ms, i, count, env.Cap())
    ensures NoneSkipped(env, ms, i, i + c) && c == Longest(Selected(env, ms), a, count, env.Cap())
  {
    LongestAhead(env, ms, a, count);
    AheadIndex(env, ms, a);
    NoneSkippedAhead(env, ms, i, i + c);
  }

  lemma SpanOfReply(env: Env, ms: seq<Message>, t: nat, count: nat, i: nat, c: nat)
    requires WellFormed(env, ms) && 1 <= t <= |Chosen(env, ms, 0)| && i == Chosen(env, ms, 0)[t - 1] < |ms|
    requires c == Longest(ms, i, count, env.Cap())
    ensures Agrees(env, ms, t, count, ms[i..i + c])
  {
    SpanAgrees(env, ms, t - 1, c);
    if SkipsOnlyAhead(env, ms) { SpanAhead(env, ms, t - 1, count, i, c); }
  }

  lemma AnswerAgrees(env: Env, ms: seq<Message>, t: nat, count: nat, pos: nat)
    requires WellFormed(env, ms) && 1 <= t <= |Recorded(env, ms, 0)| && pos == Recorded(env, ms, 0)[t - 1]
    ensures Agrees(env, ms, t, count, Collect(env.file, pos, env.Cap(), count))
  {
    var i := Chosen(env, ms, 0)[t - 1];
    AnswerCollects(env, ms, t, count, i);
    SpanOfReply(env, ms, t, count, i, Longest(ms, i, count, env.Cap()));
  }

  /** Retransmission agrees with downstream. In every reachable state of the ring, if the lookup answers for a
      number t >= 1, the reply to (t, count) agrees with what downstream numbers from t on. */
  lemma ReplyAgrees(env: Env, ms: seq<Message>, log: seq<nat>, t: U64, count: nat)
    requires WellFormed(env, ms) && log <= Recorded(env, ms, 0) && |log| < TWO_TO_THE_64 && t >= 1
    requires Buffer.Lookup(Buffer.PushAll(env.ringSize, log), t).Some?
    ensures var pos := Buffer.Lookup(Buffer.PushAll(env.ringSize, log), t).value;
            Agrees(env, ms, t, count, Collect(env.file, pos, env.Cap(), count))
  {
    Buffer.RingRefinesWindow(env.ringSize, log, t);
    AnswerAgrees(env, ms, t, count, log[t - 1]);
  }

  const LATE_SKIP := [Tiny(5), Tiny(5), Tiny(1), Tiny(6)]

  lemma LateSkipCourse(env: Env)
    requires env.file == Flatten(LATE_SKIP) && env.skipBefore == 3 && env.Cap() == 26
    ensures WellFormed(env, LATE_SKIP)
    ensures Groups(env, LATE_SKIP, 0) == [[Tiny(5), Tiny(5)], [Tiny(6)]]
    ensures RunEnd(LATE_SKIP, 1, 26) == 3
  {
    var ms := LATE_SKIP;
    TimeOfTiny(5);
    TimeOfTiny(1);
    TimeOfTiny(6);
    assert RunEnd(ms, 2, 0) == 2 && RunEnd(ms, 1, 13) == 2 && RunEnd(ms, 0, 26) == 2;
    assert RunEnd(ms, 4, 13) == 4 && RunEnd(ms, 3, 26) == 4;
    assert RunEnd(ms, 3, 0) == 3 && RunEnd(ms, 2, 13) == 3;
    assert ms[0..2] == [Tiny(5), Tiny(5)] && ms[3..4] == [Tiny(6)];
    assert Groups(env, ms, 3) == [ms[3..4]] + Groups(env, ms, 4);
    assert Groups(env, ms, 2) == Groups(env, ms, 3);
  }

  // It does go wrong: here downstream gives number 3 to the message stamped 6, but the reply to (2, 2) sends the
  // skipped message stamped 1 in its place.
  lemma SkippedInReply(env: Env)
    requires env.file == Flatten(LATE_SKIP) && env.skipBefore == 3 && env.Cap() == 26
    ensures WellFormed(env, LATE_SKIP) && Run(env, 5).halted
    ensures Sent(Run(env, 5)) == [Tiny(5), Tiny(5), Tiny(6)]
    ensures |Run(env, 5).log| == 3 && Collect(env.file, Run(env, 5).log[1], env.Cap(), 2) == [Tiny(5), Tiny(1)]
  {
    var ms := LATE_SKIP;
    LateSkipCourse(env);
    RunHalts(env, ms, 5);
    WholeRunExact(env, ms, 5);
    RunPrefix(env, ms, 5);
    LateSkipNumbers();
    ChosenAt(env, ms, 0, 1);
    FramesOf(env, ms);
    CollectAtBoundary(ms, 1, 26, 2);
    assert ms[1..3] == [Tiny(5), Tiny(1)];
    assert Chosen(env, ms, 0) == Indices(0, 2) + Chosen(env, ms, 2);
    StartsAt(ms, 0, 2, 1);
  }

  lemma LateSkipNumbers()
    ensures Flatten([[Tiny(5), Tiny(5)], [Tiny(6)]]) == [Tiny(5), Tiny(5), Tiny(6)]
  {
    assert [[Tiny(5), Tiny(5)], [Tiny(6)]][1..] == [[Tiny(6)]];
    FlattenOne([Tiny(6)]);
  }

  /* ---- Closing a gap ---- */

  // The positions pushed so far, few enough for their numbers to fit 64 bits.
  type Log = log: seq<nat> | |log| < TWO_TO_THE_64

  // The most a client asks for at once: less than the count that would make a full reply look like the end.
  type Limit = c: U16 | 0 < c < END_OF_SESSION_COUNT witness 1

  function Asked(limit: Limit, missing: nat): (count: U16)
    ensures count <= limit && count <= missing && (missing > 0 ==> count > 0)
  {
    if missing < limit then missing else limit
  }

  // What a client gets out of the server's response to a request: the messages decoded from the datagram, if any.
  function Heeded(env: Env, response: Option<Packet>): seq<Message> {
    match response
    case None => []
    case Some(p) =>
      match Decode(Encode(env.session, p))
      case None => []
      case Some(d) => d.messages
  }

  // A client that has everything up to number `have` asks for what it lacks up to `want`, and gets this. Nothing is
  // asked for once everything is there.
  ghost predicate Heard(env: Env, limit: Limit, log: Log, have: nat, want: nat, got: seq<Message>) {
    got == if have >= want then []
           else Heeded(env, Respond(env, Buffer.PushAll(env.ringSize, log),
                                    Header(env.session, have + 1, Asked(limit, want - have))))
  }

  // After the pushes in `log` every number of the gap is still in the window.
  ghost predicate Serves(env: Env, ms: seq<Message>, log: Log, have: nat, want: nat)
    requires WellFormed(env, ms)
  {
    log <= Recorded(env, ms, 0) && want <= |log| <= have + env.ringSize
  }

  lemma RecordedBound(env: Env, ms: seq<Message>)
    requires WellFormed(env, ms)
    ensures |Recorded(env, ms, 0)| + env.ringSize < TWO_TO_THE_64
  {
    RunHalts(env, ms, |ms| + 1);
    WholeRunExact(env, ms, |ms| + 1);
    RunPrefix(env, ms, |ms| + 1);
  }

  lemma ResponseIs(env: Env, ring: Buffer.Ring, request: seq<Byte>, start: U64, count: U16, pos: nat)
    requires |ring.slots| == env.ringSize && Buffer.Lookup(ring, start) == Some(pos)
    requires |request| == HEADER_LENGTH && request[..SESSION_SIZE] == env.session
    requires BigEndian(request[SEQUENCE_NUMBER_OFFSET..MESSAGE_COUNT_OFFSET]) == start
    requires BigEndian(request[MESSAGE_COUNT_OFFSET..HEADER_LENGTH]) == count
    ensures Respond(env, ring, request) == Some(Packet(start, Collect(env.file, pos, env.Cap(), count)))
  {
  }

  lemma ResponseToHeader(env: Env, ring: Buffer.Ring, start: U64, count: U16, pos: nat)
    requires |ring.slots| == env.ringSize && Buffer.Lookup(ring, start) == Some(pos)
    ensures Respond(env, ring, Header(env.session, start, count))
         == Some(Packet(start, Collect(env.file, pos, env.Cap(), count)))
  {
    HeaderAlone(env.session, start, count);
    ResponseIs(env, ring, Header(env.session, start, count), start, count, pos);
  }

  // The server's response to a request's bytes is labelled with the number asked for and starts at its position,
  lemma ResponseToBytes(env: Env, log: Log, have: nat, count: U16)
    requires have < |log| <= have + env.ringSize && |log| + env.ringSize < TWO_TO_THE_64
    ensures Respond(env, Buffer.PushAll(env.ringSize, log), Header(env.session, have + 1, count))
         == Some(Packet(have + 1, Collect(env.file, log[have], env.Cap(), count)))
  {
    Buffer.RingAnswers(env.ringSize, log, have + 1);
    ResponseToHeader(env, Buffer.PushAll(env.ringSize, log), have + 1, count, log[have]);
  }

  // and the client decodes exactly its messages, whatever the MTU.
  lemma HeardCollects(env: Env, limit: Limit, log: Log, have: nat, want: nat, got: seq<Message>)
    requires have < want <= |log| <= have + env.ringSize && |log| + env.ringSize < TWO_TO_THE_64
    requires Heard(env, limit, log, have, want, got)
    ensures got == Collect(env.file, log[have], env.Cap(), Asked(limit, want - have))
  {
    ResponseToBytes(env, log, have, Asked(limit, want - have));
    HeedsCollected(env, have + 1, log[have], Asked(limit, want - have));
  }

  lemma HeedsCollected(env: Env, number: U64, pos: nat, count: nat)
    requires count < END_OF_SESSION_COUNT
    ensures Heeded(env, Some(Packet(number, Collect(env.file, pos, env.Cap(), count))))
         == Collect(env.file, pos, env.Cap(), count)
  {
    CollectYieldsFrames(env.file, pos, env.Cap(), count);
    RoundTripExact(env.session, Packet(number, Collect(env.file, pos, env.Cap(), count)));
  }

  // How many messages that reply spans.
  function Span(env: Env, limit: Limit, ms: seq<Message>, have: nat, missing: nat): (c: nat)
    requires WellFormed(env, ms) && have < |Chosen(env, ms, 0)| && missing > 0
    ensures 0 < c <= missing && Chosen(env, ms, 0)[have] + c <= |ms|
  {
    ChosenAt(env, ms, 0, have);
    OneMessageFits(env, ms, Chosen(env, ms, 0)[have], Asked(limit, missing));
    Longest(ms, Chosen(env, ms, 0)[have], Asked(limit, missing), env.Cap())
  }

  lemma OneMessageFits(env: Env, ms: seq<Message>, i: nat, count: nat)
    requires WellFormed(env, ms) && i < |ms| && count > 0
    ensures Longest(ms, i, count, env.Cap()) > 0
  {
    assert Usable(env, ms[i]);
    FlattenOne(ms[i]);
    assert ms[i..i + 1] == [ms[i]];
    LongestIsLargest(ms, i, count, env.Cap(), 1);
  }

  // What one request for the rest of the gap brings: at least one message, and the right ones exactly if downstream
  // skipped none of those the reply spans.
  ghost predicate Brings(env: Env, limit: Limit, ms: seq<Message>, have: nat, want: nat, got: seq<Message>)
    requires WellFormed(env, ms) && have < want <= |Chosen(env, ms, 0)|
  {
    var i := Chosen(env, ms, 0)[have];
    && |got| == Span(env, limit, ms, have, want - have)
    && (got <= Selected(env, ms)[have..] <==> NoneSkipped(env, ms, i, i + |got|))
  }

  lemma CollectBrings(env: Env, limit: Limit, ms: seq<Message>, have: nat, want: nat)
    requires WellFormed(env, ms) && have < want <= |Chosen(env, ms, 0)|
    ensures Brings(env, limit, ms, have, want,
                   Collect(env.file, Recorded(env, ms, 0)[have], env.Cap(), Asked(limit, want - have)))
  {
    AnswerCollects(env, ms, have + 1, Asked(limit, want - have), Chosen(env, ms, 0)[have]);
    SpanAgrees(env, ms, have, Span(env, limit, ms, have, want - have));
  }

  // Everything up to this number is there when request r is made.
  function HaveAt(gots: seq<seq<Message>>, have: nat, r: nat): nat
    requires r <= |gots|
  {
    have + Boundary(gots, r)
  }

  /** A client closing a gap: having everything up to number `have` and wanting everything up to `want`, ask
      for what is missing, take what comes, go on until nothing is missing. gots[r] is what request r brings and
      logs[r] what had been pushed by then, for the writer may push between requests. */
  ghost predicate Exchange(env: Env, limit: Limit, logs: seq<Log>, gots: seq<seq<Message>>, have: nat, want: nat) {
    && |gots| == |logs|
    && forall r: nat {:trigger HaveAt(gots, have, r)} | r < |gots| ::
         Heard(env, limit, logs[r], HaveAt(gots, have, r), want, gots[r])
  }

  // Every request is met with something, so there is an exchange for any logs.
  lemma SomethingHeard(env: Env, limit: Limit, log: Log, have: nat, want: nat) returns (got: seq<Message>)
    ensures Heard(env, limit, log, have, want, got)
  {
    got := if have >= want then []
           else Heeded(env, Respond(env, Buffer.PushAll(env.ringSize, log),
                                    Header(env.session, have + 1, Asked(limit, want - have))));
  }

  lemma ExchangeGrows(env: Env, limit: Limit, logs: seq<Log>, gots: seq<seq<Message>>, got: seq<Message>,
                      have: nat, want: nat, r: nat)
    requires r <= |gots| < |logs| && Exchange(env, limit, logs[..|gots|], gots, have, want)
    requires Heard(env, limit, logs[|gots|], HaveAt(gots, have, |gots|), want, got)
    ensures Heard(env, limit, logs[r], HaveAt(gots + [got], have, r), want, (gots + [got])[r])
  {
    assert (gots + [got])[..r] == gots[..r];
    assert HaveAt(gots + [got], have, r) == HaveAt(gots, have, r);
  }

  lemma {:induction false} ExchangeExists(env: Env, limit: Limit, logs: seq<Log>, have: nat, want: nat)
    returns (gots: seq<seq<Message>>)
    ensures Exchange(env, limit, logs, gots, have, want)
  {
    gots := [];
    if logs != [] {
      var n := |logs| - 1;
      var before := ExchangeExists(env, limit, logs[..n], have, want);
      var got := SomethingHeard(env, limit, logs[n], HaveAt(before, have, n), want);
      gots := before + [got];
      forall r: nat {:trigger HaveAt(gots, have, r)} | r < |gots|
        ensures Heard(env, limit, logs[r], HaveAt(gots, have, r), want, gots[r])
      {
        ExchangeGrows(env, limit, logs, before, got, have, want, r);
      }
    }
  }

  // None of the requests spans a skipped message.
  ghost predicate Smooth(env: Env, limit: Limit, ms: seq<Message>, have: nat, want: nat)
    requires WellFormed(env, ms) && want <= |Chosen(env, ms, 0)|
    decreases want - have
  {
    have < want ==>
      var i, c := Chosen(env, ms, 0)[have], Span(env, limit, ms, have, want - have);
      NoneSkipped(env, ms, i, i + c) && Smooth(env, limit, ms, have + c, want)
  }

  lemma Glue(got: seq<Message>, rest: seq<Message>, all: seq<Message>, i: nat, k: nat)
    requires i <= k <= |all| && i + |got| <= k
    ensures got + rest == all[i..k] <==> got <= all[i..] && rest == all[i + |got|..k]
  {
    var j := i + |got|;
    assert all[i..k] == all[i..j] + all[j..k];
    assert got + rest == all[i..k] ==> got == (got + rest)[..|got|] && rest == (got + rest)[|got|..];
    assert got <= all[i..] ==> got == all[i..][..|got|];
  }

  // Each request brings its part.
  ghost predicate AllBring(env: Env, limit: Limit, ms: seq<Message>, gots: seq<seq<Message>>, have: nat, want: nat)
    requires WellFormed(env, ms) && want <= |Chosen(env, ms, 0)|
  {
    forall r: nat {:trigger HaveAt(gots, have, r)} | r < |gots| ::
      var h := HaveAt(gots, have, r);
      if h < want then Brings(env, limit, ms, h, want, gots[r]) else gots[r] == []
  }

  lemma ExchangeBrings(env: Env, limit: Limit, ms: seq<Message>, logs: seq<Log>, gots: seq<seq<Message>>,
                       have: nat, want: nat)
    requires WellFormed(env, ms) && want <= |Chosen(env, ms, 0)| && Exchange(env, limit, logs, gots, have, want)
    requires forall r: nat {:trigger logs[r]} | r < |logs| :: Serves(env, ms, logs[r], have, want)
    ensures AllBring(env, limit, ms, gots, have, want)
  {
    RecordedBound(env, ms);
    forall r: nat {:trigger HaveAt(gots, have, r)} | r < |gots|
      ensures var h := HaveAt(gots, have, r);
              if h < want then Brings(env, limit, ms, h, want, gots[r]) else gots[r] == []
    {
      var h := HaveAt(gots, have, r);
      if h < want {
        HeardCollects(env, limit, logs[r], h, want, gots[r]);
        CollectBrings(env, limit, ms, h, want);
      }
    }
  }

  lemma {:induction false} RightIfSmooth(env: Env, limit: Limit, ms: seq<Message>, gots: seq<seq<Message>>,
                                         have: nat, want: nat, r: nat)
    requires WellFormed(env, ms) && want <= |Chosen(env, ms, 0)| && AllBring(env, limit, ms, gots, have, want)
    requires r <= |gots| && HaveAt(gots, have, r) <= want <= HaveAt(gots, have, r) + (|gots| - r)
    ensures Flatten(gots[r..]) == Selected(env, ms)[HaveAt(gots, have, r)..want]
            <==> Smooth(env, limit, ms, HaveAt(gots, have, r), want)
    decreases |gots| - r
  {
    if r < |gots| {
      PieceAt(gots, r);
      RightIfSmooth(env, limit, ms, gots, have, want, r + 1);
      assert gots[r..][1..] == gots[r + 1..];
      Glue(gots[r], Flatten(gots[r + 1..]), Selected(env, ms), HaveAt(gots, have, r), want);
    }
  }

  lemma BringingIsRight(env: Env, limit: Limit, ms: seq<Message>, gots: seq<seq<Message>>, have: nat, want: nat)
    requires WellFormed(env, ms) && want <= |Chosen(env, ms, 0)| && AllBring(env, limit, ms, gots, have, want)
    requires have <= want <= have + |gots|
    ensures Flatten(gots) == Selected(env, ms)[have..want] <==> Smooth(env, limit, ms, have, want)
  {
    BoundaryEnds(gots);
    assert gots[0..] == gots;
    RightIfSmooth(env, limit, ms, gots, have, want, 0);
  }

  lemma {:induction false} ChosenSpread(env: Env, ms: seq<Message>, a: nat, b: nat)
    requires WellFormed(env, ms) && a <= b < |Chosen(env, ms, 0)|
    ensures Chosen(env, ms, 0)[b] >= Chosen(env, ms, 0)[a] + (b - a)
  {
    if a < b {
      ChosenSpread(env, ms, a, b - 1);
      ChosenIncreases(env, ms, 0, b - 1, b);
    }
  }

  lemma {:induction false} SmoothInside(env: Env, limit: Limit, ms: seq<Message>, have: nat, want: nat)
    requires WellFormed(env, ms) && have < want <= |Chosen(env, ms, 0)|
    requires NoneSkipped(env, ms, Chosen(env, ms, 0)[have], Chosen(env, ms, 0)[want - 1] + 1)
    ensures Smooth(env, limit, ms, have, want)
    decreases want - have
  {
    var c := Span(env, limit, ms, have, want - have);
    ChosenSpread(env, ms, have, want - 1);
    if have + c < want {
      ChosenSpread(env, ms, have, have + c);
      SmoothInside(env, limit, ms, have + c, want);
    }
  }

  /** Gap recovery. As long as the gap stays in the window, as many requests as there are missing messages suffice,
      and they yield exactly the missing messages, in order, if and only if no request spans a skipped message;
      so they do whenever nothing was skipped inside the gap, and always where nothing is skipped once
      downstream has started. */
  lemma GapRecovered(env: Env, limit: Limit, ms: seq<Message>, logs: seq<Log>, gots: seq<seq<Message>>,
                     have: nat, want: nat)
    requires WellFormed(env, ms) && have < want <= |Chosen(env, ms, 0)| && want - have <= |logs|
    requires forall r: nat {:trigger logs[r]} | r < |logs| :: Serves(env, ms, logs[r], have, want)
    requires Exchange(env, limit, logs, gots, have, want)
    ensures Flatten(gots) == Selected(env, ms)[have..want] <==> Smooth(env, limit, ms, have, want)
    ensures NoneSkipped(env, ms, Chosen(env, ms, 0)[have], Chosen(env, ms, 0)[want - 1] + 1) ==>
              Smooth(env, limit, ms, have, want)
    ensures SkipsOnlyAhead(env, ms) ==> Smooth(env, limit, ms, have, want)
  {
    ExchangeBrings(env, limit, ms, logs, gots, have, want);
    BringingIsRight(env, limit, ms, gots, have, want);
    SmoothCases(env, limit, ms, have, want);
  }

  lemma SmoothCases(env: Env, limit: Limit, ms: seq<Message>, have: nat, want: nat)
    requires WellFormed(env, ms) && have < want <= |Chosen(env, ms, 0)|
    ensures NoneSkipped(env, ms, Chosen(env, ms, 0)[have], Chosen(env, ms, 0)[want - 1] + 1) ==>
              Smooth(env, limit, ms, have, want)
    ensures SkipsOnlyAhead(env, ms) ==> Smooth(env, limit, ms, have, want)
  {
    if SkipsOnlyAhead(env, ms) {
      AheadIndex(env, ms, have);
      AheadIndex(env, ms, want - 1);
      NoneSkippedAhead(env, ms, Chosen(env, ms, 0)[have], Chosen(env, ms, 0)[want - 1] + 1);
    }
    if NoneSkipped(env, ms, Chosen(env, ms, 0)[have], Chosen(env, ms, 0)[want - 1] + 1) {
      SmoothInside(env, limit, ms, have, want);
    }
  }
}
