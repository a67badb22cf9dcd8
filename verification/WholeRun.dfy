/** What a replay of a well-formed file sends and records, whatever its timestamps. */
module WholeRun {
  import opened Bytes
  import opened Framing
  import opened Packing
  import opened Replay
  import opened Sequences
  import opened Wire
  import Timestamp

  // A file of complete messages, each long enough to hold its timestamp and short enough for one packet.
  predicate WellFormed(env: Env, ms: seq<Message>) {
    && env.file == Flatten(ms)
    && forall i {:trigger Usable(env, ms[i])} | 0 <= i < |ms| :: Usable(env, ms[i])
  }

  predicate Usable(env: Env, m: Message) {
    IsFrame(m) && TIMESTAMP_END <= |m| <= env.Cap()
  }

  function TimeOf(m: Message): nat {
    if |m| < TIMESTAMP_END then 0
    else Timestamp.Value(m, PREFIX_SIZE + Timestamp.TIMESTAMP_OFFSET, Timestamp.TIMESTAMP_SIZE)
  }

  predicate Keeps(env: Env, m: Message) {
    TimeOf(m) >= env.skipBefore
  }

  lemma FramesOf(env: Env, ms: seq<Message>)
    requires WellFormed(env, ms)
    ensures AllFrames(ms) && EachFits(ms, env.Cap())
  {
    forall i | 0 <= i < |ms| ensures IsFrame(ms[i]) && FitsIn(ms[i], env.Cap()) {
      assert Usable(env, ms[i]);
    }
  }

  // The peek at a boundary reads the message's own timestamp, never the bytes beyond the file.
  lemma PeekAtBoundary(env: Env, ms: seq<Message>, k: nat)
    requires WellFormed(env, ms) && k < |ms|
    ensures Boundary(ms, k) + PEEK_SIZE <= |env.file|
    ensures env.SkipsAt(Boundary(ms, k)) <==> !Keeps(env, ms[k])
  {
    var b := Boundary(ms, k);
    assert Usable(env, ms[k]);
    FramesOf(env, ms);
    ScanAtBoundary(ms, k);
    SameTimestamp(env.file, env.beyond, b, ms[k]);
  }

  lemma SameTimestamp(file: seq<Byte>, beyond: seq<Byte>, b: nat, m: Message)
    requires |m| >= TIMESTAMP_END && b + |m| <= |file| && file[b..b + |m|] == m
    ensures Timestamp.Value(file + beyond, b + 7, 6) == TimeOf(m)
  {
    forall i | 7 <= i < 13 ensures (file + beyond)[b + i] == m[i] {
      assert m[i] == file[b..b + |m|][i];
    }
    assert (file + beyond)[b + 7..b + 13] == m[7..13];
    Timestamp.SameValue(file + beyond, b + 7, m, 7, 6);
  }

  lemma TimeOfTiny(t: Byte)
    ensures TimeOf(Tiny(t)) == t as int
  {
    var m := Tiny(t);
    assert Timestamp.Value(m, 7, 2) == 0;
    assert Timestamp.Value(m, 7, 4) == 0;
    assert Timestamp.Value(m, 7, 5) == 0;
  }

  // The indices k to n - 1, and where those messages start in the file.
  function Indices(k: nat, n: nat): (r: seq<nat>)
    requires k <= n
    ensures |r| == n - k
    decreases n - k
  {
    if k == n then [] else [k] + Indices(k + 1, n)
  }

  function Starts(ms: seq<Message>, k: nat, n: nat): (r: seq<nat>)
    requires k <= n <= |ms|
    ensures |r| == n - k
    decreases n - k
  {
    if k == n then [] else [Boundary(ms, k)] + Starts(ms, k + 1, n)
  }

  lemma {:induction false} IndicesAt(k: nat, n: nat, i: nat)
    requires k + i < n
    ensures Indices(k, n)[i] == k + i
    decreases i
  {
    if i > 0 { IndicesAt(k + 1, n, i - 1); }
  }

  lemma StartsNext(ms: seq<Message>, k: nat, n: nat)
    requires k < n <= |ms|
    ensures Starts(ms, k, n) == [Boundary(ms, k)] + Starts(ms, k + 1, n)
  {
  }

  lemma {:induction false} StartsAt(ms: seq<Message>, k: nat, n: nat, i: nat)
    requires k + i < n <= |ms|
    ensures Indices(k, n)[i] == k + i
    ensures Starts(ms, k, n)[i] == Boundary(ms, k + i)
    decreases i
  {
    IndicesAt(k, n, i);
    StartsNext(ms, k, n);
    if i > 0 { StartsAt(ms, k + 1, n, i - 1); }
  }

  lemma HeadFirst(ms: seq<Message>, k: nat, n: nat)
    requires k < n <= |ms|
    ensures ms[k..n] == [ms[k]] + ms[k + 1..n]
  {
  }

  lemma PackTakes(file: seq<Byte>, pos: nat, room: nat, m: Message, rest: Packed)
    requires pos <= |file| && Takes(file, pos, room) && m == file[pos..EndAt(file, pos)]
    requires rest == Pack(file, EndAt(file, pos), room - |m|)
    ensures Pack(file, pos, room) == Packed([m] + rest.messages, [pos] + rest.starts, rest.end)
  {
  }

  // Packing from a boundary takes the longest run of messages that fits.
  lemma {:induction false} PackAtBoundary(ms: seq<Message>, k: nat, room: nat)
    requires AllFrames(ms) && k <= |ms|
    ensures Boundary(ms, k) <= |Flatten(ms)|
    ensures var n := RunEnd(ms, k, room);
            Pack(Flatten(ms), Boundary(ms, k), room) == Packed(ms[k..n], Starts(ms, k, n), Boundary(ms, n))
    decreases |ms| - k
  {
    if k == |ms| {
      BoundaryEnds(ms);
    } else {
      ScanAtBoundary(ms, k);
      if |ms[k]| <= room {
        var n := RunEnd(ms, k, room);
        PackAtBoundary(ms, k + 1, room - |ms[k]|);
        PackTakes(Flatten(ms), Boundary(ms, k), room, ms[k],
                  Packed(ms[k + 1..n], Starts(ms, k + 1, n), Boundary(ms, n)));
        HeadFirst(ms, k, n);
        StartsNext(ms, k, n);
      }
    }
  }

  lemma IterateSkips(env: Env, ms: seq<Message>, k: nat, s: State)
    requires WellFormed(env, ms) && k < |ms| && !Keeps(env, ms[k])
    requires Sound(env, s) && !s.halted && s.pos == Boundary(ms, k)
    ensures Iterate(env, s) == s.(pos := Boundary(ms, k + 1))
  {
    FramesOf(env, ms);
    PeekAtBoundary(env, ms, k);
    ScanAtBoundary(ms, k);
  }

  lemma IterateSends(env: Env, ms: seq<Message>, k: nat, n: nat, s: State)
    requires WellFormed(env, ms) && k < |ms| && Keeps(env, ms[k]) && n == RunEnd(ms, k, env.Cap())
    requires Sound(env, s) && !s.halted && s.pos == Boundary(ms, k)
    ensures Iterate(env, s) == State(Boundary(ms, n), s.seqNo + (n - k), s.log + Starts(ms, k, n),
                                     s.packets + [Packet(s.seqNo, ms[k..n])], false)
  {
    FramesOf(env, ms);
    PeekAtBoundary(env, ms, k);
    PackAtBoundary(ms, k, env.Cap());
  }

  function Bodies(packets: seq<Packet>): (r: seq<seq<Message>>)
    ensures |r| == |packets|
  {
    if packets == [] then [] else Bodies(packets[..|packets| - 1]) + [packets[|packets| - 1].messages]
  }

  // All messages sent so far, in the order they left.
  function Sent(s: State): seq<Message> {
    Flatten(Bodies(s.packets))
  }

  lemma SentSnoc(packets: seq<Packet>, p: Packet)
    ensures Bodies(packets + [p]) == Bodies(packets) + [p.messages]
  {
    assert (packets + [p])[..|packets|] == packets;
  }

  /* ---- The course of a replay: what each packet start leads to ---- */

  // Where the packet that starts at message k ends.
  function PacketEnd(env: Env, ms: seq<Message>, k: nat): (n: nat)
    requires WellFormed(env, ms) && k < |ms|
    ensures k < n <= |ms|
  {
    assert Usable(env, ms[k]);
    RunEnd(ms, k, env.Cap())
  }

  // The message at which the iteration after the one at message k begins.
  function NextStand(env: Env, ms: seq<Message>, k: nat): (k': nat)
    requires WellFormed(env, ms) && k < |ms|
    ensures k < k' <= |ms|
  {
    if Keeps(env, ms[k]) then PacketEnd(env, ms, k) else k + 1
  }

  // The message at which the replay stands after n iterations.
  function Stand(env: Env, ms: seq<Message>, n: nat): (k: nat)
    requires WellFormed(env, ms)
    ensures k <= |ms|
  {
    if n == 0 then 0
    else
      var k := Stand(env, ms, n - 1);
      if k == |ms| then k else NextStand(env, ms, k)
  }

  // The indices of the messages sent from k on: a message is skipped only where a packet would start.
  function Chosen(env: Env, ms: seq<Message>, k: nat): (r: seq<nat>)
    requires WellFormed(env, ms) && k <= |ms|
    decreases |ms| - k
  {
    if k == |ms| then []
    else if !Keeps(env, ms[k]) then Chosen(env, ms, k + 1)
    else Indices(k, PacketEnd(env, ms, k)) + Chosen(env, ms, PacketEnd(env, ms, k))
  }

  // Their positions in the file, in the order they are pushed.
  function Recorded(env: Env, ms: seq<Message>, k: nat): (r: seq<nat>)
    requires WellFormed(env, ms) && k <= |ms|
    ensures |r| == |Chosen(env, ms, k)|
    decreases |ms| - k
  {
    if k == |ms| then []
    else if !Keeps(env, ms[k]) then Recorded(env, ms, k + 1)
    else Starts(ms, k, PacketEnd(env, ms, k)) + Recorded(env, ms, PacketEnd(env, ms, k))
  }

  // The same messages packet by packet.
  function Groups(env: Env, ms: seq<Message>, k: nat): (bs: seq<seq<Message>>)
    requires WellFormed(env, ms) && k <= |ms|
    ensures |Flatten(bs)| == |Chosen(env, ms, k)|
    decreases |ms| - k
  {
    if k == |ms| then []
    else if !Keeps(env, ms[k]) then Groups(env, ms, k + 1)
    else [ms[k..PacketEnd(env, ms, k)]] + Groups(env, ms, PacketEnd(env, ms, k))
  }

  // Everything a full replay sends: number t belongs to Selected[t - 1].
  function Selected(env: Env, ms: seq<Message>): seq<Message>
    requires WellFormed(env, ms)
  {
    Flatten(Groups(env, ms, 0))
  }

  lemma {:induction false} ChosenAt(env: Env, ms: seq<Message>, k: nat, i: nat)
    requires WellFormed(env, ms) && k <= |ms| && i < |Chosen(env, ms, k)|
    ensures k <= Chosen(env, ms, k)[i] < |ms|
    ensures Recorded(env, ms, k)[i] == Boundary(ms, Chosen(env, ms, k)[i])
    ensures Flatten(Groups(env, ms, k))[i] == ms[Chosen(env, ms, k)[i]]
    decreases |ms| - k
  {
    if !Keeps(env, ms[k]) {
      ChosenAt(env, ms, k + 1, i);
    } else {
      var n := PacketEnd(env, ms, k);
      if i < n - k {
        StartsAt(ms, k, n, i);
      } else {
        ChosenAt(env, ms, n, i - (n - k));
      }
    }
  }

  lemma Regroup<T>(done: seq<T>, next: seq<T>, rest: seq<T>)
    ensures (done + next) + rest == done + (next + rest)
  {
  }

  // One iteration at message k, in whatever state the feed got there, moves what is next from the rest to the done.
  lemma SendingCourse(env: Env, ms: seq<Message>, k: nat, n: nat, s: State)
    requires WellFormed(env, ms) && k < |ms| && Keeps(env, ms[k]) && n == PacketEnd(env, ms, k)
    requires Sound(env, s) && !s.halted && s.pos == Boundary(ms, k)
    ensures !Iterate(env, s).halted && Iterate(env, s).pos == Boundary(ms, n)
    ensures Bodies(Iterate(env, s).packets) + Groups(env, ms, n) == Bodies(s.packets) + Groups(env, ms, k)
    ensures Iterate(env, s).log + Recorded(env, ms, n) == s.log + Recorded(env, ms, k)
  {
    IterateSends(env, ms, k, n, s);
    SentSnoc(s.packets, Packet(s.seqNo, ms[k..n]));
    Regroup(Bodies(s.packets), [ms[k..n]], Groups(env, ms, n));
    Regroup(s.log, Starts(ms, k, n), Recorded(env, ms, n));
  }

  /** The course of a replay. After any number of iterations the loop stands at a message boundary, what it has
      sent and pushed and what it would still send and push from there make up the whole, and it has left
      the loop exactly if the previous test found the end of the file. */
  lemma {:induction false} RunCourse(env: Env, ms: seq<Message>, n: nat)
    requires WellFormed(env, ms)
    ensures Run(env, n).pos == Boundary(ms, Stand(env, ms, n))
    ensures Run(env, n).halted <==> n > 0 && Stand(env, ms, n - 1) == |ms|
    ensures Bodies(Run(env, n).packets) + Groups(env, ms, Stand(env, ms, n)) == Groups(env, ms, 0)
    ensures Run(env, n).log + Recorded(env, ms, Stand(env, ms, n)) == Recorded(env, ms, 0)
  {
    BoundaryEnds(ms);
    if n > 0 {
      RunCourse(env, ms, n - 1);
      CourseStep(env, ms, n - 1);
    }
  }

  lemma CourseStep(env: Env, ms: seq<Message>, n: nat)
    requires WellFormed(env, ms)
    requires Run(env, n).pos == Boundary(ms, Stand(env, ms, n))
    requires Run(env, n).halted ==> Stand(env, ms, n) == |ms|
    ensures Run(env, n + 1).pos == Boundary(ms, Stand(env, ms, n + 1))
    ensures Run(env, n + 1).halted <==> Stand(env, ms, n) == |ms|
    ensures Bodies(Run(env, n + 1).packets) + Groups(env, ms, Stand(env, ms, n + 1))
         == Bodies(Run(env, n).packets) + Groups(env, ms, Stand(env, ms, n))
    ensures Run(env, n + 1).log + Recorded(env, ms, Stand(env, ms, n + 1))
         == Run(env, n).log + Recorded(env, ms, Stand(env, ms, n))
  {
    var k := Stand(env, ms, n);
    if k == |ms| {
      BoundaryEnds(ms);
    } else if Keeps(env, ms[k]) {
      SendingCourse(env, ms, k, PacketEnd(env, ms, k), Run(env, n));
    } else {
      IterateSkips(env, ms, k, Run(env, n));
    }
  }

  // What has been sent and pushed so far, as prefixes of the whole.
  lemma RunPrefix(env: Env, ms: seq<Message>, n: nat)
    requires WellFormed(env, ms)
    ensures Bodies(Run(env, n).packets) <= Groups(env, ms, 0)
    ensures Run(env, n).log <= Recorded(env, ms, 0)
    ensures Sent(Run(env, n)) + Flatten(Groups(env, ms, Stand(env, ms, n))) == Selected(env, ms)
    ensures |Sent(Run(env, n))| == |Run(env, n).log|
  {
    RunCourse(env, ms, n);
    FlattenAppend(Bodies(Run(env, n).packets), Groups(env, ms, Stand(env, ms, n)));
    assert |Recorded(env, ms, 0)| == |Selected(env, ms)|;
  }

  /** Whole-run exactness. However early it stops, the replay has sent a prefix of the selected messages, each
      once and in order, and announces one more than their number; run to the end, it has sent them all. */
  lemma WholeRunExact(env: Env, ms: seq<Message>, n: nat)
    requires WellFormed(env, ms)
    ensures Sent(Run(env, n)) <= Selected(env, ms)
    ensures Run(env, n).seqNo == 1 + |Sent(Run(env, n))|
    ensures Run(env, n).halted ==> Sent(Run(env, n)) == Selected(env, ms)
    ensures Consecutive(Run(env, n).packets, Run(env, n).seqNo)
  {
    RunPrefix(env, ms, n);
    RunCourse(env, ms, n);
    NumbersAreConsecutive(env, n);
    assert Run(env, n).halted ==> Flatten(Groups(env, ms, Stand(env, ms, n))) == [];
  }

  lemma {:induction false} StandAdvances(env: Env, ms: seq<Message>, n: nat)
    requires WellFormed(env, ms)
    ensures Stand(env, ms, n) >= n || Stand(env, ms, n) == |ms|
  {
    if n > 0 { StandAdvances(env, ms, n - 1); }
  }

  // One iteration per message and one to notice the end always suffice.
  lemma RunHalts(env: Env, ms: seq<Message>, n: nat)
    requires WellFormed(env, ms) && n > |ms|
    ensures Run(env, n).halted
  {
    RunCourse(env, ms, n);
    StandAdvances(env, ms, n - 1);
  }

  lemma {:induction false} GroupsFit(env: Env, ms: seq<Message>, k: nat, i: nat)
    requires WellFormed(env, ms) && k <= |ms| && i < |Groups(env, ms, k)|
    ensures Groups(env, ms, k)[i] != [] && |Flatten(Groups(env, ms, k)[i])| <= env.Cap()
    decreases |ms| - k
  {
    if !Keeps(env, ms[k]) {
      GroupsFit(env, ms, k + 1, i);
    } else {
      var n := PacketEnd(env, ms, k);
      if i == 0 {
        RunEndIsLargest(ms, k, env.Cap(), n);
        SliceWidth(ms, k, n);
      } else {
        GroupsFit(env, ms, n, i - 1);
      }
    }
  }

  lemma {:induction false} BodyAt(packets: seq<Packet>, i: nat)
    requires i < |packets|
    ensures Bodies(packets)[i] == packets[i].messages
    decreases |packets|
  {
    if i < |packets| - 1 { BodyAt(packets[..|packets| - 1], i); }
  }

  // Every data packet holds at least one message and stays within the MTU.
  lemma PacketsNonempty(env: Env, ms: seq<Message>, n: nat, i: nat)
    requires WellFormed(env, ms) && i < |Run(env, n).packets|
    ensures Run(env, n).packets[i].messages != []
    ensures |Encode(env.session, Run(env, n).packets[i])| <= env.mtu
  {
    RunPrefix(env, ms, n);
    BodyAt(Run(env, n).packets, i);
    GroupsFit(env, ms, 0, i);
  }

  lemma {:induction false} NumberAt(packets: seq<Packet>, next: nat, i: nat)
    requires Consecutive(packets, next) && i < |packets|
    ensures packets[i].sequenceNumber == 1 + Boundary(Bodies(packets), i)
  {
    if i > 0 {
      NumberAt(packets, next, i - 1);
      BodyAt(packets, i - 1);
      PieceAt(Bodies(packets), i - 1);
    }
  }

  // What downstream puts under a number: packet i carries the messages numbered from its header on.
  lemma PacketCarries(env: Env, ms: seq<Message>, n: nat, i: nat, p: Packet)
    requires WellFormed(env, ms) && i < |Run(env, n).packets| && p == Run(env, n).packets[i]
    ensures 1 <= p.sequenceNumber && p.sequenceNumber - 1 + |p.messages| <= |Selected(env, ms)|
    ensures p.messages == Selected(env, ms)[p.sequenceNumber - 1..p.sequenceNumber - 1 + |p.messages|]
  {
    var bs := Bodies(Run(env, n).packets);
    RunPrefix(env, ms, n);
    NumbersAreConsecutive(env, n);
    NumberAt(Run(env, n).packets, Run(env, n).seqNo, i);
    BodyAt(Run(env, n).packets, i);
    PieceAt(bs, i);
    assert Sent(Run(env, n)) <= Selected(env, ms);
  }
}
