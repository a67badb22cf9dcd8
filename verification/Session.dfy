/** The whole server as threads taking turns: downstream, heartbeat and any number of ring readers. */
module Session {
  import opened Bytes
  import opened Framing
  import opened Replay
  import opened Wire
  import opened Wrappers
  import Buffer = RetransmissionBuffer

  // A packet under construction: the number in its header, what it holds, and the bytes left.
  datatype Draft = Draft(first: nat, messages: seq<Message>, starts: seq<nat>, room: nat)

  /** Where the downstream thread stands. Ring entries and the two shared counters are each written in a step
      of their own. */
  datatype Control =
    | Starting             // heartbeat not started yet
    | Top                  // at the loop test
    | Reading(d: Draft)    // at build_packet's loop test
    | Pushing(d: Draft)    // message accepted and numbered; ring entry not written
    | Publishing(d: Draft) // entry written; its number not published
    | Built(d: Draft)      // packet complete; counter for the heartbeat not stored
    | Sending(d: Draft)    // counter stored; datagram not sent
    | Stopping             // loop left, heartbeat asked to stop; waiting to join it
    | Ending               // heartbeat joined; sending end of session

  datatype Heartbeat =
    | NotStarted
    | Testing              // at its loop test
    | Loading              // about to read the counter
    | Carrying(seqNo: nat) // number read; datagram not sent
    | Exited

  datatype Reader =
    | Loaded(s: U64)  // the window test on the published number has passed
    | Answered(s: U64, answer: Option<nat>)

  datatype Output = DataOut(packet: Packet) | BeatOut(seqNo: nat) | EndOut(seqNo: nat)

  /** `log` lists the positions of the entries written so far, so the ring's slots are those of
      PushAll(log); `published` is the number readers see. `n` counts completed loop iterations. */
  datatype System = System(
    control: Control,
    pos: nat,
    seqNo: nat,
    log: seq<nat>,
    published: nat,
    sent: nat,
    heartbeat: Heartbeat,
    readers: map<nat, Reader>,
    trace: seq<Output>,
    n: nat)

  datatype Event =
    | Downstream(stop: bool)  // stop: what stop_requested() returns, where it is asked
    | Beating
    | Load(id: nat, s: U64)
    | Read(id: nat)

  const Start := System(Starting, 0, 1, [], 0, 1, NotStarted, map[], [], 0)

  function DownstreamStep(env: Env, st: System, stop: bool): System {
    match st.control
    case Starting => st.(control := Top, heartbeat := Testing)
    case Top =>
      if stop then st.(control := Stopping)
      else if st.pos + PEEK_SIZE > |env.file| then st.(control := Stopping, n := st.n + 1)
      else if env.SkipsAt(st.pos) then
        st.(pos := NextPos(env.file, st.pos), n := st.n + 1,
            control := if Complete(env.file, st.pos) then Top else Stopping)
      else st.(control := Reading(Draft(st.seqNo, [], [], env.Cap())))
    case Reading(d) =>
      if Takes(env.file, st.pos, d.room) then
        var m := env.file[st.pos..EndAt(env.file, st.pos)];
        st.(pos := EndAt(env.file, st.pos), seqNo := st.seqNo + 1,
            control := Pushing(Draft(d.first, d.messages + [m], d.starts + [st.pos], d.room - |m|)))
      else
        st.(pos := if Complete(env.file, st.pos) then st.pos else NextPos(env.file, st.pos), control := Built(d))
    case Pushing(d) =>
      if d.starts == [] then st
      else st.(log := st.log + [d.starts[|d.starts| - 1]], control := Publishing(d))
    case Publishing(d) => st.(published := |st.log|, control := Reading(d))
    case Built(d) => st.(sent := st.seqNo, control := Sending(d))
    case Sending(d) =>
      st.(trace := st.trace + [DataOut(Packet(d.first, d.messages))], n := st.n + 1, control := Top)
    case Stopping => if st.heartbeat.Exited? then st.(control := Ending) else st
    case Ending => if stop then st else st.(trace := st.trace + [EndOut(st.seqNo)])
  }

  function BeatingStep(st: System): System {
    match st.heartbeat
    case NotStarted => st
    case Testing => st.(heartbeat := if st.control.Stopping? then Exited else Loading)
    case Loading => st.(heartbeat := Carrying(st.sent))
    case Carrying(q) => st.(trace := st.trace + [BeatOut(q)], heartbeat := Testing)
    case Exited => st
  }

  // The numbers in play fit their 64-bit fields (no run ever leaves these bounds).
  predicate Bounded(env: Env, st: System) {
    |st.log| + env.ringSize < TWO_TO_THE_64 && st.published <= |st.log|
  }

  // file_position_for, first half: read the published number and test the window.
  function LoadStep(env: Env, st: System, id: nat, s: U64): System
    requires Bounded(env, st)
  {
    st.(readers := st.readers[id :=
      if Buffer.Excluded(env.ringSize, s, st.published) then Answered(s, None) else Loaded(s)])
  }

  // Second half: read the entry, in whatever state the writer has brought the ring to.
  function ReadStep(env: Env, st: System, id: nat): System
    requires Bounded(env, st)
  {
    if id !in st.readers || !st.readers[id].Loaded? then st
    else
      var s := st.readers[id].s;
      st.(readers := st.readers[id := Answered(s, Buffer.ReadEntry(Buffer.PushAll(env.ringSize, st.log).slots, s))])
  }

  function Step(env: Env, st: System, ev: Event): System {
    match ev
    case Downstream(stop) => DownstreamStep(env, st, stop)
    case Beating => BeatingStep(st)
    case Load(id, s) => if Bounded(env, st) then LoadStep(env, st, id, s) else st
    case Read(id) => if Bounded(env, st) then ReadStep(env, st, id) else st
  }

  // The system after any schedule: any sequence of thread steps whatever.
  function Execute(env: Env, evs: seq<Event>): System {
    if evs == [] then Start else Step(env, Execute(env, evs[..|evs| - 1]), evs[|evs| - 1])
  }

  // The data packets on the wire, in order.
  function DataOf(trace: seq<Output>): seq<Packet> {
    if trace == [] then []
    else
      var before, last := DataOf(trace[..|trace| - 1]), trace[|trace| - 1];
      if last.DataOut? then before + [last.packet] else before
  }

  lemma DataSnoc(trace: seq<Output>, o: Output)
    ensures DataOf(trace + [o]) == if o.DataOut? then DataOf(trace) + [o.packet] else DataOf(trace)
  {
    assert (trace + [o])[..|trace|] == trace;
  }

  /* ---- The downstream thread, interleaved with all others, does what the sequential replay does. ---- */

  // Between iterations: the thread's state is that of the replay.
  ghost predicate Settled(st: System, base: State) {
    && st.seqNo == base.seqNo && st.log == base.log && st.published == |st.log| && st.sent == st.seqNo
    && DataOf(st.trace) == base.packets
  }

  // Inside an iteration that sends: the draft will become the packet the replay builds from here.
  ghost predicate Drafting(env: Env, st: System, d: Draft, base: State) {
    && Sound(env, base) && !base.halted && base.pos + PEEK_SIZE <= |env.file| && !env.SkipsAt(base.pos)
    && st.pos <= |env.file|
    && Completion(env.file, st.pos, d.room, d.messages, d.starts) == Pack(env.file, base.pos, env.Cap())
    && d.first == base.seqNo && |d.starts| == |d.messages| && st.seqNo == base.seqNo + |d.messages|
    && DataOf(st.trace) == base.packets
  }

  ghost predicate Drafted(env: Env, st: System, d: Draft, base: State) {
    && Sound(env, base) && !base.halted && base.pos + PEEK_SIZE <= |env.file| && !env.SkipsAt(base.pos)
    && Pack(env.file, base.pos, env.Cap()) == Packed(d.messages, d.starts, st.pos)
    && d.first == base.seqNo && st.seqNo == base.seqNo + |d.messages|
    && DataOf(st.trace) == base.packets
    && st.log == base.log + d.starts && st.published == |st.log|
  }

  ghost predicate Refines(env: Env, st: System, base: State) {
    match st.control
    case Starting => Settled(st, base) && st.pos == base.pos && !base.halted
    case Top => Settled(st, base) && st.pos == base.pos && !base.halted
    case Reading(d) =>
      Drafting(env, st, d, base) && st.log == base.log + d.starts && st.published == |st.log| && st.sent == base.seqNo
    case Pushing(d) =>
      && Drafting(env, st, d, base) && d.starts != [] && st.log == base.log + d.starts[..|d.starts| - 1]
      && st.published == |st.log| && st.sent == base.seqNo
    case Publishing(d) =>
      && Drafting(env, st, d, base) && d.starts != [] && st.log == base.log + d.starts
      && st.published == |st.log| - 1 && st.sent == base.seqNo
    case Built(d) => Drafted(env, st, d, base) && st.sent == base.seqNo
    case Sending(d) => Drafted(env, st, d, base) && st.sent == st.seqNo
    case Stopping => Settled(st, base)
    case Ending => Settled(st, base)
  }

  lemma ReadingRefines(env: Env, st: System, base: State, stop: bool)
    requires st.control.Reading? && Refines(env, st, base)
    ensures Refines(env, DownstreamStep(env, st, stop), base) && DownstreamStep(env, st, stop).n == st.n
  {
    var d := st.control.d;
    if Takes(env.file, st.pos, d.room) {
      CompletionNext(env.file, st.pos, d.room, d.messages, d.starts, env.file[st.pos..EndAt(env.file, st.pos)]);
    } else {
      CompletionDone(env.file, st.pos, d.room, d.messages, d.starts);
    }
  }

  lemma PushingRefines(env: Env, st: System, base: State, stop: bool)
    requires (st.control.Pushing? || st.control.Publishing? || st.control.Built?) && Refines(env, st, base)
    ensures Refines(env, DownstreamStep(env, st, stop), base) && DownstreamStep(env, st, stop).n == st.n
  {
    if st.control.Pushing? {
      var starts := st.control.d.starts;
      assert starts == starts[..|starts| - 1] + [starts[|starts| - 1]];
      assert st.log + [starts[|starts| - 1]] == base.log + starts;
    }
  }

  lemma SendingRefines(env: Env, st: System, base: State, stop: bool)
    requires st.control.Sending? && Refines(env, st, base)
    ensures Refines(env, DownstreamStep(env, st, stop), Iterate(env, base))
    ensures DownstreamStep(env, st, stop).n == st.n + 1
  {
    DataSnoc(st.trace, DataOut(Packet(st.control.d.first, st.control.d.messages)));
  }

  lemma TopRefines(env: Env, st: System, base: State, stop: bool)
    requires st.control.Top? && Sound(env, base) && Refines(env, st, base)
    ensures var st' := DownstreamStep(env, st, stop);
            || (st'.n == st.n && Refines(env, st', base))
            || (st'.n == st.n + 1 && Refines(env, st', Iterate(env, base)))
  {
    assert [] + Pack(env.file, st.pos, env.Cap()).messages == Pack(env.file, st.pos, env.Cap()).messages;
    assert [] + Pack(env.file, st.pos, env.Cap()).starts == Pack(env.file, st.pos, env.Cap()).starts;
    assert base.log + [] == base.log;
  }

  // Everything the refinement looks at.
  ghost predicate SameToDownstream(st: System, st': System) {
    && st'.control == st.control && st'.pos == st.pos && st'.seqNo == st.seqNo && st'.log == st.log
    && st'.published == st.published && st'.sent == st.sent && st'.n == st.n
    && DataOf(st'.trace) == DataOf(st.trace)
  }

  lemma SameRefines(env: Env, st: System, st': System, base: State)
    requires Refines(env, st, base) && SameToDownstream(st, st')
    ensures Refines(env, st', base)
  {
  }

  // Steps of the other threads change nothing the downstream thread depends on.
  lemma OthersKeep(env: Env, st: System, ev: Event)
    requires !ev.Downstream?
    ensures SameToDownstream(st, Step(env, st, ev))
  {
    if ev.Beating? && st.heartbeat.Carrying? {
      DataSnoc(st.trace, BeatOut(st.heartbeat.seqNo));
    }
  }

  lemma RestRefines(env: Env, st: System, base: State, stop: bool)
    requires (st.control.Starting? || st.control.Stopping? || st.control.Ending?) && Refines(env, st, base)
    ensures Refines(env, DownstreamStep(env, st, stop), base) && DownstreamStep(env, st, stop).n == st.n
  {
    DataSnoc(st.trace, EndOut(st.seqNo));
  }

  lemma DownstreamRefines(env: Env, st: System, base: State, stop: bool)
    requires Sound(env, base) && Refines(env, st, base)
    ensures var st' := DownstreamStep(env, st, stop);
            || (st'.n == st.n && Refines(env, st', base))
            || (st'.n == st.n + 1 && Refines(env, st', Iterate(env, base)))
  {
    match st.control
    case Top => TopRefines(env, st, base, stop);
    case Reading(_) => ReadingRefines(env, st, base, stop);
    case Pushing(_) => PushingRefines(env, st, base, stop);
    case Publishing(_) => PushingRefines(env, st, base, stop);
    case Built(_) => PushingRefines(env, st, base, stop);
    case Sending(_) => SendingRefines(env, st, base, stop);
    case _ => RestRefines(env, st, base, stop);
  }

  // st' is where st went, having completed at most one more iteration from base.
  ghost predicate Onward(env: Env, st: System, st': System, base: State)
    requires Sound(env, base)
  {
    || (st'.n == st.n && Refines(env, st', base))
    || (st'.n == st.n + 1 && Refines(env, st', Iterate(env, base)))
  }

  lemma StepGoesOnward(env: Env, st: System, ev: Event, base: State)
    requires Sound(env, base) && Refines(env, st, base)
    ensures Onward(env, st, Step(env, st, ev), base)
  {
    if ev.Downstream? {
      DownstreamRefines(env, st, base, ev.stop);
    } else {
      OthersKeep(env, st, ev);
      SameRefines(env, st, Step(env, st, ev), base);
    }
  }

  lemma OnwardRefines(env: Env, st: System, st': System)
    requires Onward(env, st, st', Run(env, st.n))
    ensures Refines(env, st', Run(env, st'.n))
  {
    assert Run(env, st.n + 1) == Iterate(env, Run(env, st.n));
  }

  lemma StepRefines(env: Env, st: System, ev: Event)
    requires Refines(env, st, Run(env, st.n))
    ensures Refines(env, Step(env, st, ev), Run(env, Step(env, st, ev).n))
  {
    StepGoesOnward(env, st, ev, Run(env, st.n));
    OnwardRefines(env, st, Step(env, st, ev));
  }

  // In every schedule the downstream thread's state is determined by how many iterations it has completed.
  lemma {:induction false} ExecuteRefines(env: Env, evs: seq<Event>)
    ensures Refines(env, Execute(env, evs), Run(env, Execute(env, evs).n))
  {
    if evs != [] {
      ExecuteRefines(env, evs[..|evs| - 1]);
      StepRefines(env, Execute(env, evs[..|evs| - 1]), evs[|evs| - 1]);
    }
  }

  // What has been written to the ring is always a prefix of what the replay writes by the end of the iteration.
  lemma LogIsPrefix(env: Env, st: System, base: State)
    requires Sound(env, base) && Refines(env, st, base)
    ensures st.log <= Iterate(env, base).log
    ensures Bounded(env, st)
  {
    var s' := Iterate(env, base);
    if st.control.Reading? || st.control.Pushing? || st.control.Publishing? {
      var d := st.control.d;
      var q := Pack(env.file, st.pos, d.room);
      assert s'.log == base.log + (d.starts + q.starts);
    }
  }

  // The counter the heartbeat reads: never more than one past the published number, and it only grows.
  lemma CounterBound(env: Env, st: System, base: State)
    requires Sound(env, base) && Refines(env, st, base)
    ensures 1 <= st.sent <= st.published + 1
    ensures st.sent == base.seqNo || st.sent == Iterate(env, base).seqNo
    ensures st.sent <= st.seqNo
  {
  }
}
