/** What every schedule of the session's threads guarantees to receivers and to requesting clients. */
module SessionTheorems {
  import opened Agreement
  import opened Bytes
  import opened Framing
  import opened Replay
  import opened Retransmission
  import opened Sequences
  import opened Session
  import opened WholeRun
  import opened Wire
  import opened Wrappers
  import Buffer = RetransmissionBuffer
  import Torn = TornReads

  /* ---- The shape of the output ---- */

  predicate Ended(trace: seq<Output>) {
    trace != [] && trace[|trace| - 1].EndOut?
  }

  // The number in the last heartbeat sent, 0 before the first.
  function LastBeat(trace: seq<Output>): nat {
    if trace == [] then 0
    else
      match trace[|trace| - 1]
      case BeatOut(q) => q
      case _ => LastBeat(trace[..|trace| - 1])
  }

  // May this datagram follow that output?
  predicate Follows(trace: seq<Output>, o: Output) {
    match o
    case DataOut(_) => !Ended(trace)
    case BeatOut(q) => !Ended(trace) && LastBeat(trace) <= q
    case EndOut(q) => Ended(trace) ==> trace[|trace| - 1] == o
  }

  predicate Ordered(trace: seq<Output>) {
    trace == [] || (Ordered(trace[..|trace| - 1]) && Follows(trace[..|trace| - 1], trace[|trace| - 1]))
  }

  lemma OrderedSnoc(trace: seq<Output>, o: Output)
    requires Ordered(trace) && Follows(trace, o)
    ensures Ordered(trace + [o])
    ensures Ended(trace + [o]) == o.EndOut?
    ensures LastBeat(trace + [o]) == if o.BeatOut? then o.seqNo else LastBeat(trace)
  {
    assert (trace + [o])[..|trace|] == trace;
  }

  // The highest number a heartbeat can have announced by now.
  function Ceiling(st: System): nat {
    if st.heartbeat.Carrying? then st.heartbeat.seqNo else st.sent
  }

  ghost predicate TraceShaped(st: System) {
    && Ordered(st.trace)
    && (Ended(st.trace) ==> st.control.Ending? && st.trace[|st.trace| - 1] == EndOut(st.sent))
    && (st.control.Ending? ==> st.heartbeat.Exited?)
    && LastBeat(st.trace) <= Ceiling(st) <= st.sent
  }

  // A step that sends nothing, does not lower the counter and leaves the ending phase alone.
  lemma QuietKeepsShape(st: System, st': System)
    requires TraceShaped(st) && !st.control.Ending?
    requires st'.trace == st.trace && st.sent <= st'.sent && Ceiling(st) <= Ceiling(st') <= st'.sent
    requires st'.control.Ending? ==> st'.heartbeat.Exited?
    ensures TraceShaped(st')
  {
  }

  lemma SendingShapes(st: System, p: Packet)
    requires TraceShaped(st) && !st.control.Ending?
    ensures TraceShaped(st.(trace := st.trace + [DataOut(p)], n := st.n + 1, control := Top))
  {
    OrderedSnoc(st.trace, DataOut(p));
  }

  lemma EndingShapes(st: System)
    requires TraceShaped(st) && st.control.Ending?
    ensures TraceShaped(st.(trace := st.trace + [EndOut(st.sent)]))
  {
    OrderedSnoc(st.trace, EndOut(st.sent));
  }

  lemma QuietDownstream(env: Env, st: System, base: State, stop: bool)
    requires Sound(env, base) && Refines(env, st, base) && !st.control.Sending? && !st.control.Ending?
    ensures var st' := DownstreamStep(env, st, stop);
            && st'.trace == st.trace && st.sent <= st'.sent
            && (st'.heartbeat == st.heartbeat || st'.heartbeat == Testing)
            && (st'.control.Ending? ==> st'.heartbeat.Exited?)
            && (st.heartbeat.Carrying? && st'.heartbeat != st.heartbeat ==> st.control.Starting?)
  {
    CounterBound(env, st, base);
  }

  lemma DownstreamShapes(env: Env, st: System, base: State, stop: bool)
    requires Sound(env, base) && Refines(env, st, base) && TraceShaped(st)
    ensures TraceShaped(DownstreamStep(env, st, stop))
  {
    match st.control
    case Sending(d) => SendingShapes(st, Packet(d.first, d.messages));
    case Ending => EndingShapes(st);
    case _ =>
      QuietDownstream(env, st, base, stop);
      QuietKeepsShape(st, DownstreamStep(env, st, stop));
  }

  lemma BeatingShapes(st: System)
    requires TraceShaped(st)
    ensures TraceShaped(BeatingStep(st))
  {
    if st.heartbeat.Carrying? {
      OrderedSnoc(st.trace, BeatOut(st.heartbeat.seqNo));
    }
  }

  lemma {:induction false} ExecuteShaped(env: Env, evs: seq<Event>)
    ensures TraceShaped(Execute(env, evs))
  {
    if evs != [] {
      var init, ev := evs[..|evs| - 1], evs[|evs| - 1];
      var st := Execute(env, init);
      ExecuteShaped(env, init);
      match ev
      case Downstream(stop) =>
        ExecuteRefines(env, init);
        DownstreamShapes(env, st, Run(env, st.n), stop);
      case Beating => BeatingShapes(st);
      case _ =>
    }
  }

  lemma {:induction false} OrderedEverywhere(trace: seq<Output>, i: nat, j: nat)
    requires Ordered(trace) && i < j < |trace|
    ensures trace[i].EndOut? ==> trace[j] == trace[i]
    ensures trace[i].BeatOut? && trace[j].BeatOut? ==> trace[i].seqNo <= trace[j].seqNo
    decreases |trace|
  {
    var init := trace[..|trace| - 1];
    if j < |init| {
      OrderedEverywhere(init, i, j);
    } else {
      if i < |init| - 1 { OrderedEverywhere(init, i, |init| - 1); }
      BeatBelowLast(init, i);
    }
  }

  lemma {:induction false} BeatBelowLast(trace: seq<Output>, i: nat)
    requires Ordered(trace) && i < |trace|
    ensures trace[i].BeatOut? ==> trace[i].seqNo <= LastBeat(trace)
    decreases |trace|
  {
    if i < |trace| - 1 { BeatBelowLast(trace[..|trace| - 1], i); }
  }

  lemma ShapedEverywhere(st: System, i: nat, j: nat)
    requires TraceShaped(st) && i < j < |st.trace|
    ensures st.trace[i].EndOut? ==> st.trace[j] == st.trace[i] == EndOut(st.sent)
    ensures st.trace[i].BeatOut? && st.trace[j].BeatOut? ==> st.trace[i].seqNo <= st.trace[j].seqNo
  {
    OrderedEverywhere(st.trace, i, j);
    if j < |st.trace| - 1 { OrderedEverywhere(st.trace, j, |st.trace| - 1); }
  }

  /** Session trace shape, for every schedule and every file: data packets and heartbeats, then only end-of-session
      packets, all with the final heartbeat counter; heartbeats never go back. */
  lemma TraceShape(env: Env, evs: seq<Event>, i: nat, j: nat)
    requires i < j < |Execute(env, evs).trace|
    ensures var trace := Execute(env, evs).trace;
            && (trace[i].EndOut? ==> trace[j] == trace[i] == EndOut(Execute(env, evs).sent))
            && (trace[i].BeatOut? && trace[j].BeatOut? ==> trace[i].seqNo <= trace[j].seqNo)
  {
    ExecuteShaped(env, evs);
    ShapedEverywhere(Execute(env, evs), i, j);
  }

  // The data packets are exactly those of the sequential replay, as far as it has come.
  lemma TraceData(env: Env, evs: seq<Event>)
    ensures DataOf(Execute(env, evs).trace) == Run(env, Execute(env, evs).n).packets
  {
    ExecuteRefines(env, evs);
  }

  /* ---- Announced numbers ---- */

  // The packet boundaries: 1, and each packet's number plus its count.
  function Ends(packets: seq<Packet>): set<nat> {
    if packets == [] then {1}
    else
      var last := packets[|packets| - 1];
      Ends(packets[..|packets| - 1]) + {last.sequenceNumber + |last.messages|}
  }

  lemma EndsSnoc(packets: seq<Packet>, p: Packet)
    ensures Ends(packets + [p]) == Ends(packets) + {p.sequenceNumber + |p.messages|}
  {
    assert (packets + [p])[..|packets|] == packets;
  }

  // The packets sent, and the one being sent.
  function Departures(st: System): seq<Packet> {
    if st.control.Sending? then DataOf(st.trace) + [Packet(st.control.d.first, st.control.d.messages)]
    else DataOf(st.trace)
  }

  // Numbers announced so far or about to be.
  function Announced(st: System): set<nat> {
    Beats(st.trace) + {st.sent} + if st.heartbeat.Carrying? then {st.heartbeat.seqNo} else {}
  }

  function Beats(trace: seq<Output>): set<nat> {
    if trace == [] then {}
    else
      Beats(trace[..|trace| - 1]) + if trace[|trace| - 1].BeatOut? then {trace[|trace| - 1].seqNo} else {}
  }

  lemma BeatsSnoc(trace: seq<Output>, o: Output)
    ensures Beats(trace + [o]) == Beats(trace) + if o.BeatOut? then {o.seqNo} else {}
  {
    assert (trace + [o])[..|trace|] == trace;
  }

  lemma {:induction false} BeatAt(trace: seq<Output>, i: nat)
    requires i < |trace| && trace[i].BeatOut?
    ensures trace[i].seqNo in Beats(trace)
    decreases |trace|
  {
    if i < |trace| - 1 { BeatAt(trace[..|trace| - 1], i); }
  }

  // A step announces nothing but what was carried, or the counter as it then stands.
  lemma StepAnnounces(env: Env, st: System, ev: Event)
    ensures Announced(Step(env, st, ev)) <= Announced(st) + {Step(env, st, ev).sent}
  {
    match ev
    case Beating =>
      if st.heartbeat.Carrying? { BeatsSnoc(st.trace, BeatOut(st.heartbeat.seqNo)); }
    case Downstream(_) =>
      if st.control.Sending? {
        BeatsSnoc(st.trace, DataOut(Packet(st.control.d.first, st.control.d.messages)));
      }
      BeatsSnoc(st.trace, EndOut(st.seqNo));
    case _ =>
  }

  lemma CounterIsEnd(env: Env, st: System, base: State)
    requires Refines(env, st, base) && Consecutive(base.packets, base.seqNo)
    ensures st.sent in Ends(Departures(st))
  {
    if st.control.Sending? {
      EndsSnoc(DataOf(st.trace), Packet(st.control.d.first, st.control.d.messages));
    } else {
      assert Departures(st) == base.packets;
    }
  }

  // Only these steps of the downstream thread touch the packets under way.
  lemma DownstreamDepartures(env: Env, st: System, stop: bool)
    ensures Ends(Departures(st)) <= Ends(Departures(DownstreamStep(env, st, stop)))
  {
    if st.control.Built? {
      EndsSnoc(DataOf(st.trace), Packet(st.control.d.first, st.control.d.messages));
    } else if st.control.Sending? {
      DataSnoc(st.trace, DataOut(Packet(st.control.d.first, st.control.d.messages)));
    } else {
      QuietSteps(env, st, stop);
    }
  }

  lemma QuietSteps(env: Env, st: System, stop: bool)
    requires !st.control.Built? && !st.control.Sending?
    ensures !DownstreamStep(env, st, stop).control.Sending?
    ensures DataOf(DownstreamStep(env, st, stop).trace) == DataOf(st.trace)
  {
    DataSnoc(st.trace, EndOut(st.seqNo));
  }

  lemma DeparturesGrow(env: Env, st: System, ev: Event)
    ensures Ends(Departures(st)) <= Ends(Departures(Step(env, st, ev)))
  {
    if ev.Downstream? {
      DownstreamDepartures(env, st, ev.stop);
    } else {
      OthersKeep(env, st, ev);
    }
  }

  lemma ExecuteCounterIsEnd(env: Env, evs: seq<Event>)
    ensures Execute(env, evs).sent in Ends(Departures(Execute(env, evs)))
  {
    var n := Execute(env, evs).n;
    ExecuteRefines(env, evs);
    NumbersAreConsecutive(env, n);
    CounterIsEnd(env, Execute(env, evs), Run(env, n));
  }

  // Everything a heartbeat ever announces is a boundary of a packet sent or being sent.
  lemma {:induction false} AnnouncedAreEnds(env: Env, evs: seq<Event>)
    ensures Announced(Execute(env, evs)) <= Ends(Departures(Execute(env, evs)))
  {
    ExecuteCounterIsEnd(env, evs);
    if evs != [] {
      var st, ev := Execute(env, evs[..|evs| - 1]), evs[|evs| - 1];
      AnnouncedAreEnds(env, evs[..|evs| - 1]);
      StepAnnounces(env, st, ev);
      DeparturesGrow(env, st, ev);
    }
  }

  // The ring as readers see it, outside the moment between an entry's write and its publication.
  function RingOf(env: Env, st: System): Buffer.Ring
    requires Bounded(env, st)
  {
    Buffer.Ring(Buffer.PushAll(env.ringSize, st.log).slots, st.published)
  }

  /** Announced numbers are answerable. In every schedule each number q a heartbeat has announced is a packet
      boundary and at most one past the published number, and between pushes every t below q that is among the
      last `ringSize` published is found, with the position pushed for it. */
  lemma AnnouncedAnswerable(env: Env, evs: seq<Event>, i: nat, t: nat)
    requires i < |Execute(env, evs).trace| && Execute(env, evs).trace[i].BeatOut?
    ensures Execute(env, evs).trace[i].seqNo in Ends(Departures(Execute(env, evs)))
    ensures Execute(env, evs).trace[i].seqNo <= Execute(env, evs).published + 1
    ensures Bounded(env, Execute(env, evs))
    ensures !Execute(env, evs).control.Publishing?
            && 1 <= t < Execute(env, evs).trace[i].seqNo && Execute(env, evs).published < t + env.ringSize ==>
              && t <= |Execute(env, evs).log|
              && Buffer.Lookup(RingOf(env, Execute(env, evs)), t) == Some(Execute(env, evs).log[t - 1])
  {
    var st := Execute(env, evs);
    AnnouncedAreEnds(env, evs);
    BeatAt(st.trace, i);
    ExecuteRefines(env, evs);
    ExecuteShaped(env, evs);
    BeatBelowLast(st.trace, i);
    Answerable(env, st, Run(env, st.n), t);
  }

  lemma Answerable(env: Env, st: System, base: State, t: nat)
    requires Sound(env, base) && Refines(env, st, base)
    ensures st.sent <= st.published + 1 && Bounded(env, st)
    ensures !st.control.Publishing? && 1 <= t < st.sent && st.published < t + env.ringSize ==>
              t <= |st.log| && Buffer.Lookup(RingOf(env, st), t) == Some(st.log[t - 1])
  {
    CounterBound(env, st, base);
    LogIsPrefix(env, st, base);
    if !st.control.Publishing? && 1 <= t < st.sent && st.published < t + env.ringSize {
      assert RingOf(env, st) == Buffer.PushAll(env.ringSize, st.log);
      Buffer.RingRefinesWindow(env.ringSize, st.log, t);
    }
  }

  /* ---- Readers ---- */

  // An answer to a lookup of s >= 1 is the position pushed for s.
  ghost predicate AnswersRight(st: System) {
    forall id {:trigger st.readers[id]} | id in st.readers && st.readers[id].Answered? && st.readers[id].s >= 1 ::
      st.readers[id].answer.Some? ==>
        st.readers[id].s <= |st.log| && st.readers[id].answer.value == st.log[st.readers[id].s - 1]
  }

  lemma StepAnswersRight(env: Env, st: System, ev: Event)
    requires AnswersRight(st)
    ensures AnswersRight(Step(env, st, ev))
  {
    if ev.Read? && Bounded(env, st) && ev.id in st.readers && st.readers[ev.id].Loaded? && st.readers[ev.id].s >= 1 {
      Buffer.ReadHonest(env.ringSize, st.log, st.readers[ev.id].s);
    }
  }

  lemma {:induction false} ExecuteAnswersRight(env: Env, evs: seq<Event>)
    ensures AnswersRight(Execute(env, evs))
  {
    if evs != [] {
      ExecuteAnswersRight(env, evs[..|evs| - 1]);
      StepAnswersRight(env, Execute(env, evs[..|evs| - 1]), evs[|evs| - 1]);
    }
  }

  /** Concurrent lookup safety: over every interleaving of the writer and the readers, with entries read and
      written whole, a lookup of s >= 1 yields nothing or exactly the position pushed for s. */
  lemma ConcurrentLookupSafety(env: Env, evs: seq<Event>, id: nat)
    requires id in Execute(env, evs).readers && Execute(env, evs).readers[id].Answered?
    requires Execute(env, evs).readers[id].s >= 1
    ensures var Answered(s, answer) := Execute(env, evs).readers[id];
            answer == None || (s <= |Execute(env, evs).log| && answer == Some(Execute(env, evs).log[s - 1]))
  {
    ExecuteAnswersRight(env, evs);
  }

  // Steps of other threads than reader `id`.
  predicate Elsewhere(ev: Event, id: nat) {
    match ev
    case Load(i, _) => i != id
    case Read(i) => i != id
    case _ => true
  }

  predicate AllElsewhere(evs: seq<Event>, id: nat) {
    forall i {:trigger evs[i]} | 0 <= i < |evs| :: Elsewhere(evs[i], id)
  }

  lemma ExecuteSnoc(env: Env, evs: seq<Event>, ev: Event)
    ensures Execute(env, evs + [ev]) == Step(env, Execute(env, evs), ev)
  {
    assert (evs + [ev])[..|evs|] == evs;
  }

  lemma StepElsewhere(env: Env, st: System, ev: Event, id: nat)
    requires id in st.readers && Elsewhere(ev, id)
    ensures id in Step(env, st, ev).readers && Step(env, st, ev).readers[id] == st.readers[id]
    ensures st.log <= Step(env, st, ev).log
  {
  }

  lemma {:induction false} OthersGoOn(env: Env, evs: seq<Event>, more: seq<Event>, id: nat)
    requires id in Execute(env, evs).readers && AllElsewhere(more, id)
    ensures id in Execute(env, evs + more).readers
    ensures Execute(env, evs + more).readers[id] == Execute(env, evs).readers[id]
    ensures Execute(env, evs).log <= Execute(env, evs + more).log
    decreases |more|
  {
    if more == [] {
      assert evs + more == evs;
    } else {
      var init, ev := more[..|more| - 1], more[|more| - 1];
      assert Elsewhere(ev, id);
      OthersGoOn(env, evs, init, id);
      assert evs + more == (evs + init) + [ev];
      ExecuteSnoc(env, evs + init, ev);
      StepElsewhere(env, Execute(env, evs + init), ev, id);
    }
  }

  lemma ExecuteBounded(env: Env, evs: seq<Event>)
    ensures Bounded(env, Execute(env, evs))
  {
    ExecuteRefines(env, evs);
    LogIsPrefix(env, Execute(env, evs), Run(env, Execute(env, evs).n));
  }

  lemma LoadExact(env: Env, st: System, id: nat, t: U64)
    requires Bounded(env, st) && t >= 1
    ensures LoadStep(env, st, id, t).log == st.log
    ensures LoadStep(env, st, id, t).readers[id]
         == if t <= st.published < t + env.ringSize then Loaded(t) else Answered(t, None)
  {
    Torn.ExcludedMeans(env.ringSize, st.log, t, st.published);
  }

  lemma ReadStepExact(env: Env, st: System, id: nat, t: U64)
    requires Bounded(env, st) && 1 <= t <= |st.log| && id in st.readers && st.readers[id] == Loaded(t)
    ensures id in ReadStep(env, st, id).readers
    ensures ReadStep(env, st, id).readers[id]
         == Answered(t, if |st.log| < t + env.ringSize then Some(st.log[t - 1]) else None)
  {
    Buffer.ReadExact(env.ringSize, st.log, t);
  }

  // The log when the reader reads the entry, whatever has happened since it loaded the published number.
  function LoadedSchedule(before: seq<Event>, between: seq<Event>, id: nat, t: U64): seq<Event> {
    before + [Load(id, t)] + between
  }

  lemma AfterLoad(env: Env, before: seq<Event>, between: seq<Event>, id: nat, t: U64)
    requires t >= 1 && AllElsewhere(between, id)
    ensures var st, st' := Execute(env, before), Execute(env, LoadedSchedule(before, between, id, t));
            && st.published <= |st.log| <= |st'.log| && id in st'.readers
            && st'.readers[id] == if t <= st.published < t + env.ringSize then Loaded(t) else Answered(t, None)
  {
    ExecuteBounded(env, before);
    LoadExact(env, Execute(env, before), id, t);
    ExecuteSnoc(env, before, Load(id, t));
    OthersGoOn(env, before + [Load(id, t)], between, id);
  }

  lemma AfterRead(env: Env, evs: seq<Event>, id: nat, t: U64)
    requires id in Execute(env, evs).readers && 1 <= t
    requires Execute(env, evs).readers[id] == Loaded(t) ==> t <= |Execute(env, evs).log|
    ensures var st, st' := Execute(env, evs), Execute(env, evs + [Event.Read(id)]);
            && id in st'.readers
            && (st.readers[id] == Loaded(t) ==>
                  st'.readers[id] == Answered(t, if |st.log| < t + env.ringSize then Some(st.log[t - 1]) else None))
            && (st.readers[id].Answered? ==> st'.readers[id] == st.readers[id])
  {
    var st := Execute(env, evs);
    ExecuteBounded(env, evs);
    ExecuteSnoc(env, evs, Event.Read(id));
    if st.readers[id] == Loaded(t) { ReadStepExact(env, st, id, t); }
  }

  /** Exactly what a lookup of t >= 1 returns, with entries read and written whole, whatever the threads do before
      it and between its two steps: the position pushed for t if t was published when it began and t + ringSize
      had not been written when it read the entry, and nothing otherwise. */
  lemma ConcurrentLookupExact(env: Env, before: seq<Event>, between: seq<Event>, id: nat, t: U64)
    requires t >= 1 && AllElsewhere(between, id)
    ensures var loaded := LoadedSchedule(before, between, id, t);
            var log, st := Execute(env, loaded).log, Execute(env, loaded + [Event.Read(id)]);
            && Execute(env, before).published <= |log| && id in st.readers
            && st.readers[id] == Answered(t,
                 if t <= Execute(env, before).published && |log| < t + env.ringSize then Some(log[t - 1]) else None)
  {
    AfterLoad(env, before, between, id, t);
    AfterRead(env, LoadedSchedule(before, between, id, t), id, t);
  }

  /** And so, with entries read and written whole, a reply started from any answer given in any schedule agrees
      with what downstream numbers from s on. */
  lemma ConcurrentReplyAgrees(env: Env, ms: seq<Message>, evs: seq<Event>, id: nat, s: U64, pos: nat, count: nat)
    requires WellFormed(env, ms) && s >= 1
    requires id in Execute(env, evs).readers && Execute(env, evs).readers[id] == Answered(s, Some(pos))
    ensures Agrees(env, ms, s, count, Collect(env.file, pos, env.Cap(), count))
  {
    ConcurrentLookupSafety(env, evs, id);
    LogPositions(env, ms, evs);
    AnswerAgrees(env, ms, s, count, pos);
  }

  lemma LogPositions(env: Env, ms: seq<Message>, evs: seq<Event>)
    requires WellFormed(env, ms)
    ensures Execute(env, evs).log <= Recorded(env, ms, 0)
  {
    ExecuteRefines(env, evs);
    RefinedLogPositions(env, ms, Execute(env, evs));
  }

  lemma RefinedLogPositions(env: Env, ms: seq<Message>, st: System)
    requires WellFormed(env, ms) && Refines(env, st, Run(env, st.n))
    ensures st.log <= Recorded(env, ms, 0)
  {
    LogIsPrefix(env, st, Run(env, st.n));
    RunPushesPositions(env, ms, st.n + 1, st.log);
  }

  // Readers at work on the ring, field by field, while the replay's pushes go into it.
  function ReadWhilePushed(env: Env, ms: seq<Message>, evs: seq<Torn.Event>): Torn.State
    requires WellFormed(env, ms)
  {
    RecordedBound(env, ms);
    Torn.Execute(env.ringSize, Recorded(env, ms, 0), evs)
  }

  lemma TornAnswerPosition(env: Env, ms: seq<Message>, evs: seq<Torn.Event>, id: nat, s: U64, pos: nat,
                           checked: Torn.Mark, at: Torn.Mark)
    requires WellFormed(env, ms) && s >= 1 && id in ReadWhilePushed(env, ms, evs).readers
    requires ReadWhilePushed(env, ms, evs).readers[id] == Torn.Answered(s, Some(pos), checked, at)
    ensures s <= at.positions <= |Recorded(env, ms, 0)|
    ensures var t := Buffer.Latest(env.ringSize, s, at.positions);
            pos == Recorded(env, ms, 0)[t - 1] && (t == s <==> at.positions < s + env.ringSize)
  {
    RecordedBound(env, ms);
    Torn.LookupSafety(env.ringSize, Recorded(env, ms, 0), evs, id);
  }

  /** Read field by field, an answer may be torn: the reply then agrees with what downstream numbers from t on,
      where t is the last number whose position had gone into the slot. That is the number asked for exactly
      when the position of s + size had not been written yet. */
  lemma TornReplyAgrees(env: Env, ms: seq<Message>, evs: seq<Torn.Event>, id: nat, s: U64, pos: nat,
                        checked: Torn.Mark, at: Torn.Mark, count: nat)
    requires WellFormed(env, ms) && s >= 1 && id in ReadWhilePushed(env, ms, evs).readers
    requires ReadWhilePushed(env, ms, evs).readers[id] == Torn.Answered(s, Some(pos), checked, at)
    ensures s <= at.positions <= |Recorded(env, ms, 0)|
    ensures var t := Buffer.Latest(env.ringSize, s, at.positions);
            && Agrees(env, ms, t, count, Collect(env.file, pos, env.Cap(), count))
            && (t == s <==> at.positions < s + env.ringSize)
  {
    TornAnswerPosition(env, ms, evs, id, s, pos, checked, at);
    AnswerAgrees(env, ms, Buffer.Latest(env.ringSize, s, at.positions), count, pos);
  }

  lemma EndNumberOf(env: Env, st: System, base: State, k: nat)
    requires Refines(env, st, base) && TraceShaped(st)
    requires k < |st.trace| && st.trace[k].EndOut?
    ensures st.trace[k].seqNo == st.sent == base.seqNo
  {
    if k < |st.trace| - 1 { OrderedEverywhere(st.trace, k, |st.trace| - 1); }
  }

  // The end-of-session number is the final counter, which is where the replay's numbering stands.
  lemma EndNumber(env: Env, evs: seq<Event>, k: nat)
    requires k < |Execute(env, evs).trace| && Execute(env, evs).trace[k].EndOut?
    ensures Execute(env, evs).trace[k].seqNo == Execute(env, evs).sent == Run(env, Execute(env, evs).n).seqNo
  {
    ExecuteRefines(env, evs);
    ExecuteShaped(env, evs);
    EndNumberOf(env, Execute(env, evs), Run(env, Execute(env, evs).n), k);
  }

  // What the receivers of a session have been sent, and the number that closes it.
  lemma SessionExact(env: Env, ms: seq<Message>, evs: seq<Event>, sent: seq<Message>)
    requires WellFormed(env, ms) && sent == Flatten(Bodies(DataOf(Execute(env, evs).trace)))
    ensures sent <= Selected(env, ms)
    ensures forall k | 0 <= k < |Execute(env, evs).trace| && Execute(env, evs).trace[k].EndOut? ::
              Execute(env, evs).trace[k].seqNo == 1 + |sent|
  {
    TraceData(env, evs);
    WholeRunExact(env, ms, Execute(env, evs).n);
    forall k | 0 <= k < |Execute(env, evs).trace| && Execute(env, evs).trace[k].EndOut?
      ensures Execute(env, evs).trace[k].seqNo == 1 + |sent|
    {
      EndNumber(env, evs, k);
    }
  }

  // Nobody asks the feed to stop.
  predicate Unstopped(evs: seq<Event>) {
    forall i {:trigger evs[i]} | 0 <= i < |evs| :: evs[i] != Downstream(true)
  }

  ghost predicate LeftByItself(env: Env, st: System) {
    st.control.Stopping? || st.control.Ending? ==> Run(env, st.n).halted
  }

  lemma LeavesOnward(env: Env, n: nat, n': nat)
    requires (n' == n && Run(env, n).halted) || (n' == n + 1 && Iterate(env, Run(env, n)).halted)
    ensures Run(env, n').halted
  {
    assert Run(env, n + 1) == Iterate(env, Run(env, n));
  }

  lemma StepLeaves(env: Env, st: System, ev: Event)
    requires Refines(env, st, Run(env, st.n)) && LeftByItself(env, st) && ev != Downstream(true)
    ensures LeftByItself(env, Step(env, st, ev))
  {
    var st' := Step(env, st, ev);
    if ev.Downstream? {
      DownstreamLeaves(env, st, Run(env, st.n));
      if st'.control.Stopping? || st'.control.Ending? { LeavesOnward(env, st.n, st'.n); }
    } else {
      OthersKeep(env, st, ev);
    }
  }

  lemma DownstreamLeaves(env: Env, st: System, base: State)
    requires Sound(env, base) && Refines(env, st, base)
    requires st.control.Stopping? || st.control.Ending? ==> base.halted
    ensures var st' := DownstreamStep(env, st, false);
            st'.control.Stopping? || st'.control.Ending? ==>
              (st'.n == st.n && base.halted) || (st'.n == st.n + 1 && Iterate(env, base).halted)
  {
  }

  lemma {:induction false} ExecuteLeaves(env: Env, evs: seq<Event>)
    requires Unstopped(evs)
    ensures LeftByItself(env, Execute(env, evs))
  {
    if evs != [] {
      var init, ev := evs[..|evs| - 1], evs[|evs| - 1];
      assert ev != Downstream(true);
      ExecuteLeaves(env, init);
      ExecuteRefines(env, init);
      StepLeaves(env, Execute(env, init), ev);
    }
  }

  // A session nobody stops has sent every selected message by the time it says so, and says so with their number.
  lemma UnstoppedSession(env: Env, ms: seq<Message>, evs: seq<Event>, k: nat)
    requires WellFormed(env, ms) && Unstopped(evs)
    requires k < |Execute(env, evs).trace| && Execute(env, evs).trace[k].EndOut?
    ensures Flatten(Bodies(DataOf(Execute(env, evs).trace))) == Selected(env, ms)
    ensures Execute(env, evs).trace[k].seqNo == 1 + |Selected(env, ms)|
  {
    EndMeansEnding(env, evs, k);
    ExecuteLeaves(env, evs);
    TraceData(env, evs);
    EndNumber(env, evs, k);
    WholeRunExact(env, ms, Execute(env, evs).n);
  }

  lemma EndMeansEnding(env: Env, evs: seq<Event>, k: nat)
    requires k < |Execute(env, evs).trace| && Execute(env, evs).trace[k].EndOut?
    ensures Execute(env, evs).control.Ending?
  {
    ExecuteShaped(env, evs);
    EndedIsEnding(Execute(env, evs), k);
  }

  lemma EndedIsEnding(st: System, k: nat)
    requires TraceShaped(st) && k < |st.trace| && st.trace[k].EndOut?
    ensures st.control.Ending?
  {
    if k < |st.trace| - 1 { OrderedEverywhere(st.trace, k, |st.trace| - 1); }
  }
}
