/** What a heartbeat tells receivers that have missed packets: how old the number it carries can be. */
module Announcements {
  import opened Replay
  import opened Session
  import opened SessionTheorems
  import opened Wire

  // One more than the number of messages these packets carry, and than those an output carries.
  function NextOf(packets: seq<Packet>): nat {
    if packets == [] then 1 else NextOf(packets[..|packets| - 1]) + |packets[|packets| - 1].messages|
  }

  function Reached(trace: seq<Output>): nat {
    NextOf(DataOf(trace))
  }

  lemma NextOfSnoc(packets: seq<Packet>, p: Packet)
    ensures NextOf(packets + [p]) == NextOf(packets) + |p.messages|
  {
    assert (packets + [p])[..|packets|] == packets;
  }

  // The replay's numbering counts what it has sent.
  lemma IterateCounts(env: Env, s: State)
    requires Sound(env, s) && NextOf(s.packets) == s.seqNo
    ensures NextOf(Iterate(env, s).packets) == Iterate(env, s).seqNo
  {
    var s' := Iterate(env, s);
    if s'.packets != s.packets { NextOfSnoc(s.packets, s'.packets[|s.packets|]); }
  }

  lemma {:induction false} RunCounts(env: Env, n: nat)
    ensures NextOf(Run(env, n).packets) == Run(env, n).seqNo
  {
    if n > 0 {
      RunCounts(env, n - 1);
      IterateCounts(env, Run(env, n - 1));
    }
  }

  // What had gone out before the last heartbeat; 1 before the first.
  function Floor(trace: seq<Output>): nat {
    if trace == [] then 1
    else if trace[|trace| - 1].BeatOut? then Reached(trace[..|trace| - 1])
    else Floor(trace[..|trace| - 1])
  }

  lemma FloorSnoc(trace: seq<Output>, o: Output)
    ensures Floor(trace + [o]) == if o.BeatOut? then Reached(trace) else Floor(trace)
    ensures Reached(trace) <= Reached(trace + [o])
  {
    assert (trace + [o])[..|trace|] == trace;
    DataSnoc(trace, o);
    if o.DataOut? { NextOfSnoc(DataOf(trace), o.packet); }
  }

  lemma {:induction false} FloorBelow(trace: seq<Output>)
    ensures Floor(trace) <= Reached(trace)
  {
    if trace != [] {
      var init, o := trace[..|trace| - 1], trace[|trace| - 1];
      FloorBelow(init);
      FloorSnoc(init, o);
      assert trace == init + [o];
    }
  }

  // Every heartbeat announces at least what had gone out before the one that precedes it.
  predicate Fresh(trace: seq<Output>) {
    trace == [] ||
      var init, o := trace[..|trace| - 1], trace[|trace| - 1];
      Fresh(init) && (o.BeatOut? ==> Floor(init) <= o.seqNo)
  }

  lemma FreshSnoc(trace: seq<Output>, o: Output)
    requires Fresh(trace) && (o.BeatOut? ==> Floor(trace) <= o.seqNo)
    ensures Fresh(trace + [o])
  {
    assert (trace + [o])[..|trace|] == trace;
  }

  // The counter covers everything on the wire.
  lemma CounterCovers(env: Env, st: System, base: State)
    requires Sound(env, base) && Refines(env, st, base) && NextOf(base.packets) == base.seqNo
    ensures Reached(st.trace) <= st.sent
  {
    CounterBound(env, st, base);
  }

  ghost predicate FreshSystem(st: System) {
    Fresh(st.trace) && (st.heartbeat.Carrying? ==> Floor(st.trace) <= st.heartbeat.seqNo)
  }

  lemma BeatingFresh(st: System)
    requires FreshSystem(st) && Reached(st.trace) <= st.sent
    ensures FreshSystem(BeatingStep(st))
  {
    FloorBelow(st.trace);
    if st.heartbeat.Carrying? { FreshSnoc(st.trace, BeatOut(st.heartbeat.seqNo)); }
  }

  lemma DownstreamFresh(env: Env, st: System, stop: bool)
    requires FreshSystem(st)
    ensures FreshSystem(DownstreamStep(env, st, stop))
  {
    match st.control
    case Sending(d) =>
      FreshSnoc(st.trace, DataOut(Packet(d.first, d.messages)));
      FloorSnoc(st.trace, DataOut(Packet(d.first, d.messages)));
    case Ending =>
      FreshSnoc(st.trace, EndOut(st.seqNo));
      FloorSnoc(st.trace, EndOut(st.seqNo));
    case _ =>
  }

  lemma ExecuteCovers(env: Env, evs: seq<Event>)
    ensures Reached(Execute(env, evs).trace) <= Execute(env, evs).sent
  {
    var n := Execute(env, evs).n;
    ExecuteRefines(env, evs);
    RunCounts(env, n);
    CounterCovers(env, Execute(env, evs), Run(env, n));
  }

  lemma {:induction false} ExecuteFresh(env: Env, evs: seq<Event>)
    ensures FreshSystem(Execute(env, evs))
  {
    if evs != [] {
      var init, ev := evs[..|evs| - 1], evs[|evs| - 1];
      ExecuteFresh(env, init);
      match ev
      case Downstream(stop) => DownstreamFresh(env, Execute(env, init), stop);
      case Beating =>
        ExecuteCovers(env, init);
        BeatingFresh(Execute(env, init));
      case _ =>
    }
  }

  lemma {:induction false} FloorRises(trace: seq<Output>, i: nat)
    requires i < |trace| && trace[i].BeatOut?
    ensures Reached(trace[..i]) <= Floor(trace)
    decreases |trace|
  {
    var init, o := trace[..|trace| - 1], trace[|trace| - 1];
    assert trace == init + [o];
    FloorSnoc(init, o);
    if i < |init| {
      assert init[..i] == trace[..i];
      FloorRises(init, i);
      FloorBelow(init);
    }
  }

  lemma {:induction false} FreshAt(trace: seq<Output>, i: nat, j: nat)
    requires Fresh(trace) && i < j < |trace| && trace[i].BeatOut? && trace[j].BeatOut?
    ensures Reached(trace[..i]) <= trace[j].seqNo
    decreases |trace|
  {
    var init := trace[..|trace| - 1];
    assert init[..i] == trace[..i];
    if j < |init| { FreshAt(init, i, j); } else { FloorRises(init, i); }
  }

  /** Heartbeats are fresh. In every schedule, a heartbeat announces at least one more than the number of messages
      that had gone out before any earlier heartbeat: a receiver that hears two in a row knows of everything
      sent before the first. */
  lemma HeartbeatsFresh(env: Env, evs: seq<Event>, i: nat, j: nat)
    requires i < j < |Execute(env, evs).trace|
    requires Execute(env, evs).trace[i].BeatOut? && Execute(env, evs).trace[j].BeatOut?
    ensures NextOf(DataOf(Execute(env, evs).trace[..i])) <= Execute(env, evs).trace[j].seqNo
  {
    ExecuteFresh(env, evs);
    FreshAt(Execute(env, evs).trace, i, j);
  }
}
