/** Schedules get somewhere: bounds on how many steps of a thread bring the session forward, whatever else is going on. */
module Liveness {
  import opened Framing
  import opened Progress
  import opened Replay
  import opened Sequences
  import opened Session
  import opened SessionTheorems
  import opened WholeRun
  import opened Wire

  // How many steps of the downstream thread a schedule holds, and how many of the heartbeat thread.
  function Steps(evs: seq<Event>): nat {
    if evs == [] then 0 else Steps(evs[..|evs| - 1]) + if evs[|evs| - 1].Downstream? then 1 else 0
  }

  function Ticks(evs: seq<Event>): nat {
    if evs == [] then 0 else Ticks(evs[..|evs| - 1]) + if evs[|evs| - 1].Beating? then 1 else 0
  }

  // The replay loop has been left.
  predicate Left(st: System) {
    st.control.Stopping? || st.control.Ending?
  }

  lemma ExecuteOn(env: Env, evs: seq<Event>, more: seq<Event>)
    requires more != []
    ensures Execute(env, evs + more)
         == Step(env, Execute(env, evs + more[..|more| - 1]), more[|more| - 1])
  {
    assert (evs + more)[..|evs + more| - 1] == evs + more[..|more| - 1];
  }

  lemma NothingMore(evs: seq<Event>)
    ensures evs + [] == evs
  {
  }

  /* ---- The replay loop ---- */

  // Steps taken so far, as far as they show: four to an iteration and three more to a message.
  function Work(st: System): nat {
    4 * st.n + 3 * |st.log| +
      match st.control
      case Starting => 0
      case Top => 1
      case Reading(_) => 2
      case Pushing(_) => 3
      case Publishing(_) => 1
      case Built(_) => 3
      case Sending(_) => 4
      case _ => 0
  }

  // No step of the downstream thread is idle while the loop lasts.
  lemma StepWorks(env: Env, st: System, base: State, stop: bool)
    requires Refines(env, st, base) && !Left(st)
    ensures var st' := DownstreamStep(env, st, stop);
            Left(st') || Work(st') > Work(st)
  {
  }

  lemma LeftStays(env: Env, st: System, ev: Event)
    requires Left(st)
    ensures Left(Step(env, st, ev)) && Step(env, st, ev).n == st.n
  {
  }

  lemma {:induction false} ExecuteWorks(env: Env, evs: seq<Event>, more: seq<Event>)
    ensures Left(Execute(env, evs + more)) || Work(Execute(env, evs + more)) >= Work(Execute(env, evs)) + Steps(more)
    decreases |more|
  {
    if more == [] {
      NothingMore(evs);
    } else {
      var init, ev := more[..|more| - 1], more[|more| - 1];
      var st := Execute(env, evs + init);
      ExecuteWorks(env, evs, init);
      ExecuteOn(env, evs, more);
      if Left(st) {
        LeftStays(env, st, ev);
      } else if ev.Downstream? {
        ExecuteRefines(env, evs + init);
        StepWorks(env, st, Run(env, st.n), ev.stop);
      } else {
        OthersKeep(env, st, ev);
      }
    }
  }

  // Every message takes at least two bytes of the file.
  lemma FewPushes(env: Env, evs: seq<Event>)
    ensures 2 * |Execute(env, evs).log| <= |env.file|
  {
    ExecuteRefines(env, evs);
    LogIsPrefix(env, Execute(env, evs), Run(env, Execute(env, evs).n));
  }

  /** The loop goes on. However the threads are interleaved, 4n steps of the downstream thread and two more for
      every byte of the file complete n iterations, unless the loop has been left. */
  lemma LoopGoesOn(env: Env, evs: seq<Event>, n: nat)
    requires Steps(evs) > 4 * n + 2 * |env.file|
    ensures Left(Execute(env, evs)) || Execute(env, evs).n >= n
  {
    ExecuteWorks(env, [], evs);
    assert [] + evs == evs;
    FewPushes(env, evs);
  }

  lemma InLoop(env: Env, evs: seq<Event>)
    ensures Run(env, Execute(env, evs).n).halted ==> Left(Execute(env, evs))
  {
    ExecuteRefines(env, evs);
    InLoopState(env, Execute(env, evs), Run(env, Execute(env, evs).n));
  }

  lemma InLoopState(env: Env, st: System, base: State)
    requires Refines(env, st, base)
    ensures base.halted ==> Left(st)
  {
  }

  /** The loop ends by itself, in every schedule with enough steps of the downstream thread, if and only if
      the walk over the file meets no oversized message that is not skipped. */
  lemma LoopEnds(env: Env, evs: seq<Event>)
    requires Unstopped(evs) && Steps(evs) > 6 * |env.file| + 4
    ensures Left(Execute(env, evs)) <==> !WalkJams(env, 0)
  {
    var n := Execute(env, evs).n;
    HaltsUnlessWalkJams(env);
    HaltsUnlessJammed(env);
    if !WalkJams(env, 0) {
      LoopGoesOn(env, evs, |env.file| + 1);
      if !Left(Execute(env, evs)) { HaltedStays(env, |env.file| + 1, n); }
      InLoop(env, evs);
    } else {
      ExecuteLeaves(env, evs);
      assert !Run(env, n).halted;
    }
  }

  // The downstream thread by itself, never stopped.
  function Alone(k: nat): (evs: seq<Event>)
    ensures |evs| == k
  {
    if k == 0 then [] else Alone(k - 1) + [Downstream(false)]
  }

  lemma {:induction false} AloneSteps(k: nat)
    ensures Steps(Alone(k)) == k && Unstopped(Alone(k))
  {
    if k > 0 {
      AloneSteps(k - 1);
      assert Alone(k)[..k - 1] == Alone(k - 1);
    }
  }

  lemma SomeSteps(k: nat) returns (evs: seq<Event>)
    ensures Steps(evs) == k && Unstopped(evs)
  {
    AloneSteps(k);
    evs := Alone(k);
  }

  // Iterations are completed one at a time, and then the thread is at the loop test or has left.
  lemma OneByOne(env: Env, st: System, ev: Event)
    ensures var st' := Step(env, st, ev);
            st'.n == st.n || (st'.n == st.n + 1 && (st'.control.Top? || Left(st')))
  {
    if !ev.Downstream? { OthersKeep(env, st, ev); }
  }

  lemma {:induction false} FirstTime(env: Env, evs: seq<Event>, n: nat) returns (prefix: seq<Event>)
    requires 0 < n <= Execute(env, evs).n
    ensures prefix <= evs && Execute(env, prefix).n == n
    ensures Execute(env, prefix).control.Top? || Left(Execute(env, prefix))
  {
    var init := evs[..|evs| - 1];
    prefix := evs;
    OneByOne(env, Execute(env, init), evs[|evs| - 1]);
    if Execute(env, init).n >= n { prefix := FirstTime(env, init, n); }
  }

  lemma UnstoppedPrefix(prefix: seq<Event>, evs: seq<Event>)
    requires prefix <= evs && Unstopped(evs)
    ensures Unstopped(prefix)
  {
    assert forall i {:trigger prefix[i]} | 0 <= i < |prefix| :: prefix[i] == evs[i];
  }

  // Every state of the replay between two iterations is reached, by a schedule in which nobody stops the feed.
  lemma EveryIterationReached(env: Env, n: nat) returns (evs: seq<Event>)
    requires !Run(env, n).halted
    ensures Unstopped(evs) && Execute(env, evs).n == n && Execute(env, evs).control == Top
  {
    if n == 0 {
      evs := [Downstream(false)];
      assert evs[..0] == [];
    } else {
      var all := SomeSteps(4 * n + 2 * |env.file| + 1);
      LoopGoesOn(env, all, n);
      ExecuteLeaves(env, all);
      if Execute(env, all).n < n { HaltedStays(env, Execute(env, all).n, n); }
      evs := FirstTime(env, all, n);
      UnstoppedPrefix(evs, all);
      ExecuteLeaves(env, evs);
    }
  }

  /* ---- A stop request ---- */

  // From here on stop_requested() answers true.
  predicate Stopped(evs: seq<Event>) {
    forall i {:trigger evs[i]} | 0 <= i < |evs| :: evs[i] != Downstream(false)
  }

  // The iteration under way may be completed, but no other is begun.
  ghost predicate NoneBegun(before: System, st: System) {
    st.n == before.n || (st.n == before.n + 1 && (st.control.Top? || Left(st)))
  }

  lemma StopStep(env: Env, before: System, st: System, ev: Event)
    requires NoneBegun(before, st) && ev != Downstream(false)
    ensures NoneBegun(before, Step(env, st, ev))
  {
    if !ev.Downstream? { OthersKeep(env, st, ev); }
  }

  lemma {:induction false} NoneBegunSince(env: Env, evs: seq<Event>, more: seq<Event>)
    requires Stopped(more)
    ensures NoneBegun(Execute(env, evs), Execute(env, evs + more))
    decreases |more|
  {
    if more == [] {
      NothingMore(evs);
    } else {
      var init, ev := more[..|more| - 1], more[|more| - 1];
      assert ev != Downstream(false);
      NoneBegunSince(env, evs, init);
      ExecuteOn(env, evs, more);
      StopStep(env, Execute(env, evs), Execute(env, evs + init), ev);
    }
  }

  /** A stop request is heeded. At whatever point of whatever schedule it is made, the downstream thread completes
      at most the iteration it is in and leaves the loop. */
  lemma StopHeeded(env: Env, evs: seq<Event>, more: seq<Event>)
    requires Stopped(more)
    ensures Execute(env, evs).n <= Execute(env, evs + more).n <= Execute(env, evs).n + 1
    ensures Steps(more) > 2 * |env.file| + 8 ==> Left(Execute(env, evs + more))
  {
    NoneBegunSince(env, evs, more);
    ExecuteWorks(env, evs, more);
    FewPushes(env, evs + more);
  }

  /* ---- The heartbeat ---- */

  // Steps the heartbeat thread needs to come to its end once it is asked to.
  function Remaining(h: Heartbeat): nat {
    match h
    case NotStarted => 4
    case Loading => 3
    case Carrying(_) => 2
    case Testing => 1
    case Exited => 0
  }

  // The heartbeat runs from the first step of the downstream thread until it is asked to stop.
  ghost predicate Running(st: System) {
    && (st.heartbeat.NotStarted? <==> st.control.Starting?)
    && (st.heartbeat.Exited? ==> Left(st))
    && (st.control.Ending? ==> st.heartbeat.Exited?)
  }

  lemma {:induction false} ExecuteRunning(env: Env, evs: seq<Event>)
    ensures Running(Execute(env, evs))
  {
    if evs != [] { ExecuteRunning(env, evs[..|evs| - 1]); }
  }

  lemma BeatingEnds(st: System)
    requires Running(st) && Left(st)
    ensures Remaining(BeatingStep(st).heartbeat) == if st.heartbeat.Exited? then 0 else Remaining(st.heartbeat) - 1
  {
  }

  lemma OthersLeaveHeartbeat(env: Env, st: System, ev: Event)
    requires Running(st) && Left(st) && !ev.Beating?
    ensures Step(env, st, ev).heartbeat == st.heartbeat
  {
  }

  // Three steps of the heartbeat thread end it once the loop has been left, whatever comes in between.
  lemma {:induction false} HeartbeatStops(env: Env, evs: seq<Event>, more: seq<Event>)
    requires Left(Execute(env, evs))
    ensures Left(Execute(env, evs + more))
    ensures Execute(env, evs + more).heartbeat.Exited? || Remaining(Execute(env, evs + more).heartbeat) + Ticks(more) <= 3
    decreases |more|
  {
    ExecuteRunning(env, evs);
    if more == [] {
      NothingMore(evs);
    } else {
      var init, ev := more[..|more| - 1], more[|more| - 1];
      var st := Execute(env, evs + init);
      HeartbeatStops(env, evs, init);
      ExecuteRunning(env, evs + init);
      ExecuteOn(env, evs, more);
      LeftStays(env, st, ev);
      if ev.Beating? { BeatingEnds(st); } else { OthersLeaveHeartbeat(env, st, ev); }
    }
  }

  // How many heartbeats have been sent.
  function BeatCount(trace: seq<Output>): nat {
    if trace == [] then 0 else BeatCount(trace[..|trace| - 1]) + if trace[|trace| - 1].BeatOut? then 1 else 0
  }

  lemma BeatCountSnoc(trace: seq<Output>, o: Output)
    ensures BeatCount(trace + [o]) == BeatCount(trace) + if o.BeatOut? then 1 else 0
  {
    assert (trace + [o])[..|trace|] == trace;
  }

  // Steps the heartbeat thread has taken since it was started.
  function Beaten(st: System): nat {
    3 * BeatCount(st.trace) + (match st.heartbeat case Loading => 1 case Carrying(_) => 2 case _ => 0)
  }

  lemma StepBeats(env: Env, st: System, ev: Event)
    requires Running(st) && !st.control.Starting? && !Left(Step(env, st, ev))
    ensures !Step(env, st, ev).control.Starting? && !Left(st)
    ensures Beaten(Step(env, st, ev)) == Beaten(st) + if ev.Beating? then 1 else 0
  {
    if ev.Beating? && st.heartbeat.Carrying? {
      BeatCountSnoc(st.trace, BeatOut(st.heartbeat.seqNo));
    } else if ev.Downstream? && st.control.Sending? {
      BeatCountSnoc(st.trace, DataOut(Packet(st.control.d.first, st.control.d.messages)));
    }
  }

  lemma {:induction false} ExecuteBeats(env: Env, evs: seq<Event>, more: seq<Event>)
    requires !Execute(env, evs).control.Starting? && !Left(Execute(env, evs + more))
    ensures !Execute(env, evs + more).control.Starting?
    ensures Beaten(Execute(env, evs + more)) == Beaten(Execute(env, evs)) + Ticks(more)
    decreases |more|
  {
    if more == [] {
      NothingMore(evs);
    } else {
      var init, ev := more[..|more| - 1], more[|more| - 1];
      var st := Execute(env, evs + init);
      ExecuteOn(env, evs, more);
      ExecuteRunning(env, evs + init);
      if Left(st) { LeftStays(env, st, ev); }
      ExecuteBeats(env, evs, init);
      StepBeats(env, st, ev);
    }
  }

  /** Heartbeats go on: from the start of the session until the loop is left, every third step of the heartbeat
      thread sends one. */
  lemma HeartbeatsGoOn(env: Env, evs: seq<Event>, more: seq<Event>)
    requires !Execute(env, evs).control.Starting? && !Left(Execute(env, evs + more))
    ensures var sent := BeatCount(Execute(env, evs + more).trace) - BeatCount(Execute(env, evs).trace);
            3 * sent - 2 <= Ticks(more) <= 3 * sent + 2
  {
    ExecuteBeats(env, evs, more);
  }

  /* ---- The end of the session ---- */

  // How often the end of the session has been announced.
  function EndCount(trace: seq<Output>): nat {
    if trace == [] then 0 else EndCount(trace[..|trace| - 1]) + if trace[|trace| - 1].EndOut? then 1 else 0
  }

  lemma EndCountSnoc(trace: seq<Output>, o: Output)
    ensures EndCount(trace + [o]) == EndCount(trace) + if o.EndOut? then 1 else 0
  {
    assert (trace + [o])[..|trace|] == trace;
  }

  // The session is being closed, k steps of the downstream thread after the heartbeat has ended.
  ghost predicate Closing(st: System, k: nat) {
    && Left(st) && st.heartbeat.Exited?
    && (k >= 1 ==> st.control.Ending? && EndCount(st.trace) >= k - 1)
    && (k >= 2 ==> Ended(st.trace))
  }

  lemma ClosingStep(env: Env, st: System, k: nat, ev: Event)
    requires Closing(st, k) && ev != Downstream(true)
    ensures Closing(Step(env, st, ev), if ev.Downstream? then k + 1 else k)
  {
    EndCountSnoc(st.trace, EndOut(st.seqNo));
  }

  lemma {:induction false} Closes(env: Env, evs: seq<Event>, more: seq<Event>)
    requires Closing(Execute(env, evs), 0) && Unstopped(more)
    ensures Closing(Execute(env, evs + more), Steps(more))
    decreases |more|
  {
    if more == [] {
      NothingMore(evs);
    } else {
      var init, ev := more[..|more| - 1], more[|more| - 1];
      assert ev != Downstream(true);
      Closes(env, evs, init);
      ExecuteOn(env, evs, more);
      ClosingStep(env, Execute(env, evs + init), Steps(init), ev);
    }
  }

  /** A session nobody stops comes to its end. On any file whose loop ends, enough steps of the downstream thread,
      then three of the heartbeat thread, then two of the downstream thread, with anything in between, have
      announced the end of the session, and every further step of the downstream thread announces it again. */
  lemma SessionEnds(env: Env, looping: seq<Event>, beating: seq<Event>, closing: seq<Event>)
    requires !WalkJams(env, 0) && Unstopped(looping) && Unstopped(closing)
    requires Steps(looping) > 6 * |env.file| + 4 && Ticks(beating) >= 3 && Steps(closing) >= 2
    ensures Ended(Execute(env, looping + beating + closing).trace)
    ensures EndCount(Execute(env, looping + beating + closing).trace) >= Steps(closing) - 1
  {
    LoopEnds(env, looping);
    HeartbeatStops(env, looping, beating);
    Closes(env, looping + beating, closing);
  }

  lemma ThreeTicks() returns (evs: seq<Event>)
    ensures Ticks(evs) == 3 && Unstopped(evs)
  {
    evs := [Beating, Beating, Beating];
    assert evs[..2] == [Beating, Beating] && [Beating, Beating][..1] == [Beating];
    assert Ticks([Beating]) == 1;
  }

  lemma UnstoppedBoth(evs: seq<Event>, more: seq<Event>)
    requires Unstopped(evs) && Unstopped(more)
    ensures Unstopped(evs + more)
  {
  }

  // So wherever the replay ends there is a session that says so.
  lemma EndReached(env: Env, n: nat) returns (evs: seq<Event>)
    requires Run(env, n).halted
    ensures Unstopped(evs) && Ended(Execute(env, evs).trace)
  {
    HaltsUnlessWalkJams(env);
    var looping := SomeSteps(6 * |env.file| + 5);
    var beating := ThreeTicks();
    var closing := SomeSteps(2);
    SessionEnds(env, looping, beating, closing);
    UnstoppedBoth(looping, beating);
    UnstoppedBoth(looping + beating, closing);
    evs := looping + beating + closing;
  }

  lemma WellFormedEnds(env: Env, ms: seq<Message>)
    requires WellFormed(env, ms)
    ensures !WalkJams(env, 0)
  {
    RunHalts(env, ms, |ms| + 1);
    HaltsUnlessWalkJams(env);
  }

  lemma EndedRight(env: Env, ms: seq<Message>, evs: seq<Event>)
    requires WellFormed(env, ms) && Unstopped(evs) && Ended(Execute(env, evs).trace)
    ensures var trace := Execute(env, evs).trace;
            && trace[|trace| - 1] == EndOut(1 + |Selected(env, ms)|)
            && Flatten(Bodies(DataOf(trace))) == Selected(env, ms)
  {
    UnstoppedSession(env, ms, evs, |Execute(env, evs).trace| - 1);
  }

  // And over a well-formed file everything selected has then been sent, and the end carries the right number.
  lemma UnstoppedSessionEnds(env: Env, ms: seq<Message>, looping: seq<Event>, beating: seq<Event>,
                             closing: seq<Event>)
    requires WellFormed(env, ms) && Unstopped(looping) && Unstopped(beating) && Unstopped(closing)
    requires Steps(looping) > 6 * |env.file| + 4 && Ticks(beating) >= 3 && Steps(closing) >= 2
    ensures var trace := Execute(env, looping + beating + closing).trace;
            && Ended(trace) && trace[|trace| - 1] == EndOut(1 + |Selected(env, ms)|)
            && Flatten(Bodies(DataOf(trace))) == Selected(env, ms)
  {
    WellFormedEnds(env, ms);
    SessionEnds(env, looping, beating, closing);
    UnstoppedBoth(looping, beating);
    UnstoppedBoth(looping + beating, closing);
    EndedRight(env, ms, looping + beating + closing);
  }
}
