/** When packets are released: the schedule scaled from message timestamps, and how late it can run. */
module Pacer {
  import opened Wrappers

  // static_cast<int64_t>: truncation toward zero.
  function Truncate(x: real): int {
    if x >= 0.0 then x.Floor else -((-x).Floor)
  }

  // The time at which a packet is due, on the wall clock.
  function DueAt(speed: real, replayOrigin: int, wallOrigin: int, timestamp: int): int
    requires speed > 0.0
  {
    wallOrigin + Truncate((timestamp - replayOrigin) as real / speed)
  }

  // `wall` is how many whole nanoseconds of wall time an offset of the recording takes at this speed.
  predicate Lasts(speed: real, offset: int, wall: int) {
    0 <= wall && wall as real * speed <= offset as real < (wall + 1) as real * speed
  }

  // The schedule's scale, with the fraction dropped toward zero.
  predicate Scales(speed: real, offset: int, wall: int) {
    if offset >= 0 then Lasts(speed, offset, wall) else Lasts(speed, -offset, -wall)
  }

  function Max(a: int, b: int): int {
    if a >= b then a else b
  }

  lemma Quotient(x: real, speed: real, d: int)
    requires speed > 0.0
    ensures x / speed * speed == x
    ensures d as real <= x / speed <==> d as real * speed <= x
    ensures x / speed < d as real <==> x < d as real * speed
  {
    var q := x / speed;
    assert q * speed == x;
    if d as real <= q { assert (q - d as real) * speed >= 0.0; } else { assert (d as real - q) * speed > 0.0; }
  }

  lemma WholePart(offset: int, speed: real, wall: int)
    requires speed > 0.0 && offset >= 0
    ensures wall == (offset as real / speed).Floor <==> Lasts(speed, offset, wall)
  {
    Quotient(offset as real, speed, wall);
    Quotient(offset as real, speed, wall + 1);
    Quotient(offset as real, speed, 0);
  }

  lemma NegatedQuotient(x: real, speed: real)
    requires speed > 0.0
    ensures -x / speed == -(x / speed)
  {
    assert -(x / speed) * speed == -x;
  }

  // The due time is the one that scales, and no other does.
  lemma DueScales(speed: real, replayOrigin: int, wallOrigin: int, timestamp: int, due: int)
    requires speed > 0.0
    ensures due == DueAt(speed, replayOrigin, wallOrigin, timestamp)
            <==> Scales(speed, timestamp - replayOrigin, due - wallOrigin)
  {
    var offset, wall := timestamp - replayOrigin, due - wallOrigin;
    Quotient(offset as real, speed, 0);
    if offset >= 0 {
      WholePart(offset, speed, wall);
    } else {
      WholePart(-offset, speed, -wall);
      NegatedQuotient(offset as real, speed);
      assert -offset as real == -(offset as real);
    }
  }

  class Pacer {
    const playbackSpeed: real
    const skipBefore: int
    var wallOrigin: int
    var replayOrigin: Option<int>

    constructor (playbackSpeed: real, skipBefore: int)
      requires playbackSpeed > 0.0
      ensures this.playbackSpeed == playbackSpeed && this.skipBefore == skipBefore
      ensures replayOrigin == None
    {
      this.playbackSpeed, this.skipBefore := playbackSpeed, skipBefore;
      replayOrigin, wallOrigin := None, 0;
    }

    method ShouldSkip(timestamp: int) returns (skip: bool)
      ensures skip <==> timestamp < skipBefore
    {
      skip := timestamp < skipBefore;
    }

    /** `first` and `now` are the clock as read when the origin is set and when the delay is computed.
        Sleeping for the delay from `now` on ends at the due time, or at once when that is past. */
    method GetDelay(timestamp: int, first: int, now: int) returns (delay: int)
      requires playbackSpeed > 0.0
      modifies this
      ensures replayOrigin == (if old(replayOrigin).None? then Some(timestamp) else old(replayOrigin))
      ensures wallOrigin == (if old(replayOrigin).None? then first else old(wallOrigin))
      ensures var due := DueAt(playbackSpeed, replayOrigin.value, wallOrigin, timestamp);
              && delay >= 0 && now + delay == Max(now, due)
              && Scales(playbackSpeed, timestamp - replayOrigin.value, due - wallOrigin)
    {
      if replayOrigin.None? {
        replayOrigin := Some(timestamp);
        wallOrigin := first;
      }
      var offset := timestamp - replayOrigin.value;
      var sendAt := wallOrigin + Truncate(offset as real / playbackSpeed);
      DueScales(playbackSpeed, replayOrigin.value, wallOrigin, timestamp, sendAt);
      if sendAt <= now {
        return 0;
      }
      delay := sendAt - now;
    }
  }

  /** A run of the paced loop: packet k is due at due[k], the delay is computed at now[k], and the sleep ends
      at Released(k). */
  datatype Timing = Timing(due: seq<int>, now: seq<int>) {
    predicate Valid() {
      |due| == |now| > 0
    }

    function Released(k: nat): int
      requires Valid() && k < |due|
    {
      Max(now[k], due[k])
    }

    function Lateness(k: nat): int
      requires Valid() && k < |due|
    {
      Released(k) - due[k]
    }

    // From one release to the next reading of the clock at most d passes, and time does not run backwards.
    ghost predicate Overhead(d: nat)
      requires Valid()
    {
      forall k {:trigger now[k + 1]} | 0 <= k < |due| - 1 :: Released(k) <= now[k + 1] <= Released(k) + d
    }

    // The backlog that packets j+1..k would pile up at d each, less the schedule time they have.
    function Backlog(d: nat, j: nat, k: nat): int
      requires Valid() && j <= k < |due|
    {
      (k - j) * d - (due[k] - due[j])
    }

    // The worst backlog over all suffixes ending at k, the first charged with the lateness it started with.
    function Worst(d: nat, k: nat): int
      requires Valid() && k < |due|
    {
      if k == 0 then Lateness(0) else Max(0, Worst(d, k - 1) + d - (due[k] - due[k - 1]))
    }
  }

  // The paced loop: each packet's delay computed at nows[k], the origin set on the first at clock reading `first`.
  method Pace(p: Pacer, timestamps: seq<int>, first: int, nows: seq<int>) returns (delays: seq<int>, t: Timing)
    requires p.replayOrigin.None? && p.playbackSpeed > 0.0 && |timestamps| == |nows| > 0
    modifies p
    ensures t.Valid() && t.now == nows && |delays| == |nows|
    ensures forall k {:trigger t.due[k]} | 0 <= k < |nows| ::
              Scales(p.playbackSpeed, timestamps[k] - timestamps[0], t.due[k] - first)
    ensures forall k {:trigger delays[k]} | 0 <= k < |nows| :: delays[k] >= 0 && nows[k] + delays[k] == t.Released(k)
  {
    delays := [];
    var due := [];
    for i := 0 to |nows|
      invariant |delays| == |due| == i
      invariant i == 0 ==> p.replayOrigin.None?
      invariant i > 0 ==> p.replayOrigin == Some(timestamps[0]) && p.wallOrigin == first
      invariant forall k {:trigger due[k]} | 0 <= k < i ::
                  Scales(p.playbackSpeed, timestamps[k] - timestamps[0], due[k] - first)
      invariant forall k {:trigger delays[k]} | 0 <= k < i ::
                  delays[k] >= 0 && nows[k] + delays[k] == Max(nows[k], due[k])
    {
      var delay := p.GetDelay(timestamps[i], first, nows[i]);
      delays := delays + [delay];
      due := due + [DueAt(p.playbackSpeed, timestamps[0], first, timestamps[i])];
    }
    t := Timing(due, nows);
  }

  // One packet's lateness feeds the next, less whatever slack the schedule leaves.
  lemma LatenessStep(t: Timing, d: nat, k: nat)
    requires t.Valid() && t.Overhead(d) && k + 1 < |t.due|
    ensures 0 <= t.Lateness(k + 1) <= Max(0, t.Lateness(k) + d - (t.due[k + 1] - t.due[k]))
  {
    assert t.now[k + 1] <= t.Released(k) + d;
  }

  // A packet is never early, and lateness never grows across a gap of at least the overhead.
  lemma NoDrift(t: Timing, d: nat, k: nat)
    requires t.Valid() && t.Overhead(d) && k + 1 < |t.due|
    ensures t.Released(k + 1) >= t.due[k + 1]
    ensures t.due[k + 1] - t.due[k] >= d ==> t.Lateness(k + 1) <= t.Lateness(k)
  {
    LatenessStep(t, d, k);
  }

  lemma {:induction false} LatenessBounded(t: Timing, d: nat, k: nat)
    requires t.Valid() && t.Overhead(d) && k < |t.due|
    ensures t.Lateness(k) <= t.Worst(d, k)
  {
    if k > 0 {
      LatenessBounded(t, d, k - 1);
      LatenessStep(t, d, k - 1);
    }
  }

  lemma BacklogStep(t: Timing, d: nat, j: nat, k: nat)
    requires t.Valid() && j <= k && k + 1 < |t.due|
    ensures t.Backlog(d, j, k + 1) == t.Backlog(d, j, k) + d - (t.due[k + 1] - t.due[k])
  {
    assert (k + 1 - j) * d == (k - j) * d + d;
  }

  // The recursive bound dominates the backlog of every suffix of the run so far,
  lemma {:induction false} WorstDominates(t: Timing, d: nat, k: nat, j: nat)
    requires t.Valid() && j <= k < |t.due|
    ensures t.Backlog(d, j, k) + (if j == 0 then t.Lateness(0) else 0) <= t.Worst(d, k)
    decreases k
  {
    if j < k {
      WorstDominates(t, d, k - 1, j);
      BacklogStep(t, d, j, k - 1);
    }
  }

  // and is attained by one of them.
  lemma {:induction false} WorstAttained(t: Timing, d: nat, k: nat) returns (j: nat)
    requires t.Valid() && k < |t.due|
    ensures j <= k && t.Worst(d, k) == t.Backlog(d, j, k) + (if j == 0 then t.Lateness(0) else 0)
  {
    j := k;
    if k > 0 && t.Worst(d, k) > 0 {
      j := WorstAttained(t, d, k - 1);
      BacklogStep(t, d, j, k - 1);
    }
  }

  // Over any run, lateness stays within the worst suffix backlog.
  lemma PacingDoesNotDrift(t: Timing, d: nat, k: nat) returns (j: nat)
    requires t.Valid() && t.Overhead(d) && k < |t.due|
    ensures j <= k && 0 <= t.Lateness(k) <= t.Backlog(d, j, k) + (if j == 0 then t.Lateness(0) else 0)
  {
    LatenessBounded(t, d, k);
    j := WorstAttained(t, d, k);
  }

  lemma Scaled(x: real, y: real, speed: real)
    requires x <= y && speed > 0.0
    ensures x / speed <= y / speed
  {
    assert (y - x) / speed >= 0.0;
    assert y / speed == x / speed + (y - x) / speed;
  }

  // Later timestamps are due no earlier, whatever the speed.
  lemma ScheduleMonotone(speed: real, replayOrigin: int, wallOrigin: int, earlier: int, later: int)
    requires speed > 0.0 && earlier <= later
    ensures DueAt(speed, replayOrigin, wallOrigin, earlier) <= DueAt(speed, replayOrigin, wallOrigin, later)
    ensures DueAt(speed, replayOrigin, wallOrigin, replayOrigin) == wallOrigin
  {
    Scaled((earlier - replayOrigin) as real, (later - replayOrigin) as real, speed);
  }
}
