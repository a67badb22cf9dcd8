/** What skipping at packet starts amounts to: when it is the message-level filter, and when it only drops a head. */
module Skipping {
  import opened Framing
  import opened Packing
  import opened Replay
  import opened Sequences
  import opened WholeRun

  /* ---- Against the message-level filter ---- */

  // The messages the threshold is meant to let through.
  function Kept(env: Env, ms: seq<Message>): seq<Message> {
    if ms == [] then []
    else (if Keeps(env, ms[0]) then [ms[0]] else []) + Kept(env, ms[1..])
  }

  predicate AllKept(env: Env, ms: seq<Message>) {
    forall i {:trigger Keeps(env, ms[i])} | 0 <= i < |ms| :: Keeps(env, ms[i])
  }

  // No packet carries a message the threshold was meant to exclude behind one it keeps.
  predicate NoneHidden(env: Env, ms: seq<Message>, k: nat)
    requires WellFormed(env, ms) && k <= |ms|
    decreases |ms| - k
  {
    if k == |ms| then true
    else if !Keeps(env, ms[k]) then NoneHidden(env, ms, k + 1)
    else AllKept(env, ms[k..PacketEnd(env, ms, k)]) && NoneHidden(env, ms, PacketEnd(env, ms, k))
  }

  lemma {:induction false} KeptAppend(env: Env, xs: seq<Message>, ys: seq<Message>)
    ensures Kept(env, xs + ys) == Kept(env, xs) + Kept(env, ys)
  {
    if xs == [] {
      assert xs + ys == ys;
    } else {
      assert (xs + ys)[1..] == xs[1..] + ys;
      KeptAppend(env, xs[1..], ys);
    }
  }

  lemma AllKeptCons(env: Env, ms: seq<Message>)
    requires ms != []
    ensures AllKept(env, ms) <==> Keeps(env, ms[0]) && AllKept(env, ms[1..])
  {
    assert forall i {:trigger Keeps(env, ms[1..][i])} | 0 <= i < |ms| - 1 ::
             Keeps(env, ms[1..][i]) == Keeps(env, ms[i + 1]);
    assert forall i {:trigger Keeps(env, ms[i])} | 1 <= i < |ms| :: Keeps(env, ms[i]) == Keeps(env, ms[1..][i - 1]);
  }

  lemma {:induction false} KeptShorter(env: Env, ms: seq<Message>)
    ensures |Kept(env, ms)| <= |ms|
    ensures Kept(env, ms) == ms <==> AllKept(env, ms)
    ensures |Kept(env, ms)| == |ms| <==> AllKept(env, ms)
  {
    if ms != [] {
      KeptShorter(env, ms[1..]);
      AllKeptCons(env, ms);
    }
  }

  lemma KeptFrom(env: Env, ms: seq<Message>, k: nat, n: nat)
    requires k <= n <= |ms|
    ensures Kept(env, ms[k..]) == Kept(env, ms[k..n]) + Kept(env, ms[n..])
  {
    assert ms[k..] == ms[k..n] + ms[n..];
    KeptAppend(env, ms[k..n], ms[n..]);
  }

  lemma KeptSingle(env: Env, ms: seq<Message>, k: nat)
    requires k < |ms| && !Keeps(env, ms[k])
    ensures Kept(env, ms[k..]) == Kept(env, ms[k + 1..])
  {
    assert ms[k..][1..] == ms[k + 1..];
  }

  lemma {:induction false} SelectedAtLeast(env: Env, ms: seq<Message>, k: nat)
    requires WellFormed(env, ms) && k <= |ms|
    ensures |Kept(env, ms[k..])| <= |Flatten(Groups(env, ms, k))|
    decreases |ms| - k
  {
    if k < |ms| {
      if Keeps(env, ms[k]) {
        var n := PacketEnd(env, ms, k);
        KeptFrom(env, ms, k, n);
        KeptShorter(env, ms[k..n]);
        SelectedAtLeast(env, ms, n);
      } else {
        KeptSingle(env, ms, k);
        SelectedAtLeast(env, ms, k + 1);
      }
    }
  }

  lemma {:induction false} SelectedIsKept(env: Env, ms: seq<Message>, k: nat)
    requires WellFormed(env, ms) && k <= |ms|
    ensures Flatten(Groups(env, ms, k)) == Kept(env, ms[k..]) <==> NoneHidden(env, ms, k)
    decreases |ms| - k
  {
    if k < |ms| {
      if Keeps(env, ms[k]) {
        var n := PacketEnd(env, ms, k);
        KeptFrom(env, ms, k, n);
        KeptShorter(env, ms[k..n]);
        SelectedAtLeast(env, ms, n);
        SelectedIsKept(env, ms, n);
        Cancel(ms[k..n], Flatten(Groups(env, ms, n)), Kept(env, ms[n..]));
      } else {
        KeptSingle(env, ms, k);
        SelectedIsKept(env, ms, k + 1);
      }
    }
  }

  lemma Cancel(x: seq<Message>, a: seq<Message>, b: seq<Message>)
    ensures x + a == x + b <==> a == b
  {
    assert (x + a)[|x|..] == a && (x + b)[|x|..] == b;
  }

  /** A full replay of a well-formed file sends exactly the messages the threshold lets through if and only if
      no packet hides an excluded message behind a kept one. */
  lemma PacketSkipIsFilter(env: Env, ms: seq<Message>, n: nat)
    requires WellFormed(env, ms) && Run(env, n).halted
    ensures Sent(Run(env, n)) == Kept(env, ms) <==> NoneHidden(env, ms, 0)
  {
    WholeRunExact(env, ms, n);
    SelectedIsKept(env, ms, 0);
    assert ms[0..] == ms;
  }

  const OUT_OF_ORDER := [Tiny(5), Tiny(1)]

  lemma TwoInOnePacket(env: Env)
    requires env.file == Flatten(OUT_OF_ORDER) && env.skipBefore == 3 && env.Cap() >= 26
    ensures WellFormed(env, OUT_OF_ORDER) && Selected(env, OUT_OF_ORDER) == OUT_OF_ORDER
    ensures Kept(env, OUT_OF_ORDER) == [Tiny(5)]
  {
    var ms := OUT_OF_ORDER;
    TimeOfTiny(5);
    TimeOfTiny(1);
    assert Keeps(env, ms[0]) && !Keeps(env, ms[1]);
    assert ms[..2] == ms && ms[1..][1..] == [];
    BoundaryEnds(ms);
    RunEndIsLargest(ms, 0, env.Cap(), 2);
    assert ms[0..2] == ms;
    assert Kept(env, ms[1..]) == [];
    assert Groups(env, ms, 0) == [ms] + Groups(env, ms, 2);
    FlattenOne(ms);
  }

  // Out of order it can go wrong: with threshold 3, a message stamped 1 leaves behind one stamped 5.
  lemma HiddenMessage(env: Env)
    requires env.file == Flatten(OUT_OF_ORDER) && env.skipBefore == 3 && env.Cap() >= 26
    ensures WellFormed(env, OUT_OF_ORDER) && Run(env, 3).halted
    ensures Sent(Run(env, 3)) == [Tiny(5), Tiny(1)] && Kept(env, OUT_OF_ORDER) == [Tiny(5)]
  {
    TwoInOnePacket(env);
    RunHalts(env, OUT_OF_ORDER, 3);
    WholeRunExact(env, OUT_OF_ORDER, 3);
  }

  /* ---- Files of which only a head is skipped ---- */

  // Index of the first message from k on that is not skipped.
  function First(env: Env, ms: seq<Message>, k: nat): (f: nat)
    requires k <= |ms|
    ensures k <= f <= |ms| && (f < |ms| ==> Keeps(env, ms[f]))
    decreases |ms| - k
  {
    if k == |ms| || Keeps(env, ms[k]) then k else First(env, ms, k + 1)
  }

  // Nothing is skipped from k on: every packet ends where a kept message or the end of the file follows.
  predicate Unbroken(env: Env, ms: seq<Message>, k: nat)
    requires WellFormed(env, ms) && k <= |ms|
    decreases |ms| - k
  {
    k == |ms| || (Keeps(env, ms[k]) && Unbroken(env, ms, PacketEnd(env, ms, k)))
  }

  // A well-formed file of which nothing is skipped once the first packet has started.
  predicate SkipsOnlyAhead(env: Env, ms: seq<Message>) {
    WellFormed(env, ms) && Unbroken(env, ms, First(env, ms, 0))
  }

  lemma {:induction false} SkipsToFirst(env: Env, ms: seq<Message>, k: nat)
    requires WellFormed(env, ms) && k <= |ms|
    ensures Groups(env, ms, k) == Groups(env, ms, First(env, ms, k))
    ensures Chosen(env, ms, k) == Chosen(env, ms, First(env, ms, k))
    decreases |ms| - k
  {
    if k < |ms| && !Keeps(env, ms[k]) { SkipsToFirst(env, ms, k + 1); }
  }

  lemma {:induction false} UnbrokenSendsAll(env: Env, ms: seq<Message>, k: nat)
    requires WellFormed(env, ms) && k <= |ms|
    ensures |Chosen(env, ms, k)| <= |ms| - k
    ensures |Chosen(env, ms, k)| == |ms| - k <==> Unbroken(env, ms, k)
    ensures Unbroken(env, ms, k) ==> Flatten(Groups(env, ms, k)) == ms[k..]
    decreases |ms| - k
  {
    if k < |ms| {
      if Keeps(env, ms[k]) {
        var n := PacketEnd(env, ms, k);
        UnbrokenSendsAll(env, ms, n);
        assert ms[k..] == ms[k..n] + ms[n..];
      } else {
        UnbrokenSendsAll(env, ms, k + 1);
      }
    }
  }

  // A full replay sends the file's messages from the first unskipped one on, all of them, exactly for such files.
  lemma SendsSuffix(env: Env, ms: seq<Message>)
    requires WellFormed(env, ms)
    ensures Selected(env, ms) == ms[First(env, ms, 0)..] <==> SkipsOnlyAhead(env, ms)
  {
    SkipsToFirst(env, ms, 0);
    UnbrokenSendsAll(env, ms, First(env, ms, 0));
  }

  lemma {:induction false} StandUnbroken(env: Env, ms: seq<Message>, n: nat)
    requires SkipsOnlyAhead(env, ms)
    ensures n <= First(env, ms, 0) ==> Stand(env, ms, n) == n
    ensures n >= First(env, ms, 0) ==>
              First(env, ms, 0) <= Stand(env, ms, n) && Unbroken(env, ms, Stand(env, ms, n))
  {
    if n > 0 {
      StandUnbroken(env, ms, n - 1);
      if n <= First(env, ms, 0) { BeforeFirst(env, ms, 0, n - 1); }
    }
  }

  lemma {:induction false} BeforeFirst(env: Env, ms: seq<Message>, k: nat, i: nat)
    requires k <= |ms| && k <= i < First(env, ms, k)
    ensures !Keeps(env, ms[i])
    decreases |ms| - k
  {
    if k < i { BeforeFirst(env, ms, k + 1, i); }
  }

  lemma BytesBetween(ms: seq<Message>, f: nat, k: nat)
    requires f <= k <= |ms|
    ensures Boundary(ms, f) <= Boundary(ms, k) <= |Flatten(ms)|
    ensures Flatten(ms[f..k]) == Flatten(ms)[Boundary(ms, f)..Boundary(ms, k)]
  {
    TailAt(ms, k);
    TailAt(ms[..k], f);
    assert ms[..k][..f] == ms[..f] && ms[..k][f..] == ms[f..k];
    assert ms == ms[..k] + ms[k..];
    FlattenAppend(ms[..k], ms[k..]);
  }

  lemma SentSlice(env: Env, ms: seq<Message>, n: nat)
    requires SkipsOnlyAhead(env, ms) && n >= First(env, ms, 0)
    ensures First(env, ms, 0) <= Stand(env, ms, n)
    ensures Sent(Run(env, n)) == ms[First(env, ms, 0)..Stand(env, ms, n)]
  {
    var f, k := First(env, ms, 0), Stand(env, ms, n);
    StandUnbroken(env, ms, n);
    RunPrefix(env, ms, n);
    SendsSuffix(env, ms);
    UnbrokenSendsAll(env, ms, k);
    TakeAway(Sent(Run(env, n)), ms, f, k);
  }

  lemma TakeAway(sent: seq<Message>, ms: seq<Message>, f: nat, k: nat)
    requires f <= k <= |ms| && sent + ms[k..] == ms[f..]
    ensures sent == ms[f..k]
  {
    assert sent == (sent + ms[k..])[..k - f];
  }

  // In bytes: once past the skipped messages, what was sent is the file from there to the current position.
  lemma WholeRunBytes(env: Env, ms: seq<Message>, n: nat)
    requires SkipsOnlyAhead(env, ms) && n >= First(env, ms, 0)
    ensures Boundary(ms, First(env, ms, 0)) <= Run(env, n).pos <= |env.file|
    ensures Flatten(Sent(Run(env, n))) == env.file[Boundary(ms, First(env, ms, 0))..Run(env, n).pos]
  {
    RunCourse(env, ms, n);
    SentSlice(env, ms, n);
    BytesBetween(ms, First(env, ms, 0), Stand(env, ms, n));
  }

  lemma {:induction false} GroupsAreBlocks(env: Env, ms: seq<Message>, k: nat)
    requires WellFormed(env, ms) && k <= |ms| && EachFits(ms, env.Cap()) && Unbroken(env, ms, k)
    ensures Groups(env, ms, k) == Blocks(ms, k, env.Cap())
    decreases |ms| - k
  {
    if k < |ms| { GroupsAreBlocks(env, ms, PacketEnd(env, ms, k)); }
  }

  // A run to the end of the file uses no more packets than any other order-preserving split of what it sends.
  lemma FewestPackets(env: Env, ms: seq<Message>, n: nat, split: seq<seq<Message>>)
    requires SkipsOnlyAhead(env, ms) && Run(env, n).halted
    requires Flatten(split) == ms[First(env, ms, 0)..]
    requires forall i | 0 <= i < |split| :: |Flatten(split[i])| <= env.Cap()
    ensures |Run(env, n).packets| <= |split|
  {
    var f := First(env, ms, 0);
    RunPrefix(env, ms, n);
    SkipsToFirst(env, ms, 0);
    FramesOf(env, ms);
    GroupsAreBlocks(env, ms, f);
    GreedyIsOptimal(ms, f, env.Cap(), split);
  }

  /* ---- Files in time order, and replays that skip nothing ---- */

  ghost predicate Sorted(ms: seq<Message>) {
    forall i, j {:trigger TimeOf(ms[i]), TimeOf(ms[j])} | 0 <= i < j < |ms| :: TimeOf(ms[i]) <= TimeOf(ms[j])
  }

  lemma {:induction false} KeptSuffixUnbroken(env: Env, ms: seq<Message>, k: nat)
    requires WellFormed(env, ms) && k <= |ms|
    requires forall i {:trigger Keeps(env, ms[i])} | k <= i < |ms| :: Keeps(env, ms[i])
    ensures Unbroken(env, ms, k) && Kept(env, ms[k..]) == ms[k..]
    decreases |ms| - k
  {
    KeptShorter(env, ms[k..]);
    if k < |ms| { KeptSuffixUnbroken(env, ms, PacketEnd(env, ms, k)); }
  }

  lemma {:induction false} KeptFromFirst(env: Env, ms: seq<Message>, k: nat)
    requires k <= |ms|
    ensures Kept(env, ms[k..]) == Kept(env, ms[First(env, ms, k)..])
    decreases |ms| - k
  {
    if k < |ms| && !Keeps(env, ms[k]) {
      KeptSingle(env, ms, k);
      KeptFromFirst(env, ms, k + 1);
    }
  }

  // If every message behind the first kept one is kept too, the replay sends the kept messages, which are a suffix.
  lemma KeptIsSuffix(env: Env, ms: seq<Message>)
    requires WellFormed(env, ms)
    requires forall i {:trigger Keeps(env, ms[i])} | First(env, ms, 0) <= i < |ms| :: Keeps(env, ms[i])
    ensures SkipsOnlyAhead(env, ms) && NoneHidden(env, ms, 0)
    ensures Selected(env, ms) == Kept(env, ms) == ms[First(env, ms, 0)..]
  {
    KeptSuffixUnbroken(env, ms, First(env, ms, 0));
    KeptFromFirst(env, ms, 0);
    SendsSuffix(env, ms);
    SelectedIsKept(env, ms, 0);
    assert ms[0..] == ms;
  }

  // So it is in time order, and whenever the threshold excludes nothing.
  lemma InTimeOrder(env: Env, ms: seq<Message>)
    requires WellFormed(env, ms) && (Sorted(ms) || env.skipBefore <= 0)
    ensures SkipsOnlyAhead(env, ms) && NoneHidden(env, ms, 0)
    ensures Selected(env, ms) == Kept(env, ms) == ms[First(env, ms, 0)..]
  {
    var f := First(env, ms, 0);
    forall i {:trigger Keeps(env, ms[i])} | f <= i < |ms| ensures Keeps(env, ms[i]) {
      assert f < i ==> TimeOf(ms[f]) <= TimeOf(ms[i]) || env.skipBefore <= 0;
    }
    KeptIsSuffix(env, ms);
  }
}
