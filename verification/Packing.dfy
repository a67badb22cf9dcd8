/** Greedy packing of messages into blocks of bounded size. */
module Packing {
  import opened Sequences
  import opened Framing

  // One past the last message that a block started at message k accepts when it has `room` bytes.
  function RunEnd(ms: seq<Message>, k: nat, room: nat): (n: nat)
    requires k <= |ms|
    ensures k <= n <= |ms|
    decreases |ms| - k
  {
    if k == |ms| || |ms[k]| > room then k else RunEnd(ms, k + 1, room - |ms[k]|)
  }

  lemma {:induction false} BoundariesRise(ms: seq<Message>, k: nat, n: nat)
    requires k <= n <= |ms|
    ensures Boundary(ms, k) <= Boundary(ms, n)
    decreases n
  {
    if k < n {
      BoundariesRise(ms, k, n - 1);
      PieceAt(ms, n - 1);
    }
  }

  // A run of messages fits exactly when it ends no later than greedy acceptance does.
  lemma {:induction false} RunEndIsLargest(ms: seq<Message>, k: nat, room: nat, n: nat)
    requires k <= n <= |ms|
    ensures Boundary(ms, n) - Boundary(ms, k) <= room <==> n <= RunEnd(ms, k, room)
    decreases n - k
  {
    if k < n {
      PieceAt(ms, k);
      if |ms[k]| <= room {
        RunEndIsLargest(ms, k + 1, room - |ms[k]|, n);
      } else {
        BoundariesRise(ms, k + 1, n);
      }
    }
  }

  predicate FitsIn(m: Message, cap: nat) {
    0 < |m| <= cap
  }

  predicate EachFits(ms: seq<Message>, cap: nat) {
    forall i {:trigger FitsIn(ms[i], cap)} | 0 <= i < |ms| :: FitsIn(ms[i], cap)
  }

  // The blocks formed from message k on by filling each one before starting the next.
  function Blocks(ms: seq<Message>, k: nat, cap: nat): (bs: seq<seq<Message>>)
    requires EachFits(ms, cap) && k <= |ms|
    decreases |ms| - k
  {
    if k == |ms| then []
    else
      assert FitsIn(ms[k], cap);
      [ms[k..RunEnd(ms, k, cap)]] + Blocks(ms, RunEnd(ms, k, cap), cap)
  }

  // They make up the messages, and each is filled within the cap.
  lemma {:induction false} BlocksCover(ms: seq<Message>, k: nat, cap: nat)
    requires EachFits(ms, cap) && k <= |ms|
    ensures Flatten(Blocks(ms, k, cap)) == ms[k..]
    ensures forall i | 0 <= i < |Blocks(ms, k, cap)| ::
              Blocks(ms, k, cap)[i] != [] && |Flatten(Blocks(ms, k, cap)[i])| <= cap
    decreases |ms| - k
  {
    if k < |ms| {
      var n := RunEnd(ms, k, cap);
      assert FitsIn(ms[k], cap);
      BlocksCover(ms, n, cap);
      RunEndIsLargest(ms, k, cap, n);
      SliceWidth(ms, k, n);
      assert ms[k..] == ms[k..n] + ms[n..];
    }
  }

  // A block started later ends no earlier,
  lemma RunEndsRise(ms: seq<Message>, k: nat, i: nat, cap: nat)
    requires k <= i <= |ms|
    ensures RunEnd(ms, k, cap) <= RunEnd(ms, i, cap)
  {
    var n := RunEnd(ms, k, cap);
    if i < n {
      RunEndIsLargest(ms, k, cap, n);
      BoundariesRise(ms, k, i);
      RunEndIsLargest(ms, i, cap, n);
    }
  }

  // so dropping messages from the front never costs a block.
  lemma {:induction false} FewerBlocks(ms: seq<Message>, k: nat, i: nat, cap: nat)
    requires EachFits(ms, cap) && k <= i <= |ms|
    ensures |Blocks(ms, i, cap)| <= |Blocks(ms, k, cap)|
    decreases |ms| - k
  {
    if i < |ms| {
      assert FitsIn(ms[k], cap);
      RunEndsRise(ms, k, i, cap);
      FewerBlocks(ms, RunEnd(ms, k, cap), RunEnd(ms, i, cap), cap);
    }
  }

  // No order-preserving split into blocks within the cap uses fewer blocks.
  lemma {:induction false} GreedyIsOptimal(ms: seq<Message>, k: nat, cap: nat, split: seq<seq<Message>>)
    requires EachFits(ms, cap) && k <= |ms|
    requires Flatten(split) == ms[k..]
    requires forall i | 0 <= i < |split| :: |Flatten(split[i])| <= cap
    ensures |Blocks(ms, k, cap)| <= |split|
    decreases |split|
  {
    if k < |ms| {
      var i := k + |split[0]|;
      FirstPiece(ms, k, split);
      SliceWidth(ms, k, i);
      RunEndIsLargest(ms, k, cap, i);
      GreedyIsOptimal(ms, i, cap, split[1..]);
      FewerBlocks(ms, i, RunEnd(ms, k, cap), cap);
    }
  }

  lemma FirstPiece(ms: seq<Message>, k: nat, split: seq<seq<Message>>)
    requires k <= |ms| && split != [] && Flatten(split) == ms[k..]
    ensures k + |split[0]| <= |ms|
    ensures split[0] == ms[k..k + |split[0]|] && Flatten(split[1..]) == ms[k + |split[0]|..]
  {
    assert split[0] == Flatten(split)[..|split[0]|] && Flatten(split[1..]) == Flatten(split)[|split[0]|..];
  }
}
