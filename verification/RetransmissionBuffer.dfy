/** The ring that remembers, for the last `size` messages, where each one starts in the file. */
module RetransmissionBuffer {
  import opened Bits
  import opened Bytes
  import opened Wrappers

  datatype Record = Record(sequenceNumber: U64, filePosition: nat)

  datatype Ring = Ring(slots: seq<Record>, writeSeq: U64)

  function WrapAdd(a: U64, b: U64): U64 {
    (a + b) % TWO_TO_THE_64
  }

  // index_for: mask when the size is a power of two, remainder otherwise.
  function IndexFor(size: nat, seqNum: nat): nat
    requires size > 0
  {
    if And(size, size - 1) == 0 then And(seqNum, size - 1) else seqNum % size
  }

  lemma IndexIsModulo(size: nat, seqNum: nat)
    requires size > 0
    ensures IndexFor(size, seqNum) == seqNum % size
  {
    PowerOfTwoTest(size);
    if k: nat :| size == Pow2(k) {
      MaskIsModulo(seqNum, k);
    }
  }

  function Empty(size: nat): Ring {
    Ring(seq(size, _ => Record(0, 0)), 0)
  }

  function WriteEntry(slots: seq<Record>, r: Record): (slots': seq<Record>)
    requires |slots| > 0
    ensures |slots'| == |slots|
  {
    IndexIsModulo(|slots|, r.sequenceNumber);
    slots[IndexFor(|slots|, r.sequenceNumber) := r]
  }

  function Pushed(ring: Ring, r: Record): Ring
    requires |ring.slots| > 0
  {
    Ring(WriteEntry(ring.slots, r), r.sequenceNumber)
  }

  // The test on the writer's number that precedes the entry read, with the 64-bit sum.
  predicate Excluded(size: U64, seqNum: U64, current: U64) {
    WrapAdd(seqNum, size) <= current || seqNum > current || current == 0
  }

  // The reader's second half: the entry must still carry the number asked for.
  function ReadEntry(slots: seq<Record>, seqNum: U64): Option<nat>
    requires |slots| > 0
  {
    IndexIsModulo(|slots|, seqNum);
    var entry := slots[IndexFor(|slots|, seqNum)];
    if entry.sequenceNumber != seqNum then None else Some(entry.filePosition)
  }

  function Lookup(ring: Ring, seqNum: U64): Option<nat>
    requires 0 < |ring.slots| < TWO_TO_THE_64
  {
    if Excluded(|ring.slots|, seqNum, ring.writeSeq) then None else ReadEntry(ring.slots, seqNum)
  }

  // The ring after numbers 1, 2, ..., |log| were pushed with these positions.
  function PushAll(size: nat, log: seq<nat>): (ring: Ring)
    requires 0 < size && |log| < TWO_TO_THE_64
    ensures |ring.slots| == size && ring.writeSeq == |log|
  {
    if log == [] then Empty(size)
    else Pushed(PushAll(size, log[..|log| - 1]), Record(|log|, log[|log| - 1]))
  }

  lemma PushAllSnoc(size: nat, log: seq<nat>, position: nat)
    requires 0 < size && |log| + 1 < TWO_TO_THE_64
    ensures PushAll(size, log + [position]) == Pushed(PushAll(size, log), Record(|log| + 1, position))
  {
    assert (log + [position])[..|log|] == log;
  }

  lemma {:induction false} WindowSlot(size: nat, log: seq<nat>, t: nat)
    requires 0 < size && |log| < TWO_TO_THE_64
    requires 1 <= t <= |log| < t + size
    ensures PushAll(size, log).slots[t % size] == Record(t, log[t - 1])
    decreases |log|
  {
    var w := |log|;
    IndexIsModulo(size, w);
    if t < w {
      ApartModulo(t, w, size);
      WindowSlot(size, log[..w - 1], t);
    }
  }

  // A slot never holds a number without the position pushed for it.
  lemma {:induction false} SlotHonest(size: nat, log: seq<nat>, i: nat)
    requires 0 < size && |log| < TWO_TO_THE_64 && i < size
    ensures var r := PushAll(size, log).slots[i];
            r.sequenceNumber >= 1 ==> r.sequenceNumber <= |log| && r.filePosition == log[r.sequenceNumber - 1]
    decreases |log|
  {
    if log != [] {
      IndexIsModulo(size, |log|);
      SlotHonest(size, log[..|log| - 1], i);
    }
  }

  // Read whole, an entry carrying the number asked for carries its position, whatever else has been pushed.
  lemma ReadHonest(size: nat, log: seq<nat>, t: U64)
    requires 0 < size && |log| < TWO_TO_THE_64 && t >= 1
    ensures ReadEntry(PushAll(size, log).slots, t).Some? ==>
              t <= |log| && ReadEntry(PushAll(size, log).slots, t).value == log[t - 1]
  {
    IndexIsModulo(size, t);
    SlotHonest(size, log, t % size);
  }

  // The last number up to q that goes into the slot of s.
  function Latest(size: nat, s: nat, q: nat): (t: nat)
    requires size > 0 && 1 <= s <= q
    ensures s <= t <= q < t + size
  {
    q - (q - s) % size
  }

  lemma LatestSharesSlot(size: nat, s: nat, q: nat)
    requires size > 0 && 1 <= s <= q
    ensures Latest(size, s, q) % size == s % size
    ensures Latest(size, s, q) == s <==> q < s + size
  {
    var d := q - s;
    assert Latest(size, s, q) == s + size * (d / size);
    ModIs(Latest(size, s, q), size, s / size + d / size, s % size) by {
      assert size * (s / size + d / size) + s % size == s + size * (d / size);
    }
    if d < size { ModIs(d, size, 0, d); }
  }

  // Read whole, an entry is found until the number that shares its slot is written, and never after.
  lemma ReadExact(size: nat, log: seq<nat>, t: U64)
    requires 0 < size && |log| < TWO_TO_THE_64 && 1 <= t <= |log|
    ensures ReadEntry(PushAll(size, log).slots, t) == if |log| < t + size then Some(log[t - 1]) else None
  {
    IndexIsModulo(size, t);
    LatestSharesSlot(size, t, |log|);
    WindowSlot(size, log, Latest(size, t, |log|));
  }

  // The abstract map the ring stands for: the last `size` numbers, each with the position pushed for it.
  function Window(size: nat, log: seq<nat>, t: nat): Option<nat> {
    if 1 <= t <= |log| < t + size then Some(log[t - 1]) else None
  }

  // The ring answers like the sliding-window map on every number from 1 up, except that a number whose
  // 64-bit sum with the size wraps is always refused.
  lemma RingRefinesWindow(size: nat, log: seq<nat>, t: U64)
    requires 0 < size < TWO_TO_THE_64 && |log| < TWO_TO_THE_64 && t >= 1
    ensures Lookup(PushAll(size, log), t) == if t + size < TWO_TO_THE_64 then Window(size, log, t) else None
  {
    IndexIsModulo(size, t);
    if 1 <= t <= |log| < t + size {
      WindowSlot(size, log, t);
    }
    if t + size >= TWO_TO_THE_64 {
      ModIs(t + size, TWO_TO_THE_64, 1, t + size - TWO_TO_THE_64);
    } else {
      ModIs(t + size, TWO_TO_THE_64, 0, t + size);
    }
  }

  // A number in the window is found, with its position.
  lemma RingAnswers(size: nat, log: seq<nat>, t: nat)
    requires 0 < size && |log| + size < TWO_TO_THE_64 && 1 <= t <= |log| < t + size
    ensures Lookup(PushAll(size, log), t) == Some(log[t - 1])
  {
    RingRefinesWindow(size, log, t);
  }

  // So the refinement is exact for all numbers precisely when the writer stays `size` below 2^64.
  lemma RingExactness(size: nat, log: seq<nat>)
    requires 0 < size < TWO_TO_THE_64 && 0 < |log| < TWO_TO_THE_64
    ensures (forall t: U64 | t >= 1 :: Lookup(PushAll(size, log), t) == Window(size, log, t))
            <==> |log| + size < TWO_TO_THE_64
  {
    forall t: U64 | t >= 1
      ensures Lookup(PushAll(size, log), t) == if t + size < TWO_TO_THE_64 then Window(size, log, t) else None
    {
      RingRefinesWindow(size, log, t);
    }
    if |log| + size >= TWO_TO_THE_64 {
      var t: U64 := |log|;
      assert Lookup(PushAll(size, log), t) != Window(size, log, t);
    }
  }

  lemma {:induction false} SlotZeroUntouched(size: nat, log: seq<nat>)
    requires 0 < size && |log| < TWO_TO_THE_64 && |log| < size
    ensures PushAll(size, log).slots[0] == Record(0, 0)
    decreases |log|
  {
    if log != [] {
      IndexIsModulo(size, |log|);
      ModIs(|log|, size, 0, |log|);
      SlotZeroUntouched(size, log[..|log| - 1]);
    }
  }

  // Number 0 is never pushed, yet it is answered with position 0 until the ring first fills.
  lemma NumberZero(size: nat, log: seq<nat>)
    requires 0 < size && |log| + size < TWO_TO_THE_64
    ensures Lookup(PushAll(size, log), 0) == if 1 <= |log| < size then Some(0) else None
  {
    IndexIsModulo(size, 0);
    ModIs(0, size, 0, 0);
    ModIs(size, TWO_TO_THE_64, 0, size);
    if |log| < size {
      SlotZeroUntouched(size, log);
    }
  }

  class RetransmissionBuffer {
    const buffer: array<Record>
    const mask: nat
    const useMask: bool
    var writeSeq: U64

    ghost predicate Valid()
      reads this
    {
      && 0 < buffer.Length < TWO_TO_THE_64
      && mask == buffer.Length - 1
      && useMask == (And(buffer.Length, mask) == 0)
    }

    ghost function View(): Ring
      reads this, buffer
    {
      Ring(buffer[..], writeSeq)
    }

    constructor (size: nat)
      requires 0 < size < TWO_TO_THE_64
      ensures Valid() && fresh(buffer)
      ensures buffer.Length == size
      ensures View() == PushAll(size, [])
    {
      buffer := new Record[size](_ => Record(0, 0));
      mask := size - 1;
      useMask := And(size, size - 1) == 0;
      writeSeq := 0;
      new;
      assert buffer[..] == Empty(size).slots;
    }

    method IndexOf(seqNum: U64) returns (i: nat)
      requires Valid()
      ensures i == seqNum % buffer.Length == IndexFor(buffer.Length, seqNum)
    {
      i := if useMask then And(seqNum, mask) else seqNum % buffer.Length;
      IndexIsModulo(buffer.Length, seqNum);
    }

    // Entry first, then the number that publishes it.
    method Push(r: Record)
      requires Valid()
      modifies this`writeSeq, buffer
      ensures Valid()
      ensures View() == Pushed(old(View()), r)
    {
      var i := IndexOf(r.sequenceNumber);
      buffer[i] := r;
      writeSeq := r.sequenceNumber;
    }

    method FilePositionFor(seqNum: U64) returns (position: Option<nat>)
      requires Valid()
      ensures position == Lookup(View(), seqNum)
    {
      var current := writeSeq;
      var overwritten := WrapAdd(seqNum, buffer.Length) <= current;
      var notYetSent := seqNum > current;
      var bufferEmpty := current == 0;
      if overwritten || notYetSent || bufferEmpty {
        return None;
      }
      var i := IndexOf(seqNum);
      if buffer[i].sequenceNumber != seqNum {
        return None;
      }
      position := Some(buffer[i].filePosition);
    }
  }
}
