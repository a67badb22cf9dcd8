/** Length-prefixed messages in a file, and the parser that walks them by advancing a position. */
module Framing {
  import opened Bytes
  import opened Sequences
  import opened Wrappers

  const PREFIX_SIZE := 2

  type Message = seq<Byte>

  // The length prefix at pos: two bytes, most significant first.
  function Prefix(bytes: seq<Byte>, pos: nat): U16
    requires pos + PREFIX_SIZE <= |bytes|
  {
    256 * (bytes[pos] as int) + bytes[pos + 1] as int
  }

  lemma PrefixIsBigEndian(bytes: seq<Byte>, pos: nat)
    requires pos + PREFIX_SIZE <= |bytes|
    ensures Prefix(bytes, pos) == BigEndian(bytes[pos..pos + PREFIX_SIZE])
  {
    var field := bytes[pos..pos + PREFIX_SIZE];
    assert field[..1] == [bytes[pos]];
    assert BigEndian(field[..1]) == bytes[pos] as int;
  }

  predicate HasPrefix(file: seq<Byte>, pos: nat) {
    pos + PREFIX_SIZE <= |file|
  }

  // Where the message at pos ends, if its prefix is right.
  function EndAt(file: seq<Byte>, pos: nat): (end: nat)
    ensures HasPrefix(file, pos) ==> end >= pos + PREFIX_SIZE
  {
    if HasPrefix(file, pos) then pos + PREFIX_SIZE + Prefix(file, pos) else pos
  }

  predicate Complete(file: seq<Byte>, pos: nat) {
    HasPrefix(file, pos) && EndAt(file, pos) <= |file|
  }

  // Where the parser leaves the position: past a complete message, past the prefix alone when the body
  // overruns the file, and in place when not even a prefix is left.
  function NextPos(file: seq<Byte>, pos: nat): nat {
    if !HasPrefix(file, pos) then pos
    else if !Complete(file, pos) then pos + PREFIX_SIZE
    else EndAt(file, pos)
  }

  method GetAndCheckLengthPrefix(file: seq<Byte>, pos: nat) returns (length: Option<U16>, next: nat)
    ensures length.Some? ==> next == pos + PREFIX_SIZE + length.value <= |file|
    ensures length.Some? ==> length.value == BigEndian(file[pos..pos + PREFIX_SIZE])
    ensures length.None? && pos + PREFIX_SIZE <= |file| ==>
              next == pos + PREFIX_SIZE && next + BigEndian(file[pos..next]) > |file|
    ensures pos + PREFIX_SIZE > |file| ==> length.None? && next == pos
    ensures next == NextPos(file, pos)
    ensures length.Some? <==> Complete(file, pos)
  {
    if pos + PREFIX_SIZE > |file| {
      return None, pos;
    }
    var prefix: nat;
    prefix, next := ReadBe(file, pos, PREFIX_SIZE);
    PrefixIsBigEndian(file, pos);
    if next + prefix > |file| {
      return None, next;
    }
    next := next + prefix;
    length := Some(prefix);
  }

  // The returned span is empty exactly on failure: a success holds at least the prefix.
  method ReadMessage(file: seq<Byte>, pos: nat) returns (msg: Message, next: nat)
    ensures next == NextPos(file, pos)
    ensures msg == [] <==> !Complete(file, pos)
    ensures Complete(file, pos) ==> msg == file[pos..next]
    ensures msg == [] ==> next == if pos + PREFIX_SIZE <= |file| then pos + PREFIX_SIZE else pos
  {
    var length: Option<U16>;
    length, next := GetAndCheckLengthPrefix(file, pos);
    msg := if length.Some? then file[pos..pos + PREFIX_SIZE + length.value] else [];
  }

  method SkipMessage(file: seq<Byte>, pos: nat) returns (ok: bool, next: nat)
    ensures next == NextPos(file, pos)
    ensures ok <==> Complete(file, pos)
    ensures !ok ==> next == if pos + PREFIX_SIZE <= |file| then pos + PREFIX_SIZE else pos
  {
    var length: Option<U16>;
    length, next := GetAndCheckLengthPrefix(file, pos);
    ok := length.Some?;
  }

  // A message whose prefix states the size of its body.
  predicate IsFrame(m: Message) {
    PREFIX_SIZE <= |m| && |m| == PREFIX_SIZE + Prefix(m, 0)
  }

  predicate AllFrames(ms: seq<Message>) {
    forall i {:trigger IsFrame(ms[i])} | 0 <= i < |ms| :: IsFrame(ms[i])
  }

  lemma ScanFrame(file: seq<Byte>, pos: nat, m: Message)
    requires IsFrame(m)
    requires pos + |m| <= |file| && file[pos..pos + |m|] == m
    ensures Complete(file, pos) && EndAt(file, pos) == pos + |m|
  {
    assert file[pos] == m[0] && file[pos + 1] == m[1];
  }

  // From the boundary of message k the parser yields message k and stops at the next boundary.
  lemma ScanAtBoundary(ms: seq<Message>, k: nat)
    requires AllFrames(ms) && k < |ms|
    ensures Complete(Flatten(ms), Boundary(ms, k)) && EndAt(Flatten(ms), Boundary(ms, k)) == Boundary(ms, k + 1)
    ensures Boundary(ms, k) < Boundary(ms, k + 1) <= |Flatten(ms)|
    ensures Flatten(ms)[Boundary(ms, k)..Boundary(ms, k + 1)] == ms[k]
  {
    PieceAt(ms, k);
    assert IsFrame(ms[k]);
    ScanFrame(Flatten(ms), Boundary(ms, k), ms[k]);
  }

  // Whatever the parser accepts is itself a frame.
  lemma CompleteIsFrame(file: seq<Byte>, pos: nat)
    requires Complete(file, pos)
    ensures IsFrame(file[pos..EndAt(file, pos)])
  {
  }

  datatype Visit = Read(msg: Message) | Skipped | Failed

  // A caller's walk: at each step read (true) or skip (false), with the position threaded through.
  function Walk(file: seq<Byte>, pos: nat, choices: seq<bool>): (seq<Visit>, seq<nat>)
    decreases |choices|
  {
    if choices == [] then
      ([], [pos])
    else
      var visit := if !Complete(file, pos) then Failed
                   else if choices[0] then Read(file[pos..EndAt(file, pos)])
                   else Skipped;
      var (visits, stops) := Walk(file, NextPos(file, pos), choices[1..]);
      ([visit] + visits, [pos] + stops)
  }

  // Any mix of reads and skips over a framed file stops at every boundary in turn and nowhere else,
  // and each read returns the message that lies there.
  lemma {:induction false} WalkVisitsBoundaries(ms: seq<Message>, k: nat, choices: seq<bool>)
    requires AllFrames(ms) && k + |choices| <= |ms|
    ensures var (visits, stops) := Walk(Flatten(ms), Boundary(ms, k), choices);
            && |visits| == |choices|
            && |stops| == |choices| + 1
            && (forall i | 0 <= i <= |choices| :: stops[i] == Boundary(ms, k + i))
            && (forall i | 0 <= i < |choices| ::
                  visits[i] == if choices[i] then Read(ms[k + i]) else Skipped)
    decreases |choices|
  {
    if choices != [] {
      ScanAtBoundary(ms, k);
      WalkVisitsBoundaries(ms, k + 1, choices[1..]);
    }
  }

  // A full walk from position 0 ends exactly at the end of the file.
  lemma FramingIsPartition(ms: seq<Message>, choices: seq<bool>)
    requires AllFrames(ms) && |choices| == |ms|
    ensures var (visits, stops) := Walk(Flatten(ms), 0, choices);
            && |stops| == |ms| + 1 && stops[|ms|] == |Flatten(ms)|
            && |visits| == |ms| && Failed !in visits
            && forall i | 0 <= i < |ms| :: choices[i] ==> visits[i] == Read(ms[i])
  {
    BoundaryEnds(ms);
    WalkVisitsBoundaries(ms, 0, choices);
  }

  lemma FramesOccupyBytes(ms: seq<Message>)
    requires AllFrames(ms)
    ensures ms == [] <==> Flatten(ms) == []
  {
    assert ms != [] ==> IsFrame(ms[0]);
  }

  // The bytes determine the messages.
  lemma {:induction false} FramingIsUnique(ms: seq<Message>, ns: seq<Message>)
    requires AllFrames(ms) && AllFrames(ns) && Flatten(ms) == Flatten(ns)
    ensures ms == ns
  {
    FramesOccupyBytes(ms);
    FramesOccupyBytes(ns);
    if ms != [] && ns != [] {
      assert IsFrame(ms[0]) && IsFrame(ns[0]);
      assert Flatten(ms)[..|ms[0]|] == ms[0] && Flatten(ns)[..|ns[0]|] == ns[0];
      ScanFrame(Flatten(ms), 0, ms[0]);
      ScanFrame(Flatten(ns), 0, ns[0]);
      assert Flatten(ms[1..]) == Flatten(ms)[|ms[0]|..] == Flatten(ns[1..]);
      FramingIsUnique(ms[1..], ns[1..]);
    }
  }
}
