/** The ring read while it is being written, field by field, under every interleaving of one writer and any readers. */
module TornReads {
  import opened Bits
  import opened Bytes
  import opened RetransmissionBuffer
  import opened Wrappers

  // How far the writer had come: numbers written, positions written, numbers published.
  datatype Mark = Mark(numbers: nat, positions: nat, published: nat)

  /** A lookup in progress. It also remembers how far the writer had come when the entry's number was read and at
      the reader's last step: the history the guarantees are about. */
  datatype Reader =
    | Checking(s: U64)                  // the window test has passed; the entry's number is read next
    | Confirmed(s: U64, checked: Mark)  // the number matched; the position is read next
    | Answered(s: U64, answer: Option<nat>, checked: Mark, at: Mark)

  /** The writer pushes log[0], log[1], ... under numbers 1, 2, ...: the two fields of an entry in either
      order, then the published number. */
  datatype State = State(slots: seq<Record>, numbers: nat, positions: nat, published: nat, readers: map<nat, Reader>) {
    function Now(): Mark {
      Mark(numbers, positions, published)
    }
  }

  datatype Event =
    | WriteNumber
    | WritePosition
    | Publish
    | Load(id: nat, s: U64)
    | ReadNumber(id: nat)
    | ReadPosition(id: nat)

  predicate Sized(size: nat, log: seq<nat>) {
    0 < size && |log| + size < TWO_TO_THE_64
  }

  predicate Sound(size: nat, log: seq<nat>, st: State) {
    && |st.slots| == size
    && st.published <= st.numbers <= st.published + 1
    && st.published <= st.positions <= st.published + 1
    && st.numbers <= |log| && st.positions <= |log|
  }

  function Start(size: nat): State {
    State(Empty(size).slots, 0, 0, 0, map[])
  }

  // One step of one thread; an event that is not enabled changes nothing.
  function Step(size: nat, log: seq<nat>, st: State, ev: Event): (st': State)
    requires Sized(size, log) && Sound(size, log, st)
    ensures Sound(size, log, st')
  {
    match ev
    case WriteNumber =>
      if st.numbers > st.published || st.published >= |log| then st
      else
        var i := (st.published + 1) % size;
        st.(slots := st.slots[i := st.slots[i].(sequenceNumber := st.published + 1)], numbers := st.published + 1)
    case WritePosition =>
      if st.positions > st.published || st.published >= |log| then st
      else
        var i := (st.published + 1) % size;
        st.(slots := st.slots[i := st.slots[i].(filePosition := log[st.published])], positions := st.published + 1)
    case Publish =>
      if st.numbers == st.positions == st.published + 1 then st.(published := st.published + 1) else st
    case Load(id, s) =>
      var reader := if Excluded(size, s, st.published) then Answered(s, None, st.Now(), st.Now()) else Checking(s);
      st.(readers := st.readers[id := reader])
    case ReadNumber(id) =>
      if id !in st.readers || !st.readers[id].Checking? then st
      else
        var s := st.readers[id].s;
        var reader := if st.slots[s % size].sequenceNumber != s then Answered(s, None, st.Now(), st.Now())
                      else Confirmed(s, st.Now());
        st.(readers := st.readers[id := reader])
    case ReadPosition(id) =>
      if id !in st.readers || !st.readers[id].Confirmed? then st
      else
        var Confirmed(s, checked) := st.readers[id];
        st.(readers := st.readers[id := Answered(s, Some(st.slots[s % size].filePosition), checked, st.Now())])
  }

  function Execute(size: nat, log: seq<nat>, evs: seq<Event>): (st: State)
    requires Sized(size, log)
    ensures Sound(size, log, st)
  {
    if evs == [] then Start(size)
    else Step(size, log, Execute(size, log, evs[..|evs| - 1]), evs[|evs| - 1])
  }

  // Each field of a slot holds what was written last into it.
  ghost predicate SlotsHold(size: nat, log: seq<nat>, st: State)
    requires Sized(size, log) && Sound(size, log, st)
  {
    && (forall t {:trigger st.slots[t % size].sequenceNumber} | 1 <= t <= st.numbers < t + size ::
          st.slots[t % size].sequenceNumber == t)
    && (forall t {:trigger st.slots[t % size].filePosition} | 1 <= t <= st.positions < t + size ::
          st.slots[t % size].filePosition == log[t - 1])
  }

  lemma SlotsHoldStep(size: nat, log: seq<nat>, st: State, ev: Event)
    requires Sized(size, log) && Sound(size, log, st) && SlotsHold(size, log, st)
    ensures SlotsHold(size, log, Step(size, log, st, ev))
  {
    var w := st.published + 1;
    forall t | w - size < t < w ensures t % size != w % size {
      ApartModulo(t, w, size);
    }
  }

  // The number in the slot of s is s until the writer writes s + size, and never again.
  lemma NumberStands(size: nat, log: seq<nat>, st: State, s: nat)
    requires Sized(size, log) && Sound(size, log, st) && SlotsHold(size, log, st) && 1 <= s <= st.numbers
    ensures st.slots[s % size].sequenceNumber == s <==> st.numbers < s + size
  {
    LatestSharesSlot(size, s, st.numbers);
    assert st.slots[Latest(size, s, st.numbers) % size].sequenceNumber == Latest(size, s, st.numbers);
  }

  lemma PositionStands(size: nat, log: seq<nat>, st: State, s: nat)
    requires Sized(size, log) && Sound(size, log, st) && SlotsHold(size, log, st) && 1 <= s <= st.positions
    ensures st.slots[s % size].filePosition == log[Latest(size, s, st.positions) - 1]
  {
    LatestSharesSlot(size, s, st.positions);
    assert st.slots[Latest(size, s, st.positions) % size].filePosition == log[Latest(size, s, st.positions) - 1];
  }

  // What a reader may believe, given how far the writer has come.
  predicate Justified(size: nat, log: seq<nat>, published: nat, reader: Reader)
    requires size > 0
  {
    reader.s >= 1 ==>
      match reader
      case Checking(s) => s <= published
      case Confirmed(s, checked) => s <= published && s <= checked.numbers < s + size
      case Answered(s, None, _, at) => s > at.published || s + size <= at.numbers
      case Answered(s, Some(p), checked, at) =>
        && s <= checked.numbers < s + size
        && s <= at.positions <= |log| && p == log[Latest(size, s, at.positions) - 1]
  }

  ghost predicate AllJustified(size: nat, log: seq<nat>, st: State)
    requires size > 0
  {
    forall id {:trigger st.readers[id]} | id in st.readers :: Justified(size, log, st.published, st.readers[id])
  }

  lemma ExcludedMeans(size: nat, log: seq<nat>, s: U64, published: nat)
    requires Sized(size, log) && published <= |log| && s >= 1
    ensures Excluded(size, s, published) <==> s > published || s + size <= published
  {
    if s + size < TWO_TO_THE_64 {
      ModIs(s + size, TWO_TO_THE_64, 0, s + size);
    }
  }

  lemma JustifiedStep(size: nat, log: seq<nat>, st: State, ev: Event)
    requires Sized(size, log) && Sound(size, log, st) && SlotsHold(size, log, st) && AllJustified(size, log, st)
    ensures AllJustified(size, log, Step(size, log, st, ev))
  {
    match ev
    case Load(id, s) =>
      if s >= 1 { ExcludedMeans(size, log, s, st.published); }
    case ReadNumber(id) =>
      if id in st.readers && st.readers[id].Checking? && 1 <= st.readers[id].s {
        NumberStands(size, log, st, st.readers[id].s);
      }
    case ReadPosition(id) =>
      if id in st.readers && st.readers[id].Confirmed? && 1 <= st.readers[id].s {
        PositionStands(size, log, st, st.readers[id].s);
      }
    case _ =>
  }

  lemma {:induction false} ExecutionJustified(size: nat, log: seq<nat>, evs: seq<Event>)
    requires Sized(size, log)
    ensures SlotsHold(size, log, Execute(size, log, evs))
    ensures AllJustified(size, log, Execute(size, log, evs))
  {
    if evs != [] {
      var init := evs[..|evs| - 1];
      ExecutionJustified(size, log, init);
      SlotsHoldStep(size, log, Execute(size, log, init), evs[|evs| - 1]);
      JustifiedStep(size, log, Execute(size, log, init), evs[|evs| - 1]);
    }
  }

  /** Field-by-field safety. Over every interleaving, a lookup of s >= 1 that answers found the number s still in
      its slot, and gives the position pushed for the last number whose position had gone into that slot; this
      is s itself unless the writer had already written the position of s + size. A lookup that does not
      answer was for a number not yet published, or the writer had begun to overwrite it. */
  lemma LookupSafety(size: nat, log: seq<nat>, evs: seq<Event>, id: nat)
    requires Sized(size, log)
    requires id in Execute(size, log, evs).readers && Execute(size, log, evs).readers[id].Answered?
    requires Execute(size, log, evs).readers[id].s >= 1
    ensures var Answered(s, answer, checked, at) := Execute(size, log, evs).readers[id];
            match answer
            case Some(p) =>
              && s <= checked.numbers < s + size
              && s <= at.positions <= |log|
              && p == log[Latest(size, s, at.positions) - 1]
              && (Latest(size, s, at.positions) == s <==> at.positions < s + size)
            case None => s > at.published || s + size <= at.numbers
  {
    ExecutionJustified(size, log, evs);
    var reader := Execute(size, log, evs).readers[id];
    assert Justified(size, log, Execute(size, log, evs).published, reader);
    LatestIsOwn(size, reader);
  }

  lemma LatestIsOwn(size: nat, reader: Reader)
    requires size > 0 && reader.Answered? && 1 <= reader.s
    ensures reader.s <= reader.at.positions ==>
              (Latest(size, reader.s, reader.at.positions) == reader.s <==> reader.at.positions < reader.s + size)
  {
    if reader.s <= reader.at.positions { LatestSharesSlot(size, reader.s, reader.at.positions); }
  }

  // So with positions that never repeat, an answer is right exactly when the slot's position was not overwritten.
  lemma RightUnlessLapped(size: nat, log: seq<nat>, evs: seq<Event>, id: nat)
    requires Sized(size, log)
    requires forall i, j | 0 <= i < j < |log| :: log[i] < log[j]
    requires id in Execute(size, log, evs).readers && Execute(size, log, evs).readers[id].Answered?
    requires Execute(size, log, evs).readers[id].s >= 1 && Execute(size, log, evs).readers[id].answer.Some?
    ensures var Answered(s, answer, _, at) := Execute(size, log, evs).readers[id];
            1 <= s <= |log| && (answer.value == log[s - 1] <==> at.positions < s + size)
  {
    LookupSafety(size, log, evs, id);
  }

  lemma ExecuteSnoc(size: nat, log: seq<nat>, evs: seq<Event>, ev: Event)
    requires Sized(size, log)
    ensures Execute(size, log, evs + [ev]) == Step(size, log, Execute(size, log, evs), ev)
  {
    assert (evs + [ev])[..|evs|] == evs;
  }

  /* ---- Every lookup, step by step ---- */

  // Steps of other threads than reader `id`.
  predicate Elsewhere(ev: Event, id: nat) {
    match ev
    case Load(i, _) => i != id
    case ReadNumber(i) => i != id
    case ReadPosition(i) => i != id
    case _ => true
  }

  predicate AllElsewhere(evs: seq<Event>, id: nat) {
    forall i {:trigger evs[i]} | 0 <= i < |evs| :: Elsewhere(evs[i], id)
  }

  // Reader `id` stands as it did, and the writer has gone on.
  ghost predicate Later(st: State, st': State, id: nat) {
    && id in st.readers && id in st'.readers && st'.readers[id] == st.readers[id]
    && st.published <= st'.published && st.numbers <= st'.numbers && st.positions <= st'.positions
  }

  lemma {:induction false} OthersGoOn(size: nat, log: seq<nat>, evs: seq<Event>, more: seq<Event>, id: nat)
    requires Sized(size, log) && id in Execute(size, log, evs).readers && AllElsewhere(more, id)
    ensures Later(Execute(size, log, evs), Execute(size, log, evs + more), id)
    decreases |more|
  {
    if more == [] {
      assert evs + more == evs;
    } else {
      var init, ev := more[..|more| - 1], more[|more| - 1];
      assert Elsewhere(ev, id);
      OthersGoOn(size, log, evs, init, id);
      assert evs + more == (evs + init) + [ev];
      ExecuteSnoc(size, log, evs + init, ev);
    }
  }

  // A lookup with anything happening between its three steps.
  function Loaded(before: seq<Event>, between: seq<Event>, id: nat, s: U64): seq<Event> {
    before + [Load(id, s)] + between
  }

  function Checked(before: seq<Event>, between: seq<Event>, after: seq<Event>, id: nat, s: U64): seq<Event> {
    Loaded(before, between, id, s) + [ReadNumber(id)] + after
  }

  lemma AfterLoad(size: nat, log: seq<nat>, before: seq<Event>, between: seq<Event>, id: nat, s: U64)
    requires Sized(size, log) && s >= 1 && AllElsewhere(between, id)
    ensures var st := Execute(size, log, Loaded(before, between, id, s));
            && id in st.readers && st.readers[id].s == s && Execute(size, log, before).published <= st.published
            && if s <= Execute(size, log, before).published < s + size then st.readers[id] == Checking(s)
               else st.readers[id].Answered? && st.readers[id].answer == None
  {
    var st := Execute(size, log, before);
    ExcludedMeans(size, log, s, st.published);
    ExecuteSnoc(size, log, before, Load(id, s));
    OthersGoOn(size, log, before + [Load(id, s)], between, id);
  }

  lemma AfterNumber(size: nat, log: seq<nat>, evs: seq<Event>, after: seq<Event>, id: nat)
    requires Sized(size, log) && AllElsewhere(after, id)
    requires id in Execute(size, log, evs).readers && Execute(size, log, evs).readers[id].Checking?
    requires 1 <= Execute(size, log, evs).readers[id].s <= Execute(size, log, evs).published
    ensures var st, st' := Execute(size, log, evs), Execute(size, log, evs + [ReadNumber(id)] + after);
            var s := st.readers[id].s;
            && id in st'.readers && st'.readers[id].s == s && st.positions <= st'.positions
            && if st.numbers < s + size then st'.readers[id] == Confirmed(s, st.Now())
               else st'.readers[id].Answered? && st'.readers[id].answer == None
  {
    ExecutionJustified(size, log, evs);
    NumberStands(size, log, Execute(size, log, evs), Execute(size, log, evs).readers[id].s);
    ExecuteSnoc(size, log, evs, ReadNumber(id));
    OthersGoOn(size, log, evs + [ReadNumber(id)], after, id);
  }

  lemma AfterPosition(size: nat, log: seq<nat>, evs: seq<Event>, id: nat)
    requires Sized(size, log) && id in Execute(size, log, evs).readers
    requires var reader := Execute(size, log, evs).readers[id];
             reader.Confirmed? && 1 <= reader.s <= Execute(size, log, evs).positions
    ensures var st, st' := Execute(size, log, evs), Execute(size, log, evs + [ReadPosition(id)]);
            && id in st'.readers && st'.readers[id].Answered?
            && st'.readers[id].answer == Some(log[Latest(size, st.readers[id].s, st.positions) - 1])
  {
    ExecutionJustified(size, log, evs);
    PositionStands(size, log, Execute(size, log, evs), Execute(size, log, evs).readers[id].s);
    ExecuteSnoc(size, log, evs, ReadPosition(id));
  }

  lemma RefusedStays(size: nat, log: seq<nat>, evs: seq<Event>, ev: Event, more: seq<Event>, id: nat)
    requires Sized(size, log) && id in Execute(size, log, evs).readers && Execute(size, log, evs).readers[id].Answered?
    requires (ev == ReadNumber(id) || ev == ReadPosition(id)) && AllElsewhere(more, id)
    ensures id in Execute(size, log, evs + [ev] + more).readers
    ensures Execute(size, log, evs + [ev] + more).readers[id] == Execute(size, log, evs).readers[id]
  {
    ExecuteSnoc(size, log, evs, ev);
    OthersGoOn(size, log, evs + [ev], more, id);
  }

  // The conditions under which a lookup is answered: s was published when it loaded the number, and s + size had not
  // been begun when it read the entry's number.
  predicate Found(size: nat, log: seq<nat>, before: seq<Event>, between: seq<Event>, id: nat, s: U64)
    requires Sized(size, log)
  {
    && s <= Execute(size, log, before).published
    && Execute(size, log, Loaded(before, between, id, s)).numbers < s + size
  }

  lemma UpToPosition(size: nat, log: seq<nat>, before: seq<Event>, between: seq<Event>, after: seq<Event>,
                     id: nat, s: U64)
    requires Sized(size, log) && s >= 1 && AllElsewhere(between, id) && AllElsewhere(after, id)
    ensures var st := Execute(size, log, Checked(before, between, after, id, s));
            && id in st.readers && st.readers[id].s == s
            && if Found(size, log, before, between, id, s) then st.readers[id].Confirmed? && s <= st.positions
               else st.readers[id].Answered? && st.readers[id].answer == None
  {
    var loaded := Loaded(before, between, id, s);
    AfterLoad(size, log, before, between, id, s);
    if s <= Execute(size, log, before).published < s + size {
      AfterNumber(size, log, loaded, after, id);
    } else {
      RefusedStays(size, log, loaded, ReadNumber(id), after, id);
    }
  }

  // The position read ends the lookup: refused if it was not found, and otherwise with the position last written into
  // the slot, which is that of s as long as that of s + size has not been written.
  ghost predicate Returns(size: nat, log: seq<nat>, checked: seq<Event>, id: nat, s: U64, found: bool)
    requires Sized(size, log) && s >= 1
  {
    var q, st := Execute(size, log, checked).positions, Execute(size, log, checked + [ReadPosition(id)]);
    && id in st.readers && st.readers[id].Answered?
    && if found then
         && s <= q && st.readers[id].answer == Some(log[Latest(size, s, q) - 1])
         && (q < s + size ==> st.readers[id].answer == Some(log[s - 1]))
       else st.readers[id].answer == None
  }

  lemma LastStep(size: nat, log: seq<nat>, checked: seq<Event>, id: nat, s: U64, found: bool)
    requires Sized(size, log) && s >= 1 && id in Execute(size, log, checked).readers
    requires var st := Execute(size, log, checked);
             && st.readers[id].s == s
             && if found then st.readers[id].Confirmed? && s <= st.positions
                else st.readers[id].Answered? && st.readers[id].answer == None
    ensures Returns(size, log, checked, id, s, found)
  {
    if found {
      AfterPosition(size, log, checked, id);
      LatestSharesSlot(size, s, Execute(size, log, checked).positions);
    } else {
      ExecuteSnoc(size, log, checked, ReadPosition(id));
    }
  }

  /** Exactly what a lookup of s >= 1 returns, whatever the writer and other readers do before, between and after
      its steps: it is answered if and only if s was published when it loaded the number and s + size had not
      been begun when it read the entry's number. */
  lemma LookupExact(size: nat, log: seq<nat>, before: seq<Event>, between: seq<Event>, after: seq<Event>,
                    id: nat, s: U64)
    requires Sized(size, log) && s >= 1 && AllElsewhere(between, id) && AllElsewhere(after, id)
    ensures Returns(size, log, Checked(before, between, after, id, s), id, s,
                    Found(size, log, before, between, id, s))
  {
    UpToPosition(size, log, before, between, after, id, s);
    LastStep(size, log, Checked(before, between, after, id, s), id, s, Found(size, log, before, between, id, s));
  }

  /* ---- The same ring ---- */

  // The ring of whole entries after the numbers published so far, with the entry being written as far as it has come.
  function HalfWritten(size: nat, log: seq<nat>, st: State): seq<Record>
    requires Sized(size, log) && Sound(size, log, st)
  {
    var slots, i := PushAll(size, log[..st.published]).slots, (st.published + 1) % size;
    var number := if st.numbers > st.published then st.numbers else slots[i].sequenceNumber;
    var position := if st.positions > st.published then log[st.published] else slots[i].filePosition;
    slots[i := Record(number, position)]
  }

  lemma PublishStep(size: nat, log: seq<nat>, st: State)
    requires Sized(size, log) && Sound(size, log, st) && st.slots == HalfWritten(size, log, st)
    requires st.numbers == st.positions == st.published + 1
    ensures st.slots == PushAll(size, log[..st.published + 1]).slots
  {
    var w := st.published + 1;
    assert log[..w] == log[..w - 1] + [log[w - 1]];
    PushAllSnoc(size, log[..w - 1], log[w - 1]);
    IndexIsModulo(size, w);
  }

  lemma HalfWrittenStep(size: nat, log: seq<nat>, st: State, ev: Event)
    requires Sized(size, log) && Sound(size, log, st) && st.slots == HalfWritten(size, log, st)
    ensures Step(size, log, st, ev).slots == HalfWritten(size, log, Step(size, log, st, ev))
  {
    if ev.Publish? && st.numbers == st.positions == st.published + 1 { PublishStep(size, log, st); }
  }

  /** Field by field or entry by entry, it is the same ring: in every schedule its slots are those of the whole
      pushes published so far, but for the fields already written of the next. */
  lemma {:induction false} FieldsMakeEntries(size: nat, log: seq<nat>, evs: seq<Event>)
    requires Sized(size, log)
    ensures Execute(size, log, evs).slots == HalfWritten(size, log, Execute(size, log, evs))
    ensures var st := Execute(size, log, evs);
            st.numbers == st.positions == st.published ==> st.slots == PushAll(size, log[..st.published]).slots
  {
    if evs != [] {
      FieldsMakeEntries(size, log, evs[..|evs| - 1]);
      HalfWrittenStep(size, log, Execute(size, log, evs[..|evs| - 1]), evs[|evs| - 1]);
    }
  }

  // From wherever any schedule has brought it, the writer can complete the entry it is at.
  lemma WriterGoesOn(size: nat, log: seq<nat>, evs: seq<Event>)
    requires Sized(size, log) && Execute(size, log, evs).published < |log|
    ensures Execute(size, log, evs + [WriteNumber] + [WritePosition] + [Publish]).published
         == Execute(size, log, evs).published + 1
  {
    ExecuteSnoc(size, log, evs, WriteNumber);
    ExecuteSnoc(size, log, evs + [WriteNumber], WritePosition);
    ExecuteSnoc(size, log, evs + [WriteNumber] + [WritePosition], Publish);
  }

  /* ---- An answer that is torn ---- */

  const ONE_PUSH := [WriteNumber, WritePosition, Publish]
  const CONFIRMED := Confirmed(1, Mark(1, 1, 1))
  const ONE_PUSHED := State([Record(1, 10)], 1, 1, 1, map[])

  lemma AfterOnePush()
    ensures Execute(1, [10, 20], ONE_PUSH) == ONE_PUSHED
  {
    var log := [10, 20];
    assert ONE_PUSH == [] + [WriteNumber] + [WritePosition] + [Publish];
    ExecuteSnoc(1, log, [], WriteNumber);
    assert Execute(1, log, [] + [WriteNumber]).slots == [Record(1, 0)];
    ExecuteSnoc(1, log, [] + [WriteNumber], WritePosition);
    assert Execute(1, log, [] + [WriteNumber] + [WritePosition]).slots == [Record(1, 10)];
    ExecuteSnoc(1, log, [] + [WriteNumber] + [WritePosition], Publish);
  }

  lemma ReaderPasses()
    ensures Step(1, [10, 20], ONE_PUSHED, Load(0, 1)) == ONE_PUSHED.(readers := map[0 := Checking(1)])
    ensures Step(1, [10, 20], ONE_PUSHED.(readers := map[0 := Checking(1)]), ReadNumber(0))
         == ONE_PUSHED.(readers := map[0 := CONFIRMED])
  {
  }

  lemma ReaderTorn()
    ensures Step(1, [10, 20], ONE_PUSHED.(readers := map[0 := CONFIRMED]), WritePosition)
         == State([Record(1, 20)], 1, 2, 1, map[0 := CONFIRMED])
    ensures Step(1, [10, 20], State([Record(1, 20)], 1, 2, 1, map[0 := CONFIRMED]), ReadPosition(0)).readers
         == map[0 := Answered(1, Some(20), Mark(1, 1, 1), Mark(1, 2, 1))]
  {
  }

  // The other case does happen: a reader of number 1 can be handed the position of number 2.
  lemma TornAnswer()
    ensures Execute(1, [10, 20],
                    ONE_PUSH + [Load(0, 1)] + [ReadNumber(0)] + [WritePosition] + [ReadPosition(0)]).readers
         == map[0 := Answered(1, Some(20), Mark(1, 1, 1), Mark(1, 2, 1))]
  {
    var log, evs := [10, 20], ONE_PUSH;
    AfterOnePush();
    ReaderPasses();
    ReaderTorn();
    ExecuteSnoc(1, log, evs, Load(0, 1));
    evs := evs + [Load(0, 1)];
    ExecuteSnoc(1, log, evs, ReadNumber(0));
    evs := evs + [ReadNumber(0)];
    ExecuteSnoc(1, log, evs, WritePosition);
    evs := evs + [WritePosition];
    ExecuteSnoc(1, log, evs, ReadPosition(0));
  }
}
