/** The keyboard ring buffer: filled by the interrupt handler, drained by the shell. */
module KeyRing {
  import opened Bytes

  const SIZE: nat := 256

  datatype Ring = Ring(slots: seq<byte>, head: nat, tail: nat)

  predicate RingOk(r: Ring) {
    |r.slots| == SIZE && r.head < SIZE && r.tail < SIZE
  }

  function Next(i: nat): nat {
    (i + 1) % SIZE
  }

  function Length(r: Ring): (n: nat)
    requires RingOk(r)
    ensures n < SIZE
  {
    if r.head >= r.tail then r.head - r.tail else r.head + SIZE - r.tail
  }

  /** The characters waiting, oldest first. */
  function Queue(r: Ring): (q: seq<byte>)
    requires RingOk(r)
    ensures |q| == Length(r)
  {
    seq<byte>(Length(r), i requires 0 <= i < Length(r) => r.slots[(r.tail + i) % SIZE])
  }

  // ----- the effect of each operation

  predicate CanPush(r: Ring) {
    Next(r.head) != r.tail
  }

  function Stored(r: Ring, c: byte): (r': Ring)
    requires RingOk(r)
  {
    r.(slots := r.slots[r.head := c], head := Next(r.head))
  }

  function Dropped(r: Ring): Ring
    requires RingOk(r)
  {
    r.(tail := Next(r.tail))
  }

  lemma PushRefusedWhenFull(r: Ring)
    requires RingOk(r)
    ensures CanPush(r) <==> |Queue(r)| < SIZE - 1
  {
  }

  lemma PushAppends(r: Ring, c: byte)
    requires RingOk(r) && CanPush(r)
    ensures RingOk(Stored(r, c)) && Queue(Stored(r, c)) == Queue(r) + [c]
  {
    var r' := Stored(r, c);
    assert Length(r') == Length(r) + 1;
    forall i | 0 <= i < Length(r') ensures Queue(r')[i] == (Queue(r) + [c])[i] {
      assert (r.tail + i) % SIZE == if i == Length(r) then r.head else (r.tail + i) % SIZE;
    }
  }

  /** The slot i places behind the next one. */
  lemma OneSlotOn(tail: nat, i: nat)
    requires tail < SIZE && i < SIZE
    ensures (Next(tail) + i) % SIZE == (tail + (i + 1)) % SIZE
  {
    if tail + 1 == SIZE {
      assert tail + (i + 1) == i + SIZE;
    }
  }

  lemma DroppedLength(r: Ring)
    requires RingOk(r) && r.head != r.tail
    ensures RingOk(Dropped(r)) && Length(Dropped(r)) == Length(r) - 1
  {
  }

  lemma PopTakesOldest(r: Ring)
    requires RingOk(r) && r.head != r.tail
    ensures RingOk(Dropped(r)) && Queue(r) == [r.slots[r.tail]] + Queue(Dropped(r))
  {
    DroppedLength(r);
    hide Next, Length;
    forall i | 0 <= i < Length(Dropped(r)) ensures Queue(Dropped(r))[i] == Queue(r)[i + 1] {
      OneSlotOn(r.tail, i);
    }
    assert Queue(r)[0] == r.slots[r.tail];
  }

  // ----- pushes that interrupt a pop

  /** How far keyboard_buffer_pop has got: before its test, after the test found a character,
      after the character was loaded but before the tail is stored. */
  datatype Pop = Idle | Tested | Loaded(c: byte)

  /** The handler pushes a character, all at once, or the shell takes its next step. */
  datatype Event = Push(c: byte) | Step

  /** The ring, the pop under way, and what has been accepted and delivered since the start. */
  datatype Machine = Machine(ring: Ring, pop: Pop, accepted: seq<byte>, popped: seq<byte>)

  function Advance(m: Machine, e: Event): Machine
    requires RingOk(m.ring)
  {
    match e
    case Push(c) =>
      if CanPush(m.ring) then m.(ring := Stored(m.ring, c), accepted := m.accepted + [c]) else m
    case Step =>
      match m.pop
      case Idle => if m.ring.head == m.ring.tail then m else m.(pop := Tested)
      case Tested => m.(pop := Loaded(m.ring.slots[m.ring.tail]))
      case Loaded(c) => m.(ring := Dropped(m.ring), pop := Idle, popped := m.popped + [c])
  }

  /** What has been accepted is what has been delivered and then what waits; and a character
      that a pop is about to deliver is the one that waits longest. */
  ghost predicate MachineOk(m: Machine) {
    && RingOk(m.ring) && m.accepted == m.popped + Queue(m.ring)
    && (!m.pop.Idle? ==> m.ring.head != m.ring.tail)
    && (m.pop.Loaded? ==> m.pop.c == m.ring.slots[m.ring.tail])
  }

  lemma AdvanceKeeps(m: Machine, e: Event)
    requires MachineOk(m)
    ensures MachineOk(Advance(m, e))
  {
    match e
    case Push(c) =>
      if CanPush(m.ring) { PushAppends(m.ring, c); }
    case Step =>
      if m.pop.Loaded? { PopTakesOldest(m.ring); }
  }

  ghost function Run(m: Machine, events: seq<Event>): (m': Machine)
    requires MachineOk(m)
    ensures MachineOk(m')
    decreases |events|
  {
    if events == [] then m
    else
      AdvanceKeeps(m, events[0]);
      Run(Advance(m, events[0]), events[1..])
  }

  function Empty(slots: seq<byte>): Machine {
    Machine(Ring(slots, 0, 0), Idle, [], [])
  }

  /** Wherever interrupts fall, the ring is a FIFO: what has been delivered is a prefix of
      what was accepted, in order, and the rest waits; a push is refused exactly when 255
      characters wait. */
  lemma RingIsFifo(slots: seq<byte>, events: seq<Event>, c: byte)
    requires |slots| == SIZE
    ensures MachineOk(Empty(slots))
    ensures var m := Run(Empty(slots), events);
            && m.accepted == m.popped + Queue(m.ring)
            && (Advance(m, Push(c)).accepted == m.accepted <==> |Queue(m.ring)| == SIZE - 1)
            && (|Queue(m.ring)| < SIZE - 1 ==> Advance(m, Push(c)).accepted == m.accepted + [c])
  {
    assert MachineOk(Empty(slots));
    var m := Run(Empty(slots), events);
    PushRefusedWhenFull(m.ring);
    assert |m.accepted + [c]| == |m.accepted| + 1;
  }

  /** Every character pushed by a run, in order. */
  function Pushes(events: seq<Event>): seq<byte> {
    if events == [] then []
    else (if events[0].Push? then [events[0].c] else []) + Pushes(events[1..])
  }

  /** Nothing is lost while the ring has room: if the run pushes no more than it holds, every
      character is accepted. */
  lemma {:induction false} NothingLost(m: Machine, events: seq<Event>)
    requires MachineOk(m) && |Queue(m.ring)| + |Pushes(events)| < SIZE
    ensures Run(m, events).accepted == m.accepted + Pushes(events)
    decreases |events|
  {
    if events == [] {
      assert m.accepted + [] == m.accepted;
    } else {
      var m' := Advance(m, events[0]);
      AdvanceKeeps(m, events[0]);
      RoomLeft(m, events[0]);
      NothingLost(m', events[1..]);
      hide MachineOk, Advance, Queue;
      if events[0].Push? {
        assert (m.accepted + [events[0].c]) + Pushes(events[1..]) == m.accepted + ([events[0].c] + Pushes(events[1..]));
      }
    }
  }

  lemma RoomLeft(m: Machine, e: Event)
    requires MachineOk(m) && (e.Push? ==> |Queue(m.ring)| < SIZE - 1)
    ensures RingOk(Advance(m, e).ring)
    ensures Advance(m, e).accepted == if e.Push? then m.accepted + [e.c] else m.accepted
    ensures |Queue(Advance(m, e).ring)| <= |Queue(m.ring)| + if e.Push? then 1 else 0
  {
    PushRefusedWhenFull(m.ring);
    if e.Push? {
      PushAppends(m.ring, e.c);
    } else if m.pop.Loaded? {
      PopTakesOldest(m.ring);
    }
    hide Queue;
  }

  /** Three steps in a row are a whole pop. */
  lemma PopIsThreeSteps(m: Machine)
    requires MachineOk(m) && m.pop == Idle && Queue(m.ring) != []
    ensures var m' := Run(m, [Step, Step, Step]);
            && m'.ring == Dropped(m.ring) && m'.pop == Idle
            && m'.popped == m.popped + [Queue(m.ring)[0]]
  {
    PopTakesOldest(m.ring);
    hide MachineOk, Queue, Dropped;
    var a := m.(pop := Tested);
    var b := m.(pop := Loaded(m.ring.slots[m.ring.tail]));
    RunSteps(m, [Step, Step]);
    RunSteps(a, [Step]);
    RunSteps(b, []);
  }

  lemma RunSteps(m: Machine, rest: seq<Event>)
    requires MachineOk(m)
    ensures MachineOk(Advance(m, Step)) && Run(m, [Step] + rest) == Run(Advance(m, Step), rest)
  {
    AdvanceKeeps(m, Step);
    hide MachineOk, Advance;
    assert ([Step] + rest)[1..] == rest;
  }

  // ----- the buffer itself

  class KeyBuffer {
    const data: array<byte>
    var head: nat
    var tail: nat

    ghost predicate Valid()
      reads this, data
    {
      data.Length == SIZE && RingOk(Value())
    }

    ghost function Value(): Ring
      reads this, data
    {
      Ring(data[..], head, tail)
    }

    ghost function Waiting(): seq<byte>
      requires Valid()
      reads this, data
    {
      Queue(Value())
    }

    constructor ()
      ensures Valid() && fresh(data) && Waiting() == []
    {
      data := new byte[SIZE](_ => 0);
      head, tail := 0, 0;
    }

    /** keyboard_buffer_push */
    method PushKey(c: byte) returns (ok: bool)
      requires Valid()
      modifies `head, data
      ensures Valid()
      ensures ok == (|old(Waiting())| < SIZE - 1)
      ensures Waiting() == if ok then old(Waiting()) + [c] else old(Waiting())
    {
      ghost var r := Value();
      PushRefusedWhenFull(r);
      var next := Next(head);
      if next == tail { return false; }
      PushAppends(r, c);
      data[head] := c;
      head := next;
      assert Value() == Stored(r, c);
      return true;
    }

    /** keyboard_buffer_pop */
    method PopKey() returns (ok: bool, c: byte)
      requires Valid()
      modifies `tail
      ensures Valid()
      ensures ok == (old(Waiting()) != [])
      ensures if ok then old(Waiting()) == [c] + Waiting() else Waiting() == old(Waiting())
    {
      if head == tail { return false, 0; }
      PopTakesOldest(Value());
      c := data[tail];
      tail := Next(tail);
      return true, c;
    }

    /** keyboard_buffer_empty */
    method IsEmpty() returns (empty: bool)
      requires Valid()
      ensures empty == (Waiting() == [])
    {
      return head == tail;
    }
  }
}
