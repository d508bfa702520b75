/** The keyboard ring of drivers/keyboard.c, shared by the interrupt handler, the poller and
    one reader. A push runs with interrupts off and is one step; the reader's test, the
    copying of each field of the event, and its advance are steps of their own, and every
    interleaving of them is a run. */
module Keyboard {
  import opened Bytes

  const SIZE: nat := 256

  datatype Event = Event(scancode: byte, ascii: byte, flags: byte)

  /** Where keyboard_get_event is: before its test, or with `fields` of three copied. */
  datatype Reader = Idle | Copying(fields: nat, copy: Event)

  /** The ring, the reader, and what has been stored and delivered so far. */
  datatype State = State(buf: seq<Event>, head: nat, tail: nat, reader: Reader, accepted: seq<Event>, delivered: seq<Event>)

  /** Push: keyboard_handler and keyboard_poll_locked. Test(g): the emptiness test, g being
      what the reader's event held before. */
  datatype Action = Push(e: Event) | Test(g: Event) | CopyField | Advance

  function Succ(i: nat): nat { (i + 1) % SIZE }

  /** The ring's indices are in range. */
  predicate Shaped(s: State) {
    |s.buf| == SIZE && s.head < SIZE && s.tail < SIZE
  }

  function WithField(c: Event, e: Event, field: nat): Event {
    if field == 0 then c.(scancode := e.scancode)
    else if field == 1 then c.(ascii := e.ascii)
    else c.(flags := e.flags)
  }

  function Step(s: State, a: Action): (r: State)
    requires Shaped(s)
    ensures Shaped(r)
  {
    match a
    case Push(e) =>
      if Succ(s.tail) != s.head then
        s.(buf := s.buf[s.tail := e], tail := Succ(s.tail), accepted := s.accepted + [e])
      else s
    case Test(g) =>
      if s.reader.Idle? && s.head != s.tail then s.(reader := Copying(0, g)) else s
    case CopyField =>
      if s.reader.Copying? && s.reader.fields < 3 then
        s.(reader := Copying(s.reader.fields + 1, WithField(s.reader.copy, s.buf[s.head], s.reader.fields)))
      else s
    case Advance =>
      if s.reader.Copying? && s.reader.fields == 3 then
        s.(head := Succ(s.head), reader := Idle, delivered := s.delivered + [s.reader.copy])
      else s
  }

  function Run(s: State, acts: seq<Action>): (r: State)
    requires Shaped(s)
    ensures Shaped(r)
    decreases |acts|
  {
    if acts == [] then s else Run(Step(s, acts[0]), acts[1..])
  }

  // ----- what every run keeps -----

  /** Accepted and not yet delivered. */
  function Pending(s: State): seq<Event>
    requires |s.delivered| <= |s.accepted|
  {
    s.accepted[|s.delivered|..]
  }

  /** n events from index `head` on, around the end of the buffer, are q. */
  ghost predicate Holds(buf: seq<Event>, head: nat, q: seq<Event>)
    requires |buf| == SIZE
  {
    |q| < SIZE && forall k :: 0 <= k < |q| ==> buf[(head + k) % SIZE] == q[k]
  }

  /** The fields copied so far are those of e. */
  predicate Prefix(c: Event, e: Event, fields: nat) {
    && (fields > 0 ==> c.scancode == e.scancode)
    && (fields > 1 ==> c.ascii == e.ascii)
    && (fields > 2 ==> c.flags == e.flags)
  }

  ghost predicate Inv(s: State) {
    && Shaped(s) && s.delivered <= s.accepted
    && s.tail == (s.head + |Pending(s)|) % SIZE && Holds(s.buf, s.head, Pending(s))
    && (s.reader.Copying? ==>
          Pending(s) != [] && s.reader.fields <= 3 && Prefix(s.reader.copy, Pending(s)[0], s.reader.fields))
  }

  lemma HoldsPush(buf: seq<Event>, head: nat, q: seq<Event>, tail: nat, e: Event)
    requires |buf| == SIZE && head < SIZE && Holds(buf, head, q) && tail == (head + |q|) % SIZE && Succ(tail) != head
    ensures Holds(buf[tail := e], head, q + [e]) && Succ(tail) == (head + |q + [e]|) % SIZE
  {
    forall k | 0 <= k <= |q|
      ensures buf[tail := e][(head + k) % SIZE] == (q + [e])[k]
    {
      if k < |q| { assert (head + k) % SIZE != tail; }
    }
  }

  lemma HoldsPop(buf: seq<Event>, head: nat, q: seq<Event>)
    requires |buf| == SIZE && head < SIZE && Holds(buf, head, q) && q != []
    ensures buf[head] == q[0] && Holds(buf, Succ(head), q[1..]) && (Succ(head) + |q[1..]|) % SIZE == (head + |q|) % SIZE
  {
    assert buf[(head + 0) % SIZE] == q[0];
    forall k | 0 <= k < |q| - 1
      ensures buf[(Succ(head) + k) % SIZE] == q[1..][k]
    {
      assert (Succ(head) + k) % SIZE == (head + (k + 1)) % SIZE;
      assert buf[(head + (k + 1)) % SIZE] == q[k + 1];
    }
  }

  lemma PushKeeps(s: State, e: Event)
    requires Inv(s)
    ensures Inv(Step(s, Push(e)))
  {
    hide Holds;
    if Succ(s.tail) != s.head {
      HoldsPush(s.buf, s.head, Pending(s), s.tail, e);
      assert Pending(Step(s, Push(e))) == Pending(s) + [e];
    }
  }

  lemma AdvanceKeeps(s: State)
    requires Inv(s)
    ensures Inv(Step(s, Advance))
  {
    hide Holds;
    if s.reader.Copying? && s.reader.fields == 3 {
      HoldsPop(s.buf, s.head, Pending(s));
      assert s.reader.copy == Pending(s)[0] == s.accepted[|s.delivered|];
      assert Pending(Step(s, Advance)) == Pending(s)[1..];
    }
  }

  lemma CopyKeeps(s: State)
    requires Inv(s)
    ensures Inv(Step(s, CopyField))
  {
    if s.reader.Copying? && s.reader.fields < 3 { HoldsPop(s.buf, s.head, Pending(s)); }
  }

  lemma StepKeeps(s: State, a: Action)
    requires Inv(s)
    ensures Inv(Step(s, a))
  {
    match a
    case Push(e) => PushKeeps(s, e);
    case Test(_) =>
    case CopyField => CopyKeeps(s);
    case Advance => AdvanceKeeps(s);
  }

  /** keyboard_init */
  predicate Init(s: State) {
    |s.buf| == SIZE && s.head == 0 && s.tail == 0 && s.reader.Idle? && s.accepted == [] && s.delivered == []
  }

  lemma {:induction false} RunKeeps(s: State, acts: seq<Action>)
    requires Inv(s)
    ensures Inv(Run(s, acts))
    decreases |acts|
  {
    if acts != [] {
      StepKeeps(s, acts[0]);
      RunKeeps(Step(s, acts[0]), acts[1..]);
    }
  }

  /** Every interleaving: what has been delivered is what was accepted, each event once, whole
      and in order, and at most 255 are waiting. */
  lemma InOrder(s: State, acts: seq<Action>)
    requires Init(s)
    ensures var r := Run(s, acts); r.delivered <= r.accepted && |r.accepted| - |r.delivered| <= 255
  {
    RunKeeps(s, acts);
  }

  /** In every reachable state an event is dropped exactly when 255 are waiting, and storing
      one never touches the slot being copied. */
  lemma DropsOnlyWhenFull(s: State, acts: seq<Action>, e: Event)
    requires Init(s)
    ensures var r := Run(s, acts);
            && (Step(r, Push(e)) == r <==> |r.accepted| - |r.delivered| == 255)
            && (r.reader.Copying? ==> Step(r, Push(e)).buf[r.head] == r.buf[r.head])
  {
    RunKeeps(s, acts);
    var r := Run(s, acts);
    assert Succ(r.tail) != r.head ==> Step(r, Push(e)).accepted != r.accepted;
  }

  /** Whatever the handler and the poller do in between, a read that is under way returns the
      oldest event waiting when it tested. */
  lemma {:induction false} ReadIsAtomic(s: State, acts: seq<Action>)
    requires Inv(s) && s.reader.Copying? && Run(s, acts).delivered != s.delivered
    ensures |s.delivered| < |Run(s, acts).delivered| && Run(s, acts).delivered[|s.delivered|] == Pending(s)[0]
  {
    RunKeeps(s, acts);
    Grows(s, acts);
    var r := Run(s, acts);
    assert r.delivered[|s.delivered|] == r.accepted[|s.delivered|] == s.accepted[|s.delivered|];
  }

  lemma {:induction false} Grows(s: State, acts: seq<Action>)
    requires Shaped(s)
    ensures s.delivered <= Run(s, acts).delivered && s.accepted <= Run(s, acts).accepted
    decreases |acts|
  {
    if acts != [] { Grows(Step(s, acts[0]), acts[1..]); }
  }

  // ----- the driver's functions -----

  class Ring {
    const buf: array<Event>
    var head: nat
    var tail: nat
    ghost var accepted: seq<Event>
    ghost var delivered: seq<Event>

    constructor ()
      ensures fresh(buf) && Init(Now()) && Inv(Now())
    {
      buf := new Event[SIZE](_ => Event(0, 0, 0));
      head, tail, accepted, delivered := 0, 0, [], [];
    }

    /** The state between calls of the reader. */
    ghost function Now(): State
      reads this, buf
    {
      State(buf[..], head, tail, Idle, accepted, delivered)
    }

    /** The end of keyboard_handler and keyboard_poll_locked: 1 if the event was stored. */
    method Store(e: Event) returns (stored: nat)
      requires Inv(Now())
      modifies this`tail, this`accepted, buf
      ensures Inv(Now()) && Now() == Step(old(Now()), Push(e))
      ensures stored == if |old(accepted)| - |old(delivered)| < SIZE - 1 then 1 else 0
      ensures stored == 1 ==> Pending(Now()) == old(Pending(Now())) + [e]
    {
      PushKeeps(Now(), e);
      var next := (tail + 1) % SIZE;
      stored := 0;
      if next != head {
        buf[tail] := e;
        tail := next;
        accepted := accepted + [e];
        stored := 1;
      }
    }

    /** keyboard_get_event without interference: the oldest event, or 0 if there is none. */
    method GetEvent() returns (found: nat, e: Event)
      requires Inv(Now())
      modifies this`head, this`delivered
      ensures Inv(Now())
      ensures found == if old(Pending(Now())) == [] then 0 else 1
      ensures found == 0 ==> Now() == old(Now())
      ensures found == 1 ==>
                && e == old(Pending(Now()))[0] && Pending(Now()) == old(Pending(Now()))[1..]
                && Now() == Run(old(Now()), [Test(e), CopyField, CopyField, CopyField, Advance])
    {
      ghost var s := Now();
      if head == tail { return 0, Event(0, 0, 0); }
      HoldsPop(s.buf, s.head, Pending(s));
      e := buf[head];
      head := (head + 1) % SIZE;
      delivered := delivered + [e];
      Uninterrupted(s, e);
      RunKeeps(s, [Test(e), CopyField, CopyField, CopyField, Advance]);
      found := 1;
    }
  }

  lemma Uninterrupted(s: State, g: Event)
    requires Shaped(s) && s.reader.Idle? && s.head != s.tail
    ensures Run(s, [Test(g), CopyField, CopyField, CopyField, Advance]) ==
            s.(head := Succ(s.head), delivered := s.delivered + [s.buf[s.head]])
  {
    var s1 := Step(s, Test(g));
    var s2 := Step(s1, CopyField);
    var s3 := Step(s2, CopyField);
    var s4 := Step(s3, CopyField);
    assert s4.reader.copy == s.buf[s.head];
    var s5 := Step(s4, Advance);
    calc {
      Run(s, [Test(g), CopyField, CopyField, CopyField, Advance]);
    == { assert [Test(g), CopyField, CopyField, CopyField, Advance][1..] == [CopyField, CopyField, CopyField, Advance]; }
      Run(s1, [CopyField, CopyField, CopyField, Advance]);
    == { assert [CopyField, CopyField, CopyField, Advance][1..] == [CopyField, CopyField, Advance]; }
      Run(s2, [CopyField, CopyField, Advance]);
    == { assert [CopyField, CopyField, Advance][1..] == [CopyField, Advance]; }
      Run(s3, [CopyField, Advance]);
    == { assert [CopyField, Advance][1..] == [Advance]; }
      Run(s4, [Advance]);
    == { assert [Advance][1..] == []; }
      s5;
    }
  }
}
