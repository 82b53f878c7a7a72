/** The keyboard ring that interrupts fill and readers drain (src/driver/keyboard.c), around any scancode decoder. */
module Keyboards {
  import opened Machine

  const KEYBOARD_BUF_SIZE := 1024

  type Tid = nat

  /**
   * `process_scancode` as a function of its static state and the scancode; the result packs a character in its low
   * byte and flags from bit 16 on, as src/driver/keyhelp.h lays them out.
   */
  type Decoder<!S> = (S, byte) -> (S, int)

  /** `KH_HASDATA` and `KH_ISMAKE`: the key was pressed and means a character. */
  predicate IsChar(k: int) {
    (k / 0x4_0000) % 2 == 1 && (k / 0x1_0000) % 2 == 1
  }

  /** `KH_GETCHAR` */
  function GetChar(k: int): (c: int)
    ensures 0 <= c < 256 && (k - c) % 256 == 0
  {
    k % 256
  }

  /** The state of the decoder after all codes. */
  function After<S>(d: Decoder<S>, s: S, codes: seq<byte>): S {
    if codes == [] then s else d(After(d, s, codes[..|codes| - 1]), codes[|codes| - 1]).0
  }

  /** The characters a decoder that sees all codes in one go puts out. */
  function Chars<S>(d: Decoder<S>, s: S, codes: seq<byte>): seq<int> {
    if codes == [] then []
    else
      var front, last := codes[..|codes| - 1], codes[|codes| - 1];
      var k := d(After(d, s, front), last).1;
      Chars(d, s, front) + if IsChar(k) then [GetChar(k)] else []
  }

  /**
   * The pending scancodes and the decoder, the readers waiting, and what happened so far: every code accepted, how many
   * of them have been consumed, and every character returned.
   */
  datatype Line<S> = Line(first: S, keys: S, fifo: seq<byte>, waiting: seq<Tid>,
                          accepted: seq<byte>, consumed: nat, returned: seq<int>)

  /** An interrupt: the code is dropped when the ring is full, and all waiting readers are taken off the list. */
  function Press<S>(l: Line<S>, code: byte): Line<S> {
    if |l.fifo| == KEYBOARD_BUF_SIZE then l.(waiting := [])
    else l.(fifo := l.fifo + [code], accepted := l.accepted + [code], waiting := [])
  }

  /** `dequeue` followed by `process_scancode`. */
  function Consume<S>(d: Decoder<S>, l: Line<S>): Line<S>
    requires l.fifo != []
  {
    l.(fifo := l.fifo[1..], keys := d(l.keys, l.fifo[0]).0, consumed := l.consumed + 1)
  }

  /** `read_keyboard_char_impl`: consumes up to the first character, or everything. */
  function Read<S>(d: Decoder<S>, l: Line<S>): (r: (Line<S>, int))
    ensures r.1 == -1 ==> r.0.fifo == []
    decreases |l.fifo|
  {
    if l.fifo == [] then (l, -1)
    else
      var k := d(l.keys, l.fifo[0]).1;
      var next := Consume(d, l);
      if IsChar(k) then (next.(returned := next.returned + [GetChar(k)]), GetChar(k)) else Read(d, next)
  }

  /** One turn of `read_keyboard_char`: a reader that finds no character joins the waiting list. */
  function Try<S>(d: Decoder<S>, l: Line<S>, t: Tid): Line<S> {
    var (next, c) := Read(d, l);
    if c == -1 then next.(waiting := next.waiting + [t]) else next
  }

  datatype Event = Interrupt(code: byte) | Reader(t: Tid)

  function Step<S>(d: Decoder<S>, l: Line<S>, e: Event): Line<S> {
    match e
    case Interrupt(code) => Press(l, code)
    case Reader(t) => Try(d, l, t)
  }

  function Start<S>(s: S): Line<S> {
    Line(s, s, [], [], [], 0, [])
  }

  function Run<S>(d: Decoder<S>, s: S, events: seq<Event>): Line<S> {
    if events == [] then Start(s) else Step(d, Run(d, s, events[..|events| - 1]), events[|events| - 1])
  }

  /**
   * What was returned is what decoding the consumed codes in one go gives, the ring holds the accepted codes not yet
   * consumed, in order and at most 1024 of them, and no reader waits while there are any.
   */
  ghost predicate Inv<S(!new)>(d: Decoder<S>, l: Line<S>) {
    && |l.fifo| <= KEYBOARD_BUF_SIZE && l.consumed <= |l.accepted|
    && l.fifo == l.accepted[l.consumed..]
    && l.keys == After(d, l.first, l.accepted[..l.consumed])
    && l.returned == Chars(d, l.first, l.accepted[..l.consumed])
    && (l.waiting != [] ==> l.fifo == [])
  }

  lemma PressKeeps<S(!new)>(d: Decoder<S>, l: Line<S>, code: byte)
    requires Inv(d, l)
    ensures Inv(d, Press(l, code))
  {
    assert (l.accepted + [code])[..l.consumed] == l.accepted[..l.consumed];
  }

  lemma {:induction false} ReadKeeps<S(!new)>(d: Decoder<S>, l: Line<S>)
    requires Inv(d, l)
    ensures Inv(d, Read(d, l).0)
    ensures Read(d, l).0.accepted == l.accepted && Read(d, l).0.first == l.first && Read(d, l).0.waiting == l.waiting
    ensures l.consumed <= Read(d, l).0.consumed
    ensures Read(d, l).0.returned == l.returned + if Read(d, l).1 == -1 then [] else [Read(d, l).1]
    decreases |l.fifo|
  {
    if l.fifo != [] {
      var k := d(l.keys, l.fifo[0]).1;
      var next := Consume(d, l);
      var codes := l.accepted[..l.consumed + 1];
      assert codes[..l.consumed] == l.accepted[..l.consumed] && codes[l.consumed] == l.fifo[0];
      if !IsChar(k) {
        ReadKeeps(d, next);
      }
    }
  }

  /** However interrupts and readers interleave, the characters returned are those of the consumed codes in one go. */
  lemma {:induction false} RunKeeps<S(!new)>(d: Decoder<S>, s: S, events: seq<Event>)
    ensures Inv(d, Run(d, s, events)) && Run(d, s, events).first == s
    decreases |events|
  {
    if events != [] {
      var l, e := Run(d, s, events[..|events| - 1]), events[|events| - 1];
      RunKeeps(d, s, events[..|events| - 1]);
      match e
      case Interrupt(code) => PressKeeps(d, l, code);
      case Reader(t) => ReadKeeps(d, l);
    }
  }

  /** Two runs that accepted and drained the same codes returned the same characters, whatever their interleaving. */
  lemma SameCodesSameChars<S(!new)>(d: Decoder<S>, s: S, events1: seq<Event>, events2: seq<Event>)
    requires Run(d, s, events1).accepted == Run(d, s, events2).accepted
    requires Run(d, s, events1).consumed == Run(d, s, events2).consumed
    ensures Run(d, s, events1).returned == Run(d, s, events2).returned
  {
    RunKeeps(d, s, events1);
    RunKeeps(d, s, events2);
  }

  /** The codes of the interrupts, in order. */
  function Pressed(events: seq<Event>): seq<byte> {
    if events == [] then []
    else
      var last := events[|events| - 1];
      Pressed(events[..|events| - 1]) + if last.Interrupt? then [last.code] else []
  }

  /** No interrupt of the run found the ring full. */
  ghost predicate NeverFull<S(!new)>(d: Decoder<S>, s: S, events: seq<Event>) {
    events != [] ==>
      var front := events[..|events| - 1];
      && NeverFull(d, s, front)
      && (events[|events| - 1].Interrupt? ==> |Run(d, s, front).fifo| < KEYBOARD_BUF_SIZE)
  }

  lemma SameEnd(a: seq<byte>, b: seq<byte>, x: byte)
    ensures a + [x] == b + [x] <==> a == b
  {
    if a + [x] == b + [x] {
      assert |a| == |a + [x]| - 1 == |b|;
      assert a == (a + [x])[..|a|] && b == (b + [x])[..|b|];
    }
  }

  /** Every code is accepted, in order, if and only if no interrupt finds 1024 others pending. */
  lemma {:induction false} NothingLost<S(!new)>(d: Decoder<S>, s: S, events: seq<Event>)
    ensures |Run(d, s, events).accepted| <= |Pressed(events)|
    ensures Run(d, s, events).accepted == Pressed(events) <==> NeverFull(d, s, events)
    decreases |events|
  {
    if events != [] {
      var n := |events| - 1;
      var front := events[..n];
      NothingLost(d, s, front);
      RunKeeps(d, s, front);
      var l, e := Run(d, s, front), events[n];
      match e
      case Interrupt(code) => SameEnd(l.accepted, Pressed(front), code);
      case Reader(_) => ReadKeeps(d, l);
    }
  }

  /** A reader blocked in `read_keyboard_char` has nothing it could read. */
  lemma BlockedMeansEmpty<S(!new)>(d: Decoder<S>, s: S, events: seq<Event>)
    ensures Run(d, s, events).waiting != [] ==> Run(d, s, events).consumed == |Run(d, s, events).accepted|
  {
    RunKeeps(d, s, events);
  }

  // ---- What a reader gets ----

  /** One code alone: what it puts out, and the state after it. */
  lemma OneCode<S>(d: Decoder<S>, s: S, code: byte)
    ensures After(d, s, []) == s && After(d, s, [code]) == d(s, code).0
    ensures Chars(d, s, []) == []
    ensures
      var k := d(s, code).1;
      Chars(d, s, [code]) == if k / 0x4_0000 % 2 == 1 && k / 0x1_0000 % 2 == 1 then [k % 256] else []
  {
    assert [code][..0] == [];
  }

  /** Decoding codes in two goes is decoding them in one. */
  lemma {:induction false} TwoGoes<S>(d: Decoder<S>, s: S, a: seq<byte>, b: seq<byte>)
    ensures After(d, s, a + b) == After(d, After(d, s, a), b)
    ensures Chars(d, s, a + b) == Chars(d, s, a) + Chars(d, After(d, s, a), b)
    decreases |b|
  {
    if b == [] {
      assert a + b == a;
    } else {
      var n := |b| - 1;
      assert (a + b)[..|a + b| - 1] == a + b[..n] && (a + b)[|a + b| - 1] == b[n];
      TwoGoes(d, s, a, b[..n]);
    }
  }

  /** A reader gets the first character that the pending codes mean, and -1 exactly if they mean none. */
  lemma {:induction false} ReadFindsFirst<S>(d: Decoder<S>, l: Line<S>)
    ensures
      var chars := Chars(d, l.keys, l.fifo);
      Read(d, l).1 == if chars == [] then -1 else chars[0]
    decreases |l.fifo|
  {
    if l.fifo == [] {
      OneCode(d, l.keys, 0);
    } else {
      var code, rest := l.fifo[0], l.fifo[1..];
      assert l.fifo == [code] + rest;
      OneCode(d, l.keys, code);
      TwoGoes(d, l.keys, [code], rest);
      if !IsChar(d(l.keys, code).1) {
        ReadFindsFirst(d, Consume(d, l));
      }
    }
  }

  lemma ReadFinds<S>(d: Decoder<S>, l: Line<S>)
    ensures Read(d, l).1 == -1 <==> Chars(d, l.keys, l.fifo) == []
  {
    ReadFindsFirst(d, l);
    NoCharNegative(d, l.keys, l.fifo);
  }

  // ---- Who waits, and who is woken ----

  /** The waiting list after one more event: an interrupt takes everyone off it, and a reader joins exactly without a character. */
  lemma WaitingMoves<S(!new)>(d: Decoder<S>, s: S, events: seq<Event>, e: Event)
    ensures
      var l, l' := Run(d, s, events), Run(d, s, events + [e]);
      && (e.Interrupt? ==> l'.waiting == [])
      && (e.Reader? ==> l'.waiting == l.waiting + if Chars(d, l.keys, l.fifo) == [] then [e.t] else [])
  {
    assert (events + [e])[..|events + [e]| - 1] == events;
    var l := Run(d, s, events);
    RunKeeps(d, s, events);
    ReadKeeps(d, l);
    ReadFinds(d, l);
  }

  lemma {:induction false} NoCharNegative<S>(d: Decoder<S>, s: S, codes: seq<byte>)
    ensures forall i :: 0 <= i < |Chars(d, s, codes)| ==> Chars(d, s, codes)[i] >= 0
  {
    if codes != [] {
      NoCharNegative(d, s, codes[..|codes| - 1]);
    }
  }

  /**
   * Over every run, a reader that found no character is on the list until the next interrupt, so that interrupt takes it
   * off and wakes it;
   */
  lemma {:induction false} StaysWaiting<S(!new)>(d: Decoder<S>, s: S, events: seq<Event>, i: nat, t: Tid)
    requires i < |events| && events[i] == Reader(t) && forall j :: i < j < |events| ==> events[j].Reader?
    requires var l := Run(d, s, events[..i]); Chars(d, l.keys, l.fifo) == []
    ensures t in Run(d, s, events).waiting
    decreases |events|
  {
    hide Run, Chars;
    var n := |events| - 1;
    var front := events[..n];
    assert front + [events[n]] == events;
    WaitingMoves(d, s, front, events[n]);
    if i < n {
      assert front[..i] == events[..i];
      StaysWaiting(d, s, front, i, t);
    }
  }

  /** and nobody else is on it. */
  lemma {:induction false} WaitsSince<S(!new)>(d: Decoder<S>, s: S, events: seq<Event>, t: Tid) returns (i: nat)
    requires t in Run(d, s, events).waiting
    ensures i < |events| && events[i] == Reader(t) && forall j :: i < j < |events| ==> events[j].Reader?
    ensures var l := Run(d, s, events[..i]); Chars(d, l.keys, l.fifo) == []
    decreases |events|
  {
    var n := |events| - 1;
    var front := events[..n];
    assert events != [];
    assert front + [events[n]] == events;
    WaitingMoves(d, s, front, events[n]);
    hide Run, Chars;
    if t in Run(d, s, front).waiting {
      i := WaitsSince(d, s, front, t);
      assert front[..i] == events[..i];
    } else {
      i := n;
    }
  }

  // ---- The ring ----

  function NextIndex(index: nat): (r: nat)
    ensures r < KEYBOARD_BUF_SIZE
  {
    (index + 1) % KEYBOARD_BUF_SIZE
  }

  /** The slot of the `i`th pending code. */
  function Slot(head: nat, i: nat): (r: nat)
    ensures r < KEYBOARD_BUF_SIZE
  {
    (head + i) % KEYBOARD_BUF_SIZE
  }

  lemma SlotsDistinct(head: nat, i: nat, j: nat)
    requires i < KEYBOARD_BUF_SIZE && j < KEYBOARD_BUF_SIZE && i != j
    ensures Slot(head, i) != Slot(head, j)
  {
  }

  lemma SlotAfter(head: nat, i: nat)
    ensures Slot(NextIndex(head), i) == Slot(head, i + 1) && NextIndex(Slot(head, i)) == Slot(head, i + 1)
  {
    var q, r := (head + 1) / KEYBOARD_BUF_SIZE, NextIndex(head);
    assert head + 1 == KEYBOARD_BUF_SIZE * q + r;
    SlotTurns(q, r + i);
    var q', r' := (head + i) / KEYBOARD_BUF_SIZE, Slot(head, i);
    assert head + i == KEYBOARD_BUF_SIZE * q' + r';
    SlotTurns(q', r' + 1);
  }

  /** Whole turns of the ring do not matter. */
  lemma SlotTurns(q: nat, x: nat)
    ensures (KEYBOARD_BUF_SIZE * q + x) % KEYBOARD_BUF_SIZE == x % KEYBOARD_BUF_SIZE
  {
  }

  /** The ring of 1024 scancodes. */
  class BufferQueue {
    const buffer: array<byte>
    var head: nat
    var tail: nat
    var size: nat
    /** The pending codes, oldest first. */
    ghost var fifo: seq<byte>

    ghost predicate Valid()
      reads this, buffer
    {
      && buffer.Length == KEYBOARD_BUF_SIZE && head < KEYBOARD_BUF_SIZE && size <= KEYBOARD_BUF_SIZE
      && tail == Slot(head, size) && |fifo| == size
      && forall i :: 0 <= i < size ==> buffer[Slot(head, i)] == fifo[i]
    }

    constructor ()
      ensures Valid() && fifo == [] && fresh(buffer)
    {
      buffer := new byte[KEYBOARD_BUF_SIZE](_ => 0);
      head, tail, size, fifo := 0, 0, 0, [];
    }

    /** -1 when the ring is full, otherwise the code goes behind all pending ones. */
    method Enqueue(scanCode: byte) returns (r: int)
      requires Valid()
      modifies this, buffer
      ensures Valid()
      ensures if |old(fifo)| == 1024 then r == -1 && fifo == old(fifo)
              else r == 0 && fifo == old(fifo) + [scanCode]
    {
      if size == KEYBOARD_BUF_SIZE {
        return -1;
      }
      forall i | 0 <= i < size
        ensures Slot(head, i) != tail
      {
        SlotsDistinct(head, i, size);
      }
      SlotAfter(head, size);
      buffer[tail] := scanCode;
      tail := NextIndex(tail);
      size := size + 1;
      fifo := fifo + [scanCode];
      return 0;
    }

    /** The oldest pending code; callers have seen that there is one. */
    method Dequeue() returns (code: byte)
      requires Valid() && fifo != []
      modifies this
      ensures Valid() && code == old(fifo)[0] && fifo == old(fifo)[1..]
    {
      hide Slot, NextIndex;
      Oldest(head);
      forall i | 0 <= i < size
        ensures Slot(NextIndex(head), i) == Slot(head, i + 1)
      {
        SlotAfter(head, i);
      }
      assert Slot(NextIndex(head), size - 1) == Slot(head, size);
      code := buffer[head];
      head := NextIndex(head);
      size := size - 1;
      fifo := fifo[1..];
    }
  }

  lemma Oldest(head: nat)
    requires head < KEYBOARD_BUF_SIZE
    ensures Slot(head, 0) == head
  {
  }

  class Keyboard<S(!new)> {
    const decoder: Decoder<S>
    const queue: BufferQueue
    var keys: S
    var waitingTasks: seq<Tid>
    /** What the ring, the decoder and the waiting list stand for. */
    ghost var line: Line<S>

    /** The line agrees with the fields; `Valid` less its history. */
    ghost predicate Synced()
      reads this, queue, queue.buffer
    {
      queue.Valid() && line.fifo == queue.fifo && line.keys == keys && line.waiting == waitingTasks
    }

    ghost predicate Valid()
      reads this, queue, queue.buffer
    {
      Synced() && Inv(decoder, line)
    }

    constructor (decoder: Decoder<S>, keys: S)
      ensures Valid() && this.decoder == decoder && line == Start(keys) && fresh(queue) && fresh(queue.buffer)
    {
      this.decoder := decoder;
      queue := new BufferQueue();
      this.keys := keys;
      waitingTasks := [];
      line := Start(keys);
    }

    /** `keyboard_interrupt_handler` up to the point where it wakes the readers it took off the list. */
    method Interrupt(scancode: byte) returns (woken: seq<Tid>)
      requires Valid()
      modifies this, queue, queue.buffer
      ensures Valid() && line == Press(old(line), scancode) && woken == old(waitingTasks) && waitingTasks == []
    {
      PressKeeps(decoder, line, scancode);
      hide Inv;
      var r := queue.Enqueue(scancode);
      woken := waitingTasks;
      waitingTasks := [];
      line := Press(line, scancode);
    }

    /** `process_scancode` on the oldest pending code. */
    method ProcessNext() returns (augchar: int)
      requires Synced() && queue.fifo != []
      modifies this, queue
      ensures Synced() && augchar == decoder(old(keys), old(line).fifo[0]).1 && line == Consume(decoder, old(line))
    {
      var code := queue.Dequeue();
      line := Consume(decoder, line);
      var (keys', k) := decoder(keys, code);
      keys, augchar := keys', k;
    }

    /** The next character, or -1 with nothing left pending. */
    method ReadCharImpl() returns (c: int)
      requires Valid()
      modifies this, queue
      ensures Valid() && (line, c) == Read(decoder, old(line))
    {
      ghost var was := line;
      ReadKeeps(decoder, line);
      hide Inv;
      if queue.size == 0 {
        return -1;
      }
      var augchar := ProcessNext();
      while !IsChar(augchar)
        invariant Synced()
        invariant Read(decoder, was) == if IsChar(augchar) then (line.(returned := line.returned + [GetChar(augchar)]), GetChar(augchar))
                                        else Read(decoder, line)
        decreases queue.size
      {
        if queue.size == 0 {
          return -1;
        }
        augchar := ProcessNext();
      }
      c := GetChar(augchar);
      line := line.(returned := line.returned + [c]);
    }

    /** One turn of the loop of `read_keyboard_char`: on -1 the reader joins the waiting list. */
    method TryReadChar(reader: Tid) returns (c: int)
      requires Valid()
      modifies this, queue
      ensures Valid() && line == Try(decoder, old(line), reader) && c == Read(decoder, old(line)).1
      ensures waitingTasks == old(waitingTasks) + if c == -1 then [reader] else []
      ensures c == -1 <==> Chars(decoder, old(line).keys, old(line).fifo) == []
    {
      hide Chars, After, Read;
      ReadKeeps(decoder, line);
      ReadFinds(decoder, line);
      c := ReadCharImpl();
      if c == -1 {
        waitingTasks := waitingTasks + [reader];
        line := line.(waiting := line.waiting + [reader]);
      }
    }
  }
}
