/** The keyboard ring of kernel/tty.c: an interrupt handler that stores scancodes and a reader that
    it can interrupt between any two steps. */
module Keyboard {
  import opened Words

  const RING := 16                  // KEY_BUFFER_SIZE

  /** Where `in_scancode` is: about to compare the indices, found a code, wrapped the head, or
      holding the code it read. */
  datatype Reader = Idle | Found | Wrapped | Holding(code: Byte)

  /** The shared variables, the reader's progress, and all codes stored and returned so far. */
  datatype State = State(
    head: nat, tail: nat, ring: seq<Byte>, reader: Reader, stored: seq<Byte>, taken: seq<Byte>)

  datatype Event = Interrupt(code: Byte) | ReaderStep

  /** `keyboard_int_handler`, which runs with interrupts off. */
  function HandleKey(s: State, code: Byte): State
    requires |s.ring| == RING && s.tail <= RING
  {
    var tail := (if s.tail >= RING then 0 else s.tail) + 1;
    s.(tail := tail, ring := s.ring[tail - 1 := code], stored := s.stored + [code])
  }

  /** One step of `in_scancode`. Finding the indices equal ends the call with answer 0. */
  function Read(s: State): State
    requires |s.ring| == RING && (s.reader.Wrapped? ==> s.head < RING)
  {
    match s.reader
    case Idle => if s.head != s.tail then s.(reader := Found) else s
    case Found => s.(head := if s.head >= RING then 0 else s.head, reader := Wrapped)
    case Wrapped => s.(reader := Holding(s.ring[s.head]))
    case Holding(code) => s.(head := s.head + 1, reader := Idle, taken := s.taken + [code])
  }

  /** The index that has moved `n` times: 0 at first, then 1..16 round and round. */
  function Moved(n: nat): nat { if n == 0 then 0 else (n - 1) % RING + 1 }

  ghost function Unread(s: State): int { |s.stored| - |s.taken| }

  /** The variables are in range, so that every event can happen. */
  ghost predicate Shape(s: State) {
    |s.ring| == RING && s.tail <= RING && (s.reader.Wrapped? ==> s.head < RING)
  }

  /** The codes taken are the first codes stored, in order, and the ring holds the rest, which may
      fill it. */
  ghost predicate Inv(s: State): (inv: bool)
    ensures inv ==> Shape(s)
  {
    && |s.ring| == RING
    && 0 <= Unread(s) <= RING
    && s.tail == Moved(|s.stored|)
    && s.head == (if s.reader.Wrapped? || s.reader.Holding? then |s.taken| % RING else Moved(|s.taken|))
    && s.taken == s.stored[..|s.taken|]
    && (forall k | |s.taken| <= k < |s.stored| :: s.ring[k % RING] == s.stored[k])
    && (!s.reader.Idle? ==> 0 < Unread(s))
    && (s.reader.Holding? ==> s.reader.code == s.stored[|s.taken|])
  }

  /** The state before any key: both indices 0, contents of the ring arbitrary. */
  ghost predicate Start(s: State) {
    |s.ring| == RING && s.head == 0 && s.tail == 0 && s.reader.Idle? && s.stored == [] && s.taken == []
  }

  lemma StartInv(s: State)
    requires Start(s)
    ensures Inv(s)
  {}

  lemma InterruptKeepsInv(s: State, code: Byte)
    requires Inv(s) && Unread(s) < RING
    ensures Inv(HandleKey(s, code))
  {
    hide Moved;
    MovedOnce(|s.stored|);
    var s' := HandleKey(s, code);
    forall k | |s'.taken| <= k < |s'.stored| ensures s'.ring[k % RING] == s'.stored[k] {
      if k < |s.stored| { SlotsDiffer(k, |s.stored|); }
    }
  }

  /** The handler's index arithmetic: the code stored `n`-th goes to slot `n` modulo 16. */
  lemma MovedOnce(n: nat)
    ensures Moved(n + 1) == (if Moved(n) >= RING then 0 else Moved(n)) + 1 == n % RING + 1
    ensures Moved(n) <= RING
  {}

  lemma SlotsDiffer(j: nat, k: nat)
    requires j < k < j + RING
    ensures j % RING != k % RING
  {}

  lemma ReadKeepsInv(s: State)
    requires Inv(s)
    ensures Inv(Read(s))
  {
    if s.reader.Idle? { EmptyTest(s); }
  }

  /** What the comparison of the indices takes for an empty ring: a full one, too, once anything
      was ever read. */
  ghost predicate LooksEmpty(s: State) {
    Unread(s) == 0 || (Unread(s) == RING && 0 < |s.taken|)
  }

  /** The indices compare equal exactly when the ring looks empty. */
  lemma EmptyTest(s: State)
    requires Inv(s) && s.reader.Idle?
    ensures s.head == s.tail <==> LooksEmpty(s)
  {
    IndicesMeet(|s.taken|, |s.stored|);
  }

  lemma IndicesMeet(taken: nat, stored: nat)
    requires taken <= stored <= taken + RING
    ensures Moved(taken) == Moved(stored) <==> stored == taken || (stored == taken + RING && 0 < taken)
  {}

  // ----- runs

  ghost function Next(s: State, event: Event): (s': State)
    requires Shape(s)
    ensures Shape(s')
  {
    match event case Interrupt(code) => HandleKey(s, code) case ReaderStep => Read(s)
  }

  ghost function After(s: State, events: seq<Event>): State
    requires Shape(s)
    decreases |events|
  {
    if events == [] then s else After(Next(s, events[0]), events[1..])
  }

  /** The run never holds more than `limit` unread codes. */
  ghost predicate NeverMore(s: State, events: seq<Event>, limit: nat)
    requires Shape(s)
  {
    forall n | 0 <= n <= |events| :: Unread(After(s, events[..n])) <= limit
  }

  /** The codes of the interrupts, in order. */
  ghost function Codes(events: seq<Event>): seq<Byte> {
    if events == [] then [] else (if events[0].Interrupt? then [events[0].code] else []) + Codes(events[1..])
  }

  lemma NextKeepsInv(s: State, event: Event)
    requires Inv(s) && Unread(Next(s, event)) <= RING
    ensures Inv(Next(s, event))
    ensures Next(s, event).stored == s.stored + if event.Interrupt? then [event.code] else []
  {
    hide Moved;
    if event.Interrupt? {
      assert |Next(s, event).stored| == |s.stored| + 1;
      InterruptKeepsInv(s, event.code);
    } else {
      ReadKeepsInv(s);
    }
  }

  lemma RestNeverMore(s: State, events: seq<Event>, limit: nat)
    requires Shape(s) && events != [] && NeverMore(s, events, limit)
    ensures Unread(Next(s, events[0])) <= limit && NeverMore(Next(s, events[0]), events[1..], limit)
  {
    hide Next, Unread;
    var s' := Next(s, events[0]);
    assert events[..1][1..] == [] && events[..1][0] == events[0];
    assert After(s, events[..1]) == After(s', []) == s';
    forall n | 0 <= n <= |events[1..]| ensures Unread(After(s', events[1..][..n])) <= limit {
      assert events[..n + 1][1..] == events[1..][..n] && events[..n + 1][0] == events[0];
      assert After(s, events[..n + 1]) == After(s', events[1..][..n]);
    }
  }

  lemma {:induction false} RunKeepsInv(s: State, events: seq<Event>)
    requires Inv(s) && NeverMore(s, events, RING)
    ensures Inv(After(s, events)) && After(s, events).stored == s.stored + Codes(events)
    decreases |events|
  {
    hide Inv, Next, Unread, NeverMore;
    if events != [] {
      RestNeverMore(s, events, RING);
      NextKeepsInv(s, events[0]);
      RunKeepsInv(Next(s, events[0]), events[1..]);
    }
  }

  /** In every interleaving that never holds more than 16 unread codes, the reader has taken
      exactly the first codes stored: each once, in order. With at most 15 it also sees every one. */
  lemma EachCodeOnceInOrder(s: State, events: seq<Event>, limit: nat)
    requires Inv(s) && NeverMore(s, events, limit) && limit <= RING
    ensures var s' := After(s, events);
            && Inv(s') && s'.stored == s.stored + Codes(events)
            && s'.taken == (s.stored + Codes(events))[..|s'.taken|]
            && (limit < RING && s'.reader.Idle? ==> (s'.head == s'.tail <==> s'.taken == s'.stored))
  {
    hide Next, HandleKey, Read, Moved;
    RunKeepsInv(s, events);
    var s' := After(s, events);
    assert events[..|events|] == events;
    if s'.reader.Idle? { EmptyTest(s'); }
  }

  /** A whole call of `in_scancode`: four steps. */
  ghost function Call(s: State): State
    requires Inv(s)
    ensures Inv(Call(s))
  {
    ReadKeepsInv(s);
    ReadKeepsInv(Read(s));
    ReadKeepsInv(Read(Read(s)));
    ReadKeepsInv(Read(Read(Read(s))));
    Read(Read(Read(Read(s))))
  }

  /** The codes that `calls` calls take with no interrupt in between. */
  ghost function Calls(s: State, calls: nat): State
    requires Inv(s)
    ensures Inv(Calls(s, calls))
    decreases calls
  {
    if calls == 0 then s else Calls(Call(s), calls - 1)
  }

  lemma OneCall(s: State)
    requires Inv(s) && s.reader.Idle?
    ensures s.taken == s.stored || 0 < Unread(s) <= RING
    ensures LooksEmpty(s) ==> Call(s) == s
    ensures !LooksEmpty(s) ==>
              var s' := Call(s);
              s'.reader.Idle? && s'.stored == s.stored && s'.taken == s.taken + [s.stored[|s.taken|]]
  {
    EmptyTest(s);
  }

  /** Calls without an interrupt read on until nothing is unread, but never touch a ring that is
      full and was read before. */
  lemma {:induction false} ReadToTheEnd(s: State, calls: nat)
    requires Inv(s) && s.reader.Idle? && (LooksEmpty(s) || Unread(s) <= calls)
    ensures if LooksEmpty(s) then Calls(s, calls) == s else Calls(s, calls).taken == s.stored
    decreases calls
  {
    hide Inv, Call;
    OneCall(s);
    if calls > 0 {
      OneCall(Call(s));
      ReadToTheEnd(Call(s), calls - 1);
    }
  }

  lemma FullIndices(s: State)
    requires Inv(s) && s.reader.Idle? && Unread(s) == RING
    ensures var slot := |s.taken| % RING;
            && (if s.tail >= RING then 0 else s.tail) == slot
            && s.taken == s.stored[..|s.taken|] && s.head != slot + 1 && (if s.head >= RING then 0 else s.head) == slot
  {
    hide Moved;
    MovedOnce(|s.stored|);
    MovedOnce(|s.taken|);
  }

  /** An interrupt into a full ring overwrites the oldest unread code. The next four steps take the
      new code in its place, so the order is lost unless the two are equal. */
  lemma OverrunLosesOldest(s: State, code: Byte)
    requires Inv(s) && s.reader.Idle? && Unread(s) == RING
    ensures var s' := Read(Read(Read(Read(HandleKey(s, code)))));
            && s'.taken == s.taken + [code]
            && (s'.taken == s'.stored[..|s'.taken|] <==> code == s.stored[|s.taken|])
  {
    hide Inv, Moved;
    FullIndices(s);
    var s' := Read(Read(Read(Read(HandleKey(s, code)))));
    assert s'.stored[..|s'.taken|] == s.taken + [s.stored[|s.taken|]];
    assert (s.taken + [code])[|s.taken|] == code;
  }

  // ----- the same variables, updated in place

  class KeyBuffer {
    const ring: array<Byte>         // key_buffer
    var head: nat                   // key_buffer_head
    var tail: nat                   // key_buffer_tail
    ghost var stored: seq<Byte>
    ghost var taken: seq<Byte>

    ghost function Now(): State
      reads this, ring
    {
      State(head, tail, ring[..], Idle, stored, taken)
    }

    constructor ()
      ensures Start(Now()) && fresh(ring)
    {
      ring := new Byte[16];
      head, tail, stored, taken := 0, 0, [], [];
    }

    /** With room left, the code joins the unread ones behind all the others. */
    method KeyboardIntHandler(code: Byte)
      requires ring.Length == RING && tail <= RING
      modifies this`tail, this`stored, ring
      ensures Now() == HandleKey(old(Now()), code)
      ensures old(Inv(Now()) && Unread(Now()) < RING) ==>
                Inv(Now()) && stored == old(stored) + [code] && taken == old(taken)
    {
      ghost var was := Now();
      if Inv(was) && Unread(was) < RING {
        InterruptKeepsInv(was, code);
      }
      if tail >= RING {
        tail := 0;
      }
      tail := tail + 1;
      ring[tail - 1] := code;
      stored := stored + [code];
      assert Now() == HandleKey(was, code);
    }

    /** `in_scancode` with no interrupt during the call: the oldest unread code, or 0 when the ring
        looks empty. */
    method InScancode() returns (result: Byte)
      requires Inv(Now())
      modifies this`head, this`taken
      ensures Inv(Now())
      ensures old(LooksEmpty(Now())) ==> result == 0 && Now() == old(Now())
      ensures old(!LooksEmpty(Now())) ==> result == stored[|old(taken)|] && taken == old(taken) + [result]
      ensures Now() == Call(old(Now()))
    {
      EmptyTest(Now());
      OneCall(Now());
      if head != tail {
        if head >= RING {
          head := 0;
        }
        result := ring[head];
        head := head + 1;
        taken := taken + [result];
      } else {
        result := 0;
      }
    }
  }
}
