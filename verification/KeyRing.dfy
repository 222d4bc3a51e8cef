/** The key queue between the keyboard interrupt and the main loop, as interleaved steps. */
module KeyRing {
  import opened Machine

  const SIZE := 32

  /** Where keyboard_poll_event stands: before it, after reading the tail, after finding it unlike
      the head, after loading the key, after storing the new tail. */
  datatype Pc = Start | GotTail(t: nat) | NotEmpty | Loaded(key: U16) | Stored(key: U16)

  /** The queue and its two indices, the poller, and the history of keys. */
  datatype State = State(ring: seq<U16>, head: nat, tail: nat, pc: Pc, accepted: seq<U16>, delivered: seq<U16>)

  /** One atomic event: the interrupt handler with a decoded key, or one step of the poller. */
  datatype Event = Interrupt(key: U16) | PollStep

  predicate Shaped(s: State) {
    |s.ring| == SIZE && s.head < SIZE && s.tail < SIZE && (s.pc.GotTail? ==> s.pc.t < SIZE)
  }

  /** The end of keyboard_handle_irq. */
  function Handle(s: State, key: U16): State
    requires Shaped(s)
  {
    var next := (s.head + 1) % SIZE;
    if next == s.tail then s
    else s.(ring := s.ring[s.head := key], head := next, accepted := s.accepted + [key])
  }

  function Poll(s: State): State
    requires Shaped(s)
  {
    match s.pc
    case Start => s.(pc := GotTail(s.tail))
    case GotTail(t) => s.(pc := if t != s.head then NotEmpty else Start)
    case NotEmpty => s.(pc := Loaded(s.ring[s.tail]))
    case Loaded(key) => s.(tail := (s.tail + 1) % SIZE, pc := Stored(key))
    case Stored(key) => s.(delivered := s.delivered + [key], pc := Start)
  }

  function Step(s: State, e: Event): State
    requires Shaped(s)
  {
    match e
    case Interrupt(key) => Handle(s, key)
    case PollStep => Poll(s)
  }

  // ---------- What is in the queue ----------

  function Count(tail: nat, head: nat): (n: nat)
    requires tail < SIZE && head < SIZE
    ensures n < SIZE
  {
    (head - tail) % SIZE
  }

  /** The keys from the tail up to the head. */
  function Pending(ring: seq<U16>, tail: nat, head: nat): (p: seq<U16>)
    requires |ring| == SIZE && tail < SIZE && head < SIZE
    ensures |p| == Count(tail, head)
    decreases Count(tail, head)
  {
    if tail == head then [] else [ring[tail]] + Pending(ring, (tail + 1) % SIZE, head)
  }

  lemma IndexSteps(tail: nat, head: nat)
    requires tail < SIZE && head < SIZE
    ensures var next, after := (head + 1) % SIZE, (tail + 1) % SIZE;
      next < SIZE && after < SIZE && (tail != head ==> next != after && Count(after, head) == Count(tail, head) - 1)
  {
  }

  lemma {:induction false} PendingPut(ring: seq<U16>, tail: nat, head: nat, key: U16)
    requires |ring| == SIZE && tail < SIZE && head < SIZE && (head + 1) % SIZE != tail
    ensures Pending(ring[head := key], tail, (head + 1) % SIZE) == Pending(ring, tail, head) + [key]
    decreases Count(tail, head)
  {
    var next, after := (head + 1) % SIZE, (tail + 1) % SIZE;
    IndexSteps(tail, head);
    if tail == head {
      assert Pending(ring[head := key], next, next) == [];
    } else {
      hide Count;
      PendingPut(ring, after, head, key);
      assert Pending(ring[head := key], tail, next) == [ring[tail]] + Pending(ring[head := key], after, next);
    }
  }

  function Waiting(s: State): seq<U16>
    requires Shaped(s)
  {
    Pending(s.ring, s.tail, s.head)
  }

  /** The key the poller has taken out of the queue and not yet delivered. */
  function InFlight(s: State): seq<U16> {
    if s.pc.Stored? then [s.pc.key] else []
  }

  /** Every accepted key is delivered, in flight or waiting, in this order; and what the poller
      remembers is still so. */
  predicate Inv(s: State) {
    && Shaped(s)
    && s.accepted == s.delivered + InFlight(s) + Waiting(s)
    && (s.pc.GotTail? ==> s.pc.t == s.tail)
    && (s.pc.NotEmpty? ==> Waiting(s) != [])
    && (s.pc.Loaded? ==> Waiting(s) != [] && s.pc.key == Waiting(s)[0])
  }

  function Initial(ring: seq<U16>): State {
    State(ring, 0, 0, Start, [], [])
  }

  lemma InitialInv(ring: seq<U16>)
    requires |ring| == SIZE
    ensures Inv(Initial(ring))
  {
  }

  lemma NextIsTail(tail: nat, head: nat)
    requires tail < SIZE && head < SIZE
    ensures (head + 1) % SIZE == tail <==> Count(tail, head) == SIZE - 1
  {
  }

  /** What waits first still does after another key. */
  lemma NonemptyStays(ring: seq<U16>, tail: nat, head: nat, key: U16)
    requires |ring| == SIZE && tail < SIZE && head < SIZE && (head + 1) % SIZE != tail
    ensures var p, q := Pending(ring, tail, head), Pending(ring[head := key], tail, (head + 1) % SIZE);
      p != [] ==> q != [] && q[0] == p[0]
  {
    hide Pending;
    PendingPut(ring, tail, head, key);
  }

  lemma HandleKeeps(s: State, key: U16)
    requires Inv(s)
    ensures Inv(Handle(s, key)) && |Waiting(s)| <= SIZE - 1
    ensures (s.head + 1) % SIZE == s.tail <==> |Waiting(s)| == SIZE - 1
    ensures |Waiting(s)| < SIZE - 1 ==> Waiting(Handle(s, key)) == Waiting(s) + [key]
  {
    hide Pending;
    NextIsTail(s.tail, s.head);
    if (s.head + 1) % SIZE != s.tail {
      PendingPut(s.ring, s.tail, s.head, key);
      NonemptyStays(s.ring, s.tail, s.head, key);
      var d := s.delivered + InFlight(s);
      assert d + Waiting(s) + [key] == d + (Waiting(s) + [key]);
    }
  }

  lemma PollKeeps(s: State)
    requires Inv(s)
    ensures Inv(Poll(s))
  {
    match s.pc
    case Loaded(key) =>
      var rest := Pending(s.ring, (s.tail + 1) % SIZE, s.head);
      assert Waiting(s) == [key] + rest;
      assert s.delivered + [] + ([key] + rest) == s.delivered + [key] + rest;
    case Stored(key) =>
      assert s.delivered + [key] + [] == s.delivered + [key];
    case _ =>
  }

  lemma StepKeeps(s: State, e: Event)
    requires Inv(s)
    ensures Inv(Step(s, e))
  {
    match e
    case Interrupt(key) => HandleKeeps(s, key);
    case PollStep => PollKeeps(s);
  }

  lemma StepShaped(s: State, e: Event)
    requires Shaped(s)
    ensures Shaped(Step(s, e))
  {
  }

  function Run(s: State, es: seq<Event>): (d: State)
    requires Shaped(s)
    ensures Shaped(d)
    decreases |es|
  {
    if es == [] then s else StepShaped(s, es[0]); Run(Step(s, es[0]), es[1..])
  }

  lemma {:induction false} RunKeeps(s: State, es: seq<Event>)
    requires Inv(s)
    ensures Inv(Run(s, es))
    decreases |es|
  {
    hide Step;
    if es != [] {
      StepKeeps(s, es[0]);
      RunKeeps(Step(s, es[0]), es[1..]);
    }
  }

  /** Whenever interrupts strike between the poller's steps: delivered keys are a prefix of accepted
      ones, at most 31 wait, and an interrupt drops its key exactly when 31 wait. */
  lemma KeysInOrder(ring: seq<U16>, es: seq<Event>, key: U16)
    requires |ring| == SIZE
    ensures Inv(Initial(ring))
    ensures var s := Run(Initial(ring), es);
      && s.delivered <= s.accepted
      && |s.accepted| - |s.delivered| == |InFlight(s)| + |Waiting(s)|
      && |Waiting(s)| <= SIZE - 1
      && (Handle(s, key) == s <==> |Waiting(s)| == SIZE - 1)
      && (|Waiting(s)| < SIZE - 1 ==> Handle(s, key).accepted == s.accepted + [key])
  {
    hide Run, Waiting;
    InitialInv(ring);
    RunKeeps(Initial(ring), es);
    HandleKeeps(Run(Initial(ring), es), key);
  }

  // ---------- A poll delivers ----------

  function PollSteps(es: seq<Event>): nat {
    if es == [] then 0 else (if es[0].PollStep? then 1 else 0) + PollSteps(es[1..])
  }

  /** The poller's steps still to come in this poll. */
  function StepsLeft(pc: Pc): nat {
    match pc
    case Start => 5
    case GotTail(_) => 4
    case NotEmpty => 3
    case Loaded(_) => 2
    case Stored(_) => 1
  }

  /** A poll under way that will deliver `first`. */
  predicate Serving(s: State, first: U16) {
    && Inv(s)
    && match s.pc
       case Loaded(key) => key == first
       case Stored(key) => key == first
       case _ => Waiting(s) != [] && Waiting(s)[0] == first
  }

  lemma ServingStep(s: State, e: Event, first: U16)
    requires Serving(s, first)
    ensures var d := Step(s, e);
      if e.Interrupt? then Serving(d, first) && d.pc == s.pc && d.delivered == s.delivered
      else if s.pc.Stored? then Inv(d) && d.pc.Start? && d.delivered == s.delivered + [first]
      else Serving(d, first) && StepsLeft(d.pc) == StepsLeft(s.pc) - 1 && d.delivered == s.delivered
  {
    StepKeeps(s, e);
    if e.Interrupt? {
      HandleKeeps(s, e.key);
    }
  }

  lemma {:induction false} PollDelivers(s: State, es: seq<Event>, first: U16)
    requires Serving(s, first) && es != [] && es[|es| - 1].PollStep? && PollSteps(es) == StepsLeft(s.pc)
    ensures Run(s, es).delivered == s.delivered + [first] && Run(s, es).pc.Start?
    decreases |es|
  {
    hide Inv, Step;
    ServingInv(s, first);
    ServingStep(s, es[0], first);
    var d := Step(s, es[0]);
    if |es| == 1 {
      assert PollSteps(es[1..]) == 0;
      RunNothing(d);
    } else if es[0].PollStep? && s.pc.Stored? {
      LastCounts(es[1..]);
      assert false;
    } else {
      PollDelivers(d, es[1..], first);
    }
  }

  lemma ServingInv(s: State, first: U16)
    requires Serving(s, first)
    ensures Inv(s) && Shaped(s)
  {
  }

  lemma RunNothing(s: State)
    requires Inv(s)
    ensures Run(s, []) == s
  {
  }

  lemma {:induction false} LastCounts(es: seq<Event>)
    requires es != [] && es[|es| - 1].PollStep?
    ensures PollSteps(es) > 0
  {
    if |es| > 1 {
      LastCounts(es[1..]);
    }
  }

  /** A poll begun with keys waiting delivers the oldest, wherever interrupts strike. */
  lemma PollDeliversOldest(s: State, es: seq<Event>)
    requires Inv(s) && s.pc.Start? && Waiting(s) != []
    requires es != [] && es[|es| - 1].PollStep? && PollSteps(es) == 5
    ensures Run(s, es).delivered == s.delivered + [Waiting(s)[0]]
  {
    PollDelivers(s, es, Waiting(s)[0]);
  }

  // ---------- The queue in memory ----------

  /** key_queue, key_queue_head and key_queue_tail. */
  class KeyQueue {
    const queue: array<U16>
    var head: nat
    var tail: nat
    ghost var accepted: seq<U16>
    ghost var delivered: seq<U16>

    constructor ()
      ensures Valid() && Inv(View()) && View().accepted == [] && View().delivered == []
    {
      queue := new U16[SIZE](_ => 0);
      head, tail, accepted, delivered := 0, 0, [], [];
    }

    ghost predicate Valid()
      reads this, queue
    {
      queue.Length == SIZE && Inv(View())
    }

    /** The queue between polls. */
    ghost function View(): State
      reads this, queue
    {
      State(queue[..], head, tail, Start, accepted, delivered)
    }

    /** The end of keyboard_handle_irq. */
    method Push(key: U16)
      requires Valid()
      modifies this, queue
      ensures Valid() && View() == Handle(old(View()), key)
    {
      HandleKeeps(View(), key);
      var next := (head + 1) % SIZE;
      if next == tail {
        return;
      }
      queue[head] := key;
      head := next;
      accepted := accepted + [key];
    }

    /** keyboard_poll_event without interruption; the key it passes on, if any. */
    method PollEvent() returns (event: Option<U16>)
      requires Valid()
      modifies this
      ensures Valid()
      ensures View().delivered == old(View().delivered) + (if event.Some? then [event.value] else [])
      ensures View().accepted == old(View().accepted)
      ensures var w := old(Waiting(View()));
        event == (if w == [] then None else Some(w[0])) && Waiting(View()) == if w == [] then [] else w[1..]
    {
      event := None;
      if tail != head {
        var key := queue[tail];
        ghost var w := Waiting(View());
        assert w == [key] + w[1..];
        assert delivered + [] + w == delivered + [key] + [] + w[1..];
        tail := (tail + 1) % SIZE;
        delivered := delivered + [key];
        event := Some(key);
      }
    }
  }
}
