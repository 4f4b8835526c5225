/**
 * Driver and controller on one event ring, in any interleaving and over any number of laps.
 * The controller follows section 4.9.4 (Event Ring Management) of the xHCI specification.
 */
module EventSystem {
  import opened Wrappers
  import opened Arithmetic
  import opened Trb
  import opened EventRing

  /** The controller posts an event if the ring has room; the driver polls one event, or publishes its position. */
  datatype Action = Post(event: Raw) | Poll | Publish

  /** `posted`, `taken` and `acked` are history: what was accepted, and how far the driver and its register are. */
  datatype System = System(
    driver: Consumer, enqueue: nat, producerCycle: bool, published: nat,
    posted: seq<Raw>, taken: nat, acked: nat)

  // ---------- The two parties ----------

  /** The ring is full for the controller when its next position is the one the driver published. */
  predicate Full(s: System) { (s.enqueue + 1) % SEGMENT_SIZE == s.published }

  function Write(s: System, event: Raw): System
    requires s.driver.Valid() && s.enqueue < SEGMENT_SIZE
  {
    s.(driver := s.driver.(trbs := s.driver.trbs[s.enqueue := WithCycle(event, s.producerCycle)]),
       enqueue := (s.enqueue + 1) % SEGMENT_SIZE,
       producerCycle := if s.enqueue + 1 == SEGMENT_SIZE then !s.producerCycle else s.producerCycle,
       posted := s.posted + [Payload(event)])
  }

  /** The driver's `dequeue_trb`. */
  function Dequeue(s: System): (System, Option<Raw>)
    requires s.driver.Valid()
  {
    if Ready(s.driver) then
      (s.(driver := Advance(s.driver), taken := s.taken + 1), Some(Payload(s.driver.trbs[s.driver.idx])))
    else
      (s, None)
  }

  function Step(s: System, a: Action): (System, Option<Raw>)
    requires s.driver.Valid() && s.enqueue < SEGMENT_SIZE
  {
    match a
    case Post(event) => (if Full(s) then s else Write(s, event), None)
    case Poll => Dequeue(s)
    case Publish => (s.(published := s.driver.idx, acked := s.taken), None)
  }

  // ---------- The specification: an unbounded queue with a limit on what is unacknowledged ----------

  datatype Fifo = Fifo(queue: seq<Raw>, unacked: nat)

  function FifoStep(f: Fifo, a: Action): (Fifo, Option<Raw>) {
    match a
    case Post(event) =>
      (if |f.queue| + f.unacked == SEGMENT_SIZE - 1 then f else f.(queue := f.queue + [Payload(event)]), None)
    case Poll =>
      if f.queue == [] then (f, None) else (Fifo(f.queue[1..], f.unacked + 1), Some(f.queue[0]))
    case Publish => (f.(unacked := 0), None)
  }

  function Abstract(s: System): Fifo
    requires s.acked <= s.taken <= |s.posted|
  {
    Fifo(s.posted[s.taken..], s.taken - s.acked)
  }

  // ---------- The invariant ----------

  /** The slots hold the last lap of posted events, each stamped with the parity of its lap. */
  ghost predicate Slots(trbs: seq<Raw>, posted: seq<Raw>) {
    && |trbs| == SEGMENT_SIZE
    && (forall j: nat :: j < |posted| <= j + SEGMENT_SIZE ==>
          trbs[j % SEGMENT_SIZE] == WithCycle(posted[j], EvenLap(j)))
    && (forall i :: |posted| <= i < SEGMENT_SIZE ==> !CycleBit(trbs[i]))
  }

  ghost predicate Inv(s: System) {
    && s.acked <= s.taken <= |s.posted| <= s.taken + SEGMENT_SIZE
    && Slots(s.driver.trbs, s.posted)
    && s.driver.idx == s.taken % SEGMENT_SIZE && s.driver.cycle == EvenLap(s.taken)
    && s.enqueue == |s.posted| % SEGMENT_SIZE && s.producerCycle == EvenLap(|s.posted|)
    && s.published == s.acked % SEGMENT_SIZE
  }

  /** What keeps the controller's own fullness test exact. */
  ghost predicate Credit(s: System) { |s.posted| < s.acked + SEGMENT_SIZE }

  lemma NextPosition(n: nat)
    ensures (n + 1) % SEGMENT_SIZE == if n % SEGMENT_SIZE + 1 == SEGMENT_SIZE then 0 else n % SEGMENT_SIZE + 1
    ensures EvenLap(n + 1) == if n % SEGMENT_SIZE + 1 == SEGMENT_SIZE then !EvenLap(n) else EvenLap(n)
    ensures EvenLap(n + SEGMENT_SIZE) == !EvenLap(n) && (n + SEGMENT_SIZE) % SEGMENT_SIZE == n % SEGMENT_SIZE
  {
    var q, r := n / SEGMENT_SIZE, n % SEGMENT_SIZE;
    if r + 1 == SEGMENT_SIZE {
      DivModUnique(n + 1, SEGMENT_SIZE, q + 1, 0);
    } else {
      DivModUnique(n + 1, SEGMENT_SIZE, q, r + 1);
    }
    DivModUnique(n + SEGMENT_SIZE, SEGMENT_SIZE, q + 1, r);
  }

  lemma SlotsDiffer(j: nat, p: nat)
    requires j < p < j + SEGMENT_SIZE
    ensures j % SEGMENT_SIZE != p % SEGMENT_SIZE
  {
    var q, ahead := j / SEGMENT_SIZE, j % SEGMENT_SIZE + (p - j);
    if ahead < SEGMENT_SIZE {
      DivModUnique(p, SEGMENT_SIZE, q, ahead);
    } else {
      DivModUnique(p, SEGMENT_SIZE, q + 1, ahead - SEGMENT_SIZE);
    }
  }

  lemma WriteKeepsSlots(trbs: seq<Raw>, posted: seq<Raw>, event: Raw)
    requires Slots(trbs, posted)
    ensures Slots(trbs[|posted| % SEGMENT_SIZE := WithCycle(event, EvenLap(|posted|))], posted + [Payload(event)])
  {
    var p := |posted|;
    var t, q := trbs[p % SEGMENT_SIZE := WithCycle(event, EvenLap(p))], posted + [Payload(event)];
    StampSets(event, EvenLap(p), false);
    forall j: nat | j < p + 1 <= j + SEGMENT_SIZE
      ensures t[j % SEGMENT_SIZE] == WithCycle(q[j], EvenLap(j))
    {
      if j < p {
        SlotsDiffer(j, p);
        assert trbs[j % SEGMENT_SIZE] == WithCycle(posted[j], EvenLap(j));
      }
    }
  }

  /** The controller may write whenever at most a segment is outstanding: nothing unread is overwritten. */
  lemma WriteKeepsInv(s: System, event: Raw)
    requires Inv(s) && |s.posted| < s.taken + SEGMENT_SIZE
    ensures Inv(Write(s, event))
  {
    WriteKeepsSlots(s.driver.trbs, s.posted, event);
    NextPosition(|s.posted|);
  }

  /** The driver finds an event exactly when one is unread, and it is the oldest. */
  lemma ReadyIsUnread(s: System)
    requires Inv(s)
    ensures Ready(s.driver) <==> s.taken < |s.posted|
    ensures s.taken < |s.posted| ==> s.driver.trbs[s.driver.idx] == WithCycle(s.posted[s.taken], EvenLap(s.taken))
  {
    var c, p := s.taken, |s.posted|;
    if c < p {
      StampSets(s.posted[c], EvenLap(c), false);
    } else if p >= SEGMENT_SIZE {
      var j: nat := p - SEGMENT_SIZE;
      NextPosition(j);
      assert s.driver.trbs[j % SEGMENT_SIZE] == WithCycle(s.posted[j], EvenLap(j));
      StampSets(s.posted[j], EvenLap(j), false);
    } else {
      assert !CycleBit(s.driver.trbs[c]);
    }
  }

  lemma FullIsNoCredit(s: System)
    requires Inv(s) && Credit(s)
    ensures Full(s) <==> |s.posted| - s.acked == SEGMENT_SIZE - 1
  {
    var q, r := s.acked / SEGMENT_SIZE, s.acked % SEGMENT_SIZE;
    var ahead := r + (|s.posted| - s.acked);
    if ahead < SEGMENT_SIZE {
      DivModUnique(|s.posted|, SEGMENT_SIZE, q, ahead);
    } else {
      DivModUnique(|s.posted|, SEGMENT_SIZE, q + 1, ahead - SEGMENT_SIZE);
    }
  }

  /** Posted events never carry a cycle bit of their own. */
  ghost predicate Bare(posted: seq<Raw>) {
    forall i :: 0 <= i < |posted| ==> Payload(posted[i]) == posted[i]
  }

  /** Every reachable state. */
  ghost predicate Sound(s: System) { Inv(s) && Credit(s) && Bare(s.posted) }

  lemma AppendBehind(posted: seq<Raw>, taken: nat, e: Raw)
    requires taken <= |posted|
    ensures (posted + [e])[taken..] == posted[taken..] + [e]
  {
  }

  lemma BareAppend(posted: seq<Raw>, event: Raw)
    requires Bare(posted)
    ensures Bare(posted + [Payload(event)])
  {
    StampSets(event, false, false);
  }

  lemma FreeWriteRefines(s: System, event: Raw)
    requires Inv(s) && Bare(s.posted) && |s.posted| < s.taken + SEGMENT_SIZE
    ensures var t := Write(s, event);
      Inv(t) && Bare(t.posted) && t.posted[t.taken..] == s.posted[s.taken..] + [Payload(event)]
  {
    WriteKeepsInv(s, event);
    BareAppend(s.posted, event);
    AppendBehind(s.posted, s.taken, Payload(event));
  }

  lemma WriteRefines(s: System, event: Raw)
    requires Sound(s) && |s.posted| - s.acked < SEGMENT_SIZE - 1
    ensures var t := Write(s, event); Sound(t) && Abstract(t) == FifoStep(Abstract(s), Post(event)).0
  {
    FreeWriteRefines(s, event);
  }

  lemma PostRefines(s: System, event: Raw)
    requires Sound(s)
    ensures var t := Step(s, Post(event)).0; Sound(t) && Abstract(t) == FifoStep(Abstract(s), Post(event)).0
  {
    FullIsNoCredit(s);
    if !Full(s) { WriteRefines(s, event); }
  }

  lemma PollRefines(s: System)
    requires Sound(s)
    ensures var t := Step(s, Poll).0; Sound(t) && Abstract(t) == FifoStep(Abstract(s), Poll).0
    ensures Step(s, Poll).1 == FifoStep(Abstract(s), Poll).1
  {
    ReadyIsUnread(s);
    NextPosition(s.taken);
    if Ready(s.driver) {
      StampSets(s.posted[s.taken], false, EvenLap(s.taken));
      assert s.posted[s.taken..][1..] == s.posted[s.taken + 1..];
    }
  }

  /** One step of the system is one step of the queue, with the same answer. */
  lemma StepRefines(s: System, a: Action)
    requires Sound(s)
    ensures Sound(Step(s, a).0)
    ensures Abstract(Step(s, a).0) == FifoStep(Abstract(s), a).0 && Step(s, a).1 == FifoStep(Abstract(s), a).1
  {
    match a
    case Post(event) => PostRefines(s, event);
    case Poll => PollRefines(s);
    case Publish =>
  }

  // ---------- Runs ----------

  const BOOT: System := System(Consumer(seq(SEGMENT_SIZE, _ => ZEROED), true, 0), 0, true, 0, [], 0, 0)

  lemma BootHolds()
    ensures Sound(BOOT) && Abstract(BOOT) == Fifo([], 0)
  {
  }

  function FifoOutputs(f: Fifo, actions: seq<Action>): seq<Option<Raw>>
    decreases |actions|
  {
    if actions == [] then []
    else [FifoStep(f, actions[0]).1] + FifoOutputs(FifoStep(f, actions[0]).0, actions[1..])
  }

  function Outputs(s: System, actions: seq<Action>): seq<Option<Raw>>
    requires Sound(s)
    decreases |actions|
  {
    if actions == [] then []
    else
      StepRefines(s, actions[0]);
      [Step(s, actions[0]).1] + Outputs(Step(s, actions[0]).0, actions[1..])
  }

  /** Every interleaving, over any number of laps, answers exactly as the unbounded queue does. */
  lemma {:induction false} RunsRefineFifo(s: System, actions: seq<Action>)
    requires Sound(s)
    ensures Outputs(s, actions) == FifoOutputs(Abstract(s), actions)
    decreases |actions|
  {
    if actions == [] {
    } else {
      StepRefines(s, actions[0]);
      RunsRefineFifo(Step(s, actions[0]).0, actions[1..]);
    }
  }

  // ---------- Any writer that leaves at most a segment unread ----------

  /** `Some(event)`: an event is written unless a whole segment is unread. `None`: the driver polls. */
  function Exchange(s: System, e: Option<Raw>): (System, Option<Raw>)
    requires s.driver.Valid() && s.enqueue < SEGMENT_SIZE
  {
    match e
    case Some(event) => (if |s.posted| < s.taken + SEGMENT_SIZE then Write(s, event) else s, None)
    case None => Dequeue(s)
  }

  function QueueExchange(q: seq<Raw>, e: Option<Raw>): (seq<Raw>, Option<Raw>) {
    match e
    case Some(event) => (if |q| < SEGMENT_SIZE then q + [Payload(event)] else q, None)
    case None => if q == [] then (q, None) else (q[1..], Some(q[0]))
  }

  lemma DequeueRefines(s: System)
    requires Inv(s) && Bare(s.posted)
    ensures var (t, answer) := Dequeue(s);
      && Inv(t) && t.posted == s.posted
      && t.posted[t.taken..] == QueueExchange(s.posted[s.taken..], None).0
      && answer == QueueExchange(s.posted[s.taken..], None).1
  {
    ReadyIsUnread(s);
    NextPosition(s.taken);
    if Ready(s.driver) {
      StampSets(s.posted[s.taken], false, EvenLap(s.taken));
      assert s.posted[s.taken..][1..] == s.posted[s.taken + 1..];
    }
  }

  lemma ExchangeRefines(s: System, e: Option<Raw>)
    requires Inv(s) && Bare(s.posted)
    ensures var (t, answer) := Exchange(s, e);
      && Inv(t) && Bare(t.posted)
      && t.posted[t.taken..] == QueueExchange(s.posted[s.taken..], e).0
      && answer == QueueExchange(s.posted[s.taken..], e).1
  {
    match e
    case Some(event) => if |s.posted| < s.taken + SEGMENT_SIZE { FreeWriteRefines(s, event); }
    case None => DequeueRefines(s);
  }

  function Answers(s: System, es: seq<Option<Raw>>): seq<Option<Raw>>
    requires Inv(s) && Bare(s.posted)
    decreases |es|
  {
    if es == [] then []
    else
      ExchangeRefines(s, es[0]);
      [Exchange(s, es[0]).1] + Answers(Exchange(s, es[0]).0, es[1..])
  }

  function QueueAnswers(q: seq<Raw>, es: seq<Option<Raw>>): seq<Option<Raw>>
    decreases |es|
  {
    if es == [] then [] else [QueueExchange(q, es[0]).1] + QueueAnswers(QueueExchange(q, es[0]).0, es[1..])
  }

  /** Using every slot of the segment is safe too: the driver still sees a queue. */
  lemma {:induction false} SegmentRefinesQueue(s: System, es: seq<Option<Raw>>)
    requires Inv(s) && Bare(s.posted)
    ensures Answers(s, es) == QueueAnswers(s.posted[s.taken..], es)
    decreases |es|
  {
    if es == [] {
    } else {
      ExchangeRefines(s, es[0]);
      SegmentRefinesQueue(Exchange(s, es[0]).0, es[1..]);
    }
  }

  // ---------- Draining ----------

  lemma {:induction false} UnreadArePending(s: System, fuel: nat)
    requires Inv(s) && |s.posted| <= s.taken + fuel
    ensures |PendingUpTo(s.driver, fuel)| == |s.posted| - s.taken
    ensures forall k :: 0 <= k < |s.posted| - s.taken ==>
              PendingUpTo(s.driver, fuel)[k] == WithCycle(s.posted[s.taken + k], EvenLap(s.taken + k))
    decreases fuel
  {
    ReadyIsUnread(s);
    if fuel > 0 && Ready(s.driver) {
      NextPosition(s.taken);
      var t := Dequeue(s).0;
      UnreadArePending(t, fuel - 1);
    }
  }

  /** What a drain of the ring delivers is all unread events, in order. */
  lemma DrainDeliversAll(s: System)
    requires Inv(s)
    ensures |Pending(s.driver)| == |s.posted| - s.taken
    ensures forall k :: 0 <= k < |Pending(s.driver)| ==>
              Pending(s.driver)[k] == WithCycle(s.posted[s.taken + k], EvenLap(s.taken + k))
  {
    UnreadArePending(s, |s.driver.trbs|);
  }
}
