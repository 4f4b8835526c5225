/**
 * Driver and controller on the command ring, over any number of laps. The controller follows
 * section 4.9.3 (Command Ring Management) of the xHCI specification: it executes blocks whose
 * cycle bit is its own cycle state, and follows a link block with the toggle bit to the next lap.
 */
module CommandSystem {
  import opened Trb
  import opened CommandRing

  /** The driver stages a command, copies one staged slot, or flips the ring; the controller fetches. */
  datatype Action = Stage(command: XhciTrb) | Copy(slot: nat) | FlipRing | Fetch

  /** `added` and `executed` are history; commands appear in them without their cycle bits. */
  datatype System = System(
    driver: Producer, position: nat, cycleState: bool, lap: nat, added: seq<Raw>, executed: seq<Raw>)

  /** A block the controller executes rather than follows. */
  predicate Command(t: XhciTrb) { t.Normal? && TrbType(t.normal) != LINK_TYPE }

  /** The controller has followed this lap's link and waits at the start for the next lap. */
  predicate LinkTaken(s: System) { s.position == 0 && s.cycleState != s.driver.cycle }

  function FetchStep(s: System): (t: System)
    requires s.driver.Valid() && s.position <= LINK_SLOT
    ensures t.driver == s.driver && t.position <= LINK_SLOT
  {
    var r := s.driver.trbs[s.position];
    if CycleBit(r) != s.cycleState then s
    else if TrbType(r) == LINK_TYPE then
      s.(position := 0, cycleState := if ToggleBit(r) then !s.cycleState else s.cycleState)
    else
      s.(position := if s.position == LINK_SLOT then LINK_SLOT else s.position + 1, executed := s.executed + [Payload(r)])
  }

  function StageStep(s: System, t: XhciTrb): (u: System)
    requires s.driver.Valid() && s.driver.idx < LINK_SLOT
    ensures u.driver.Valid()
  {
    s.(driver := Add(s.driver, t), added := s.added + [Payload(ToUnion(t))])
  }

  function FlipStep(s: System): (t: System)
    requires s.driver.Valid()
    ensures t.driver.Valid()
  {
    s.(driver := Flip(s.driver), lap := s.lap + 1)
  }

  /** A full ring refuses a command, only staged slots are copied, and the ring is flipped once its link is taken. */
  function Step(s: System, a: Action): (t: System)
    requires s.driver.Valid() && s.position <= LINK_SLOT
    ensures t.driver.Valid() && t.position <= LINK_SLOT
  {
    match a
    case Stage(t) => if s.driver.idx < LINK_SLOT && Command(t) then StageStep(s, t) else s
    case Copy(i) => if i <= s.driver.idx then s.(driver := CopySlot(s.driver, i)) else s
    case FlipRing => if LinkTaken(s) then FlipStep(s) else s
    case Fetch => FetchStep(s)
  }

  // ---------- The invariant ----------

  /** How far the controller is in the driver's current lap; the whole lap once it has taken the link. */
  function Progress(s: System): nat { if LinkTaken(s) then LINK_SLOT else s.position }

  /** The staging area: this lap's commands stamped with its cycle, then empty blocks of the other cycle, then the link. */
  ghost predicate Staged(p: Producer, added: seq<Raw>, first: nat) {
    && p.Valid() && |added| == first + p.idx
    && (forall i :: 0 <= i < p.idx ==>
          p.staging[i].Normal? && ToUnion(p.staging[i]) == WithCycle(added[first + i], p.cycle))
    && (forall i :: p.idx <= i < LINK_SLOT ==> p.staging[i] == Empty(!p.cycle))
    && p.staging[LINK_SLOT] == Link(LinkRaw(p.base, p.cycle))
  }

  /** What the controller sees: a slot is stale, or holds this lap's command; the slots it has passed are not stale. */
  ghost predicate Visible(p: Producer, added: seq<Raw>, first: nat, progress: nat)
    requires p.Valid()
  {
    && p.trbs[LINK_SLOT] == LinkRaw(p.base, p.cycle)
    && (forall i :: 0 <= i < LINK_SLOT && CycleBit(p.trbs[i]) == p.cycle ==>
          i < p.idx && first + i < |added| && p.trbs[i] == WithCycle(added[first + i], p.cycle))
    && (forall i :: 0 <= i < progress && i < LINK_SLOT ==> CycleBit(p.trbs[i]) == p.cycle)
  }

  ghost predicate Commands(added: seq<Raw>) {
    forall i :: 0 <= i < |added| ==> TrbType(added[i]) != LINK_TYPE && Payload(added[i]) == added[i]
  }

  ghost predicate Inv(s: System) {
    && s.position <= LINK_SLOT && (s.cycleState == s.driver.cycle || s.position == 0)
    && s.driver.cycle == (s.lap % 2 == 0)
    && Staged(s.driver, s.added, s.lap * LINK_SLOT)
    && Visible(s.driver, s.added, s.lap * LINK_SLOT, Progress(s))
    && Commands(s.added)
    && |s.executed| == s.lap * LINK_SLOT + Progress(s)
    && s.executed <= s.added
  }

  // ---------- Steps ----------

  lemma StageKeepsInv(s: System, t: XhciTrb)
    requires Inv(s) && s.driver.idx < LINK_SLOT && Command(t)
    ensures Inv(StageStep(s, t))
  {
    var r := ToUnion(t);
    StampedUnion(t, s.driver.cycle);
    StampSets(r, s.driver.cycle, false);
    StampSets(r, false, false);
  }

  lemma CopyKeepsInv(s: System, i: nat)
    requires Inv(s) && i <= s.driver.idx
    ensures Inv(s.(driver := CopySlot(s.driver, i)))
  {
    var p, first := s.driver, s.lap * LINK_SLOT;
    if i < p.idx {
      StampSets(s.added[first + i], p.cycle, false);
    } else if i < LINK_SLOT {
      StampSets(ZEROED, !p.cycle, false);
    } else {
      LinkRawFields(p.base, p.cycle);
    }
  }

  /** The controller executes the next command of the driver's sequence, follows the link, or waits. */
  lemma FetchKeepsInv(s: System)
    requires Inv(s)
    ensures var t := FetchStep(s);
      && Inv(t)
      && (t == s || t == s.(position := 0, cycleState := !s.cycleState)
          || (|s.executed| < |s.added| && t.executed == s.executed + [s.added[|s.executed|]]))
  {
    var p, first := s.driver, s.lap * LINK_SLOT;
    var r := p.trbs[s.position];
    LinkRawFields(p.base, p.cycle);
    if CycleBit(r) == s.cycleState {
      if s.position < LINK_SLOT {
        var c := s.added[first + s.position];
        StampSets(c, p.cycle, false);
        StampSets(c, false, p.cycle);
      }
    }
  }

  lemma FlipKeepsInv(s: System)
    requires Inv(s) && LinkTaken(s)
    ensures Inv(FlipStep(s))
  {
    var p := s.driver;
    StampSets(ZEROED, p.cycle, false);
    LinkRawFields(p.base, !p.cycle);
    assert s.driver.idx == LINK_SLOT by {
      assert CycleBit(p.trbs[LINK_SLOT - 1]) == p.cycle;
    }
  }

  lemma StepKeepsInv(s: System, a: Action)
    requires Inv(s)
    ensures Inv(Step(s, a))
  {
    match a
    case Stage(t) => if s.driver.idx < LINK_SLOT && Command(t) { StageKeepsInv(s, t); }
    case Copy(i) => if i <= s.driver.idx { CopyKeepsInv(s, i); }
    case FlipRing => if LinkTaken(s) { FlipKeepsInv(s); }
    case Fetch => FetchKeepsInv(s);
  }

  // ---------- Runs ----------

  function Boot(base: nat): System { System(Init(base), 0, true, 0, [], []) }

  lemma BootHolds(base: nat)
    ensures Inv(Boot(base))
  {
    LinkRawFields(base, true);
  }

  function Run(s: System, actions: seq<Action>): (t: System)
    requires s.driver.Valid() && s.position <= LINK_SLOT
    ensures t.driver.Valid() && t.position <= LINK_SLOT
    decreases |actions|
  {
    if actions == [] then s else Run(Step(s, actions[0]), actions[1..])
  }

  /** What is added or executed once stays so: the two histories only ever grow at the end. */
  lemma StepExtendsHistory(s: System, a: Action)
    requires Inv(s)
    ensures s.added <= Step(s, a).added && s.executed <= Step(s, a).executed
  {
  }

  lemma {:induction false} RunKeepsInv(s: System, actions: seq<Action>)
    requires Inv(s)
    ensures Inv(Run(s, actions))
    ensures s.added <= Run(s, actions).added && s.executed <= Run(s, actions).executed
    decreases |actions|
  {
    if actions == [] {
    } else {
      StepKeepsInv(s, actions[0]);
      StepExtendsHistory(s, actions[0]);
      RunKeepsInv(Step(s, actions[0]), actions[1..]);
    }
  }

  /**
   * Over every interleaving and any number of laps, what is executed is a prefix of what was added,
   * and going on only extends both.
   */
  lemma ExecutedIsPrefixOfAdded(base: nat, actions: seq<Action>, more: seq<Action>)
    ensures Inv(Boot(base)) && Inv(Run(Boot(base), actions))
    ensures var s := Run(Boot(base), actions);
      var t := Run(s, more);
      s.executed <= s.added && s.executed <= t.executed && s.added <= t.added && t.executed <= t.added
  {
    BootHolds(base);
    RunKeepsInv(Boot(base), actions);
    RunKeepsInv(Run(Boot(base), actions), more);
  }

  /** Everything staged is copied, and the controller waits. */
  ghost predicate Settled(s: System)
    requires s.driver.Valid() && s.position <= LINK_SLOT
  {
    && FetchStep(s) == s
    && forall i :: 0 <= i < s.driver.idx ==> s.driver.trbs[i] == ToUnion(s.driver.staging[i])
  }

  /** Nothing is skipped: once everything staged is copied and the controller waits, all commands are executed. */
  lemma IdleMeansDone(s: System)
    requires Inv(s) && Settled(s)
    ensures s.executed == s.added
  {
    var p, first := s.driver, s.lap * LINK_SLOT;
    LinkRawFields(p.base, p.cycle);
    if s.position < p.idx {
      StampSets(s.added[first + s.position], p.cycle, false);
    }
    if LinkTaken(s) {
      assert CycleBit(p.trbs[LINK_SLOT - 1]) == p.cycle;
    }
  }

  /** A submission is a run of copies, so a controller fetching in between finds the invariant intact. */
  lemma {:induction false} SubmitKeepsInv(s: System, n: nat)
    requires Inv(s) && n <= s.driver.idx + 1
    ensures Inv(s.(driver := CopySlots(s.driver, n)))
    decreases n
  {
    if n == 0 {
    } else {
      SubmitKeepsInv(s, n - 1);
      CopyKeepsInv(s.(driver := CopySlots(s.driver, n - 1)), n - 1);
    }
  }

  lemma {:induction false} RunConcat(s: System, a: seq<Action>, b: seq<Action>)
    requires s.driver.Valid() && s.position <= LINK_SLOT
    ensures Run(s, a + b) == Run(Run(s, a), b)
    decreases |a|
  {
    if a == [] {
      assert a + b == b;
    } else {
      assert (a + b)[1..] == a[1..] + b;
      RunConcat(Step(s, a[0]), a[1..], b);
    }
  }

  function Copies(n: nat): seq<Action> { seq(n, i requires 0 <= i < n => Copy(i)) }

  lemma {:induction false} CopiesRun(s: System, n: nat)
    requires s.driver.Valid() && s.position <= LINK_SLOT && n <= s.driver.idx + 1
    ensures Run(s, Copies(n)) == s.(driver := CopySlots(s.driver, n))
    decreases n
  {
    if n == 0 {
    } else {
      assert Copies(n) == Copies(n - 1) + [Copy(n - 1)];
      CopiesRun(s, n - 1);
      RunConcat(s, Copies(n - 1), [Copy(n - 1)]);
      var t := Run(s, Copies(n - 1));
      assert Run(t, [Copy(n - 1)]) == Run(Step(t, Copy(n - 1)), []);
    }
  }

  /** The driver's submission is the run of its copies, and keeps the invariant. */
  lemma SubmitIsRunOfCopies(s: System)
    requires Inv(s)
    ensures Run(s, Copies(s.driver.idx + 1)) == s.(driver := Submit(s.driver))
    ensures Inv(s.(driver := Submit(s.driver)))
  {
    CopiesRun(s, s.driver.idx + 1);
    SubmitKeepsInv(s, s.driver.idx + 1);
  }

  // ---------- Flipping too early ----------

  /** The controller has executed something that was not asked for, or waits although it is not done. */
  ghost predicate Astray(s: System)
    requires s.driver.Valid() && s.position <= LINK_SLOT
  {
    !(s.executed <= s.added) || (Settled(s) && s.executed != s.added)
  }

  function Fetches(n: nat): seq<Action> { seq(n, _ => Fetch) }

  /** Up to the link slot there are only blocks that the controller takes for commands of its lap. */
  ghost predicate AllLookReady(s: System) {
    && s.driver.Valid() && s.position <= LINK_SLOT
    && forall i :: 0 <= i < LINK_SLOT ==>
         CycleBit(s.driver.trbs[i]) == s.cycleState && TrbType(s.driver.trbs[i]) != LINK_TYPE
  }

  lemma {:induction false} FetchesReachLink(s: System, n: nat)
    requires AllLookReady(s) && s.position + n == LINK_SLOT
    ensures var t := Run(s, Fetches(n));
      t.driver == s.driver && t.position == LINK_SLOT && t.cycleState == s.cycleState && t.added == s.added
    decreases n
  {
    if n == 0 {
    } else {
      assert Fetches(n)[1..] == Fetches(n - 1);
      FetchesReachLink(Step(s, Fetch), n - 1);
    }
  }

  /** A flip leaves blocks that a controller still in the lap before takes for commands of its own. */
  lemma EarlyFlipLooksReady(s: System)
    requires Inv(s) && !LinkTaken(s)
    ensures AllLookReady(FlipStep(s)) && FlipStep(s).cycleState != FlipStep(s).driver.cycle
    ensures CycleBit(FlipStep(s).driver.trbs[LINK_SLOT]) != FlipStep(s).cycleState
  {
    StampSets(ZEROED, s.driver.cycle, false);
    LinkRawFields(s.driver.base, !s.driver.cycle);
  }

  /** Staging and copying one command does not wake a controller that waits at a stale link. */
  lemma StaleLinkBlocks(t: System)
    requires t.driver.Valid() && t.driver.idx == 0 && t.position == LINK_SLOT
    requires CycleBit(t.driver.trbs[LINK_SLOT]) != t.cycleState
    ensures Settled(t)
    ensures var u := Run(t, [Stage(Normal(ZEROED)), Copy(0)]);
      Settled(u) && u.executed == t.executed && |u.added| == |t.added| + 1
  {
    var a := Step(t, Stage(Normal(ZEROED)));
    var u := Step(a, Copy(0));
    assert [Stage(Normal(ZEROED)), Copy(0)][1..] == [Copy(0)];
    assert Run(a, [Copy(0)]) == Run(u, []);
  }

  /** After a flip that comes before the link is taken, the system can go astray. */
  lemma EarlyFlipGoesAstray(s: System) returns (actions: seq<Action>)
    requires Inv(s) && !LinkTaken(s)
    ensures Astray(Run(FlipStep(s), actions))
  {
    EarlyFlipLooksReady(s);
    var n := LINK_SLOT - s.position;
    var t := Run(FlipStep(s), Fetches(n));
    FetchesReachLink(FlipStep(s), n);
    StaleLinkBlocks(t);
    actions := Fetches(n);
    if t.executed == t.added {
      var more := [Stage(Normal(ZEROED)), Copy(0)];
      RunConcat(FlipStep(s), actions, more);
      actions := actions + more;
    }
  }

  /**
   * The driver may flip exactly when the controller has taken the link: then, and only then, whatever
   * happens afterwards, what is executed is a prefix of what was added, and all of it once the controller waits.
   */
  lemma FlipIsSafeExactlyWhen(s: System)
    requires Inv(s)
    ensures LinkTaken(s) <==> forall actions :: !Astray(Run(FlipStep(s), actions))
  {
    if LinkTaken(s) {
      FlipKeepsInv(s);
      forall actions ensures !Astray(Run(FlipStep(s), actions)) {
        RunKeepsInv(FlipStep(s), actions);
        var t := Run(FlipStep(s), actions);
        if Settled(t) { IdleMeansDone(t); }
      }
    } else {
      var actions := EarlyFlipGoesAstray(s);
      assert Astray(Run(FlipStep(s), actions));
      assert exists a :: Astray(Run(FlipStep(s), a));
    }
  }

  /** Flipping before the controller has reached the link slot makes it execute, next, an empty block no one added. */
  lemma EarlyFlipExecutesEmptyBlock(s: System)
    requires Inv(s) && !LinkTaken(s) && s.position < LINK_SLOT
    ensures FetchStep(FlipStep(s)).executed == s.executed + [Payload(ZEROED)]
  {
    EarlyFlipLooksReady(s);
    StampSets(ZEROED, s.driver.cycle, false);
    StampSets(ZEROED, false, s.driver.cycle);
  }

  /** The controller waits at a link of the wrong lap, and submitting again only renews that link. */
  ghost predicate Stalled(s: System) {
    && s.driver.Valid() && s.position == LINK_SLOT && s.cycleState != s.driver.cycle
    && s.driver.trbs[LINK_SLOT] == LinkRaw(s.driver.base, s.driver.cycle)
    && s.driver.staging[LINK_SLOT] == Link(LinkRaw(s.driver.base, s.driver.cycle))
  }

  lemma {:induction false} StalledStaysStalled(s: System, actions: seq<Action>)
    requires Stalled(s)
    ensures Stalled(Run(s, actions)) && Run(s, actions).executed == s.executed
    decreases |actions|
  {
    if actions == [] {
    } else {
      LinkRawFields(s.driver.base, s.driver.cycle);
      StalledStaysStalled(Step(s, actions[0]), actions[1..]);
    }
  }

  /** Flipping when the controller is at the link but has not taken it: nothing is ever executed again. */
  lemma FlipAtUntakenLinkStalls(s: System, actions: seq<Action>)
    requires Inv(s) && s.position == LINK_SLOT
    ensures Run(FlipStep(s), actions).executed == s.executed
  {
    LinkRawFields(s.driver.base, !s.driver.cycle);
    StalledStaysStalled(FlipStep(s), actions);
  }
}
