/** The worker's inner process: a slot for the running child and a gate that serialises starting one. */
module StartGate {
  import opened Results

  /** A child is named by its loopback address; addresses of spawned children are distinct. */
  type Child = nat

  type Caller = nat

  // ----- the critical sections on the process slot -----

  datatype EngineError = Unavailable

  /** A child that has exited is dropped from the slot; otherwise its address is reported. Inspecting it may fail. */
  function ActiveAddress(slot: Option<Child>, exited: set<Child>, inspectable: bool)
    : (Option<Child>, Result<Option<Child>, EngineError>)
  {
    if slot.None? then (None, Success(None))
    else if !inspectable then (slot, Failure(Unavailable))
    else if slot.value in exited then (None, Success(None))
    else (slot, Success(slot))
  }

  /** Takes the child for stopping only when it is still the one at `address`. */
  function TakeAt(slot: Option<Child>, address: Child): (Option<Child>, Option<Child>) {
    if slot == Some(address) then (None, slot) else (slot, None)
  }

  class ProcessSlot {
    var process: Option<Child>

    constructor ()
      ensures process == None
    {
      process := None;
    }

    method Active(exited: set<Child>, inspectable: bool) returns (address: Result<Option<Child>, EngineError>)
      modifies this
      ensures (process, address) == ActiveAddress(old(process), exited, inspectable)
    {
      if process.None? {
        return Success(None);
      }
      if !inspectable {
        return Failure(Unavailable);
      }
      if process.value !in exited {
        return Success(process);
      }
      process := None;
      return Success(None);
    }

    method StopAt(at: Child) returns (taken: Option<Child>)
      modifies this
      ensures (process, taken) == TakeAt(old(process), at)
    {
      taken := None;
      if process == Some(at) {
        taken, process := process, None;
      }
    }

    method Take() returns (taken: Option<Child>)
      modifies this
      ensures process == None && taken == old(process)
    {
      taken, process := process, None;
    }
  }

  // ----- callers -----

  /** What a caller gets: the address of a child, an error, or nothing when its request is dropped. A restart does
      not pass the address on. */
  datatype Reply = Serving(address: Child) | Refused | Dropped

  datatype Position =
    | CheckFiles
    | Look | Probe(address: Child) | AboutToStop(address: Child) | Stopping(child: Child)
    | AwaitGate
    | GatedLook | GatedProbe(address: Child) | GatedAboutToStop(address: Child) | GatedStopping(child: Child)
    | AwaitRestartGate | RestartTake | RestartStopping(child: Child)
    | Starting | Booting(child: Child) | Filling(child: Child) | LeavingGate(reply: Reply)
    | Returned(reply: Reply)

  datatype World = World(
    slot: Option<Child>,
    gate: Option<Caller>,
    callers: map<Caller, Position>,
    spawned: set<Child>,
    finished: set<Child>,   // stopped, or dropped with the kill-on-drop guard
    exited: set<Child>,     // ended on their own
    seen: History)

  /** What the callers have been told from outside the locks, in the order in which it happened to each of them. */
  datatype History = History(
    answers: map<Caller, (Child, bool)>,   // the last child a caller has probed, and whether it was ready
    running: set<(Caller, Child)>,         // children a caller has found running in the slot
    booted: set<(Caller, Child)>,          // children a caller has started and seen become ready
    failed: set<Caller>)                   // callers with a failed check, inspection, stop, start or boot

  datatype Action =
    | DoCall(t: Caller, restart: bool)
    | DoAdvance(t: Caller, ok: bool, newChild: Child)
    | DoExit(c: Child)
    | DoDrop(t: Caller)

  const INITIAL: World := World(None, None, map[], {}, {}, {}, History(map[], {}, {}, {}))

  predicate HoldsGate(p: Position) {
    match p
    case GatedLook => true
    case GatedProbe(_) => true
    case GatedAboutToStop(_) => true
    case GatedStopping(_) => true
    case RestartTake => true
    case RestartStopping(_) => true
    case Starting => true
    case Booting(_) => true
    case Filling(_) => true
    case LeavingGate(_) => true
    case _ => false
  }

  /** The child a caller is responsible for. */
  function InHand(p: Position): Option<Child> {
    match p
    case Stopping(c) => Some(c)
    case GatedStopping(c) => Some(c)
    case RestartStopping(c) => Some(c)
    case Booting(c) => Some(c)
    case Filling(c) => Some(c)
    case _ => None
  }

  function Move(w: World, t: Caller, p: Position): World {
    w.(callers := w.callers[t := p])
  }

  function Finish(w: World, c: Option<Child>): World {
    if c.Some? then w.(finished := w.finished + {c.value}) else w
  }

  /** Looks at the slot, forgetting a child that has exited; `gated` callers hold the gate. */
  function LookAt(w: World, t: Caller, gated: bool, inspectable: bool): World {
    var (slot, looked) := ActiveAddress(w.slot, w.exited, inspectable);
    var next := (if slot.None? then Finish(w, w.slot) else w).(slot := slot);
    match looked
    case Failure(_) => Move(next, t, if gated then LeavingGate(Refused) else Returned(Refused))
    case Success(None) => Move(next, t, if gated then Starting else AwaitGate)
    case Success(Some(address)) => Move(next, t, if gated then GatedProbe(address) else Probe(address))
  }

  function EnterGate(w: World, t: Caller, p: Position): World {
    if w.gate.Some? then w else Move(w, t, p).(gate := Some(t))
  }

  function StopFrom(w: World, t: Caller, address: Child, gated: bool): World {
    var (slot, child) := TakeAt(w.slot, address);
    Move(w.(slot := slot), t,
         if child.None? then (if gated then Starting else AwaitGate)
         else if gated then GatedStopping(child.value) else Stopping(child.value))
  }

  /** One step of a caller; `ok` is the outcome of the operation outside the locks. */
  function Advance(w: World, t: Caller, ok: bool, newChild: Child): World {
    if t !in w.callers then w
    else
      match w.callers[t]
      case CheckFiles => Move(w, t, if ok then Look else Returned(Refused))
      case Look => LookAt(w, t, false, ok)
      case Probe(a) => Move(w, t, if ok then Returned(Serving(a)) else AboutToStop(a))
      case AboutToStop(a) => StopFrom(w, t, a, false)
      case Stopping(c) => Move(Finish(w, Some(c)), t, if ok then AwaitGate else Returned(Refused))
      case AwaitGate => EnterGate(w, t, GatedLook)
      case GatedLook => LookAt(w, t, true, ok)
      case GatedProbe(a) => Move(w, t, if ok then LeavingGate(Serving(a)) else GatedAboutToStop(a))
      case GatedAboutToStop(a) => StopFrom(w, t, a, true)
      case GatedStopping(c) => Move(Finish(w, Some(c)), t, if ok then Starting else LeavingGate(Refused))
      case AwaitRestartGate => EnterGate(w, t, RestartTake)
      case RestartTake =>
        Move(w.(slot := None), t, if w.slot.Some? then RestartStopping(w.slot.value) else Starting)
      case RestartStopping(c) => Move(Finish(w, Some(c)), t, if ok then Starting else LeavingGate(Refused))
      case Starting =>
        if !ok then Move(w, t, LeavingGate(Refused))
        else if newChild in w.spawned then w
        else Move(w.(spawned := w.spawned + {newChild}), t, Booting(newChild))
      case Booting(c) => if ok then Move(w, t, Filling(c)) else Move(Finish(w, Some(c)), t, LeavingGate(Refused))
      case Filling(c) => Move(Finish(w, w.slot).(slot := Some(c)), t, LeavingGate(Serving(c)))
      case LeavingGate(reply) => Move(w, t, Returned(reply)).(gate := None)
      case Returned(_) => w
  }

  /** The operation a caller is about to perform can fail: an inspection only when there is a child to inspect. */
  predicate CanFail(w: World, p: Position) {
    match p
    case CheckFiles => true
    case Look => w.slot.Some?
    case GatedLook => w.slot.Some?
    case Stopping(_) => true
    case GatedStopping(_) => true
    case RestartStopping(_) => true
    case Starting => true
    case Booting(_) => true
    case _ => false
  }

  /** What caller `t` is told by the outcome `ok` of its operation. */
  function Observe(w: World, t: Caller, ok: bool): History
    requires t in w.callers
  {
    var p, h := w.callers[t], w.seen;
    if CanFail(w, p) && !ok then h.(failed := h.failed + {t})
    else
      match p
      case Probe(a) => h.(answers := h.answers[t := (a, ok)])
      case GatedProbe(a) => h.(answers := h.answers[t := (a, ok)])
      case Booting(c) => h.(booted := h.booted + {(t, c)})
      case Look => if Runs(w) then h.(running := h.running + {(t, w.slot.value)}) else h
      case GatedLook => if Runs(w) then h.(running := h.running + {(t, w.slot.value)}) else h
      case _ => h
  }

  predicate Runs(w: World) {
    w.slot.Some? && w.slot.value !in w.exited
  }

  /** A dropped request drops the child it holds, which kills it, and its gate guard. */
  function Drop(w: World, t: Caller): World {
    if t !in w.callers || w.callers[t].Returned? then w
    else
      var next := Move(Finish(w, InHand(w.callers[t])), t, Returned(Dropped));
      next.(gate := if HoldsGate(w.callers[t]) then None else w.gate)
  }

  function Step(w: World, a: Action): World {
    match a
    case DoCall(t, restart) =>
      if t in w.callers then w else Move(w, t, if restart then AwaitRestartGate else CheckFiles)
    case DoAdvance(t, ok, newChild) =>
      if t in w.callers then Advance(w, t, ok, newChild).(seen := Observe(w, t, ok)) else w
    case DoExit(c) => if c in w.spawned then w.(exited := w.exited + {c}) else w
    case DoDrop(t) => Drop(w, t)
  }

  function Run(w: World, actions: seq<Action>): World
    decreases |actions|
  {
    if actions == [] then w else Run(Step(w, actions[0]), actions[1..])
  }

  // ----- the invariant -----

  predicate Holds(w: World, t: Caller, c: Child) {
    t in w.callers && InHand(w.callers[t]) == Some(c)
  }

  ghost predicate GateTracked(w: World) {
    && (forall t :: t in w.callers && HoldsGate(w.callers[t]) ==> w.gate == Some(t))
    && (w.gate.Some? ==> w.gate.value in w.callers && HoldsGate(w.callers[w.gate.value]))
  }

  /** What a gate holder knows about the slot at each point. */
  predicate SlotKnown(w: World, p: Position) {
    match p
    case GatedProbe(a) => w.slot == None || w.slot == Some(a)
    case GatedAboutToStop(a) => w.slot == None || w.slot == Some(a)
    case GatedStopping(_) => w.slot == None
    case RestartStopping(_) => w.slot == None
    case Starting => w.slot == None
    case Booting(_) => w.slot == None
    case Filling(_) => w.slot == None
    case _ => true
  }

  ghost predicate SlotTracked(w: World) {
    forall t :: t in w.callers ==> SlotKnown(w, w.callers[t])
  }

  /** Every spawned child is in the slot, in one caller's hands, or finished, and in only one of these. */
  ghost predicate OneOwner(w: World, c: Child) {
    && (forall t, u :: Holds(w, t, c) && Holds(w, u, c) ==> t == u)
    && (w.slot == Some(c) ==> c in w.spawned && c !in w.finished && forall t :: !Holds(w, t, c))
    && (c in w.finished ==> c in w.spawned && forall t :: !Holds(w, t, c))
    && (forall t :: Holds(w, t, c) ==> c in w.spawned)
    && (c in w.spawned ==> w.slot == Some(c) || c in w.finished || exists t :: Holds(w, t, c))
  }

  ghost predicate Safe(w: World) {
    GateTracked(w) && SlotTracked(w) && forall c :: OneOwner(w, c)
  }

  lemma LookMovesOne(w: World, t: Caller, gated: bool, inspectable: bool)
    requires t in w.callers
    ensures var next := LookAt(w, t, gated, inspectable);
      t in next.callers && next.callers == w.callers[t := next.callers[t]]
  {
  }

  lemma StopMovesOne(w: World, t: Caller, address: Child, gated: bool)
    requires t in w.callers
    ensures var next := StopFrom(w, t, address, gated);
      t in next.callers && next.callers == w.callers[t := next.callers[t]]
  {
  }

  /** Nobody but the caller that moves gains or loses a child. */
  lemma AdvanceMovesOne(w: World, t: Caller, ok: bool, newChild: Child)
    requires t in w.callers
    ensures var next := Advance(w, t, ok, newChild);
      t in next.callers && next.callers == w.callers[t := next.callers[t]]
  {
    match w.callers[t]
    case Look => LookMovesOne(w, t, false, ok);
    case GatedLook => LookMovesOne(w, t, true, ok);
    case AboutToStop(a) => StopMovesOne(w, t, a, false);
    case GatedAboutToStop(a) => StopMovesOne(w, t, a, true);
    case _ =>
  }

  /** One caller takes, keeps or gives back the gate. */
  lemma GateMove(w: World, next: World, t: Caller)
    requires GateTracked(w) && t in w.callers && t in next.callers && next.callers == w.callers[t := next.callers[t]]
    requires HoldsGate(w.callers[t]) ==> next.gate == if HoldsGate(next.callers[t]) then w.gate else None
    requires !HoldsGate(w.callers[t]) && HoldsGate(next.callers[t]) ==> w.gate.None? && next.gate == Some(t)
    requires !HoldsGate(w.callers[t]) && !HoldsGate(next.callers[t]) ==> next.gate == w.gate
    ensures GateTracked(next)
  {
  }

  lemma AdvanceKeepsGate(w: World, t: Caller, ok: bool, newChild: Child)
    requires GateTracked(w) && t in w.callers
    ensures GateTracked(Advance(w, t, ok, newChild))
  {
    AdvanceMovesOne(w, t, ok, newChild);
    GateMove(w, Advance(w, t, ok, newChild), t);
  }

  lemma StepKeepsGate(w: World, a: Action)
    requires GateTracked(w)
    ensures GateTracked(Step(w, a))
  {
    match a
    case DoCall(t, restart) =>
    case DoAdvance(t, ok, newChild) => if t in w.callers { AdvanceKeepsGate(w, t, ok, newChild); }
    case DoExit(c) =>
    case DoDrop(t) => if t in w.callers { GateMove(w, Step(w, a), t); }
  }

  lemma StepKeepsSlot(w: World, a: Action)
    requires GateTracked(w) && SlotTracked(w)
    ensures SlotTracked(Step(w, a))
  {
  }

  predicate InSlotOrHand(w: World, t: Caller, c: Child)
    requires t in w.callers
  {
    w.slot == Some(c) || InHand(w.callers[t]) == Some(c)
  }

  /** `c` moves between the slot, the hands of `t` and the finished children, or is new in the hands of `t`. */
  predicate HandsOver(w: World, next: World, t: Caller, c: Child)
    requires t in w.callers && t in next.callers
  {
    && (InSlotOrHand(w, t, c) || c in w.finished ==> InSlotOrHand(next, t, c) || c in next.finished)
    && (InSlotOrHand(next, t, c) ==> InSlotOrHand(w, t, c) || (c !in w.spawned && next.slot != Some(c)))
    && (c in next.finished ==> InSlotOrHand(w, t, c) || c in w.finished)
    && (c in w.spawned ==> c in next.spawned)
    && (c in next.spawned ==> c in w.spawned || InHand(next.callers[t]) == Some(c))
    && (InSlotOrHand(next, t, c) ==> c in next.spawned && c !in next.finished)
    && !(next.slot == Some(c) && InHand(next.callers[t]) == Some(c))
  }

  lemma HandsOverKeepsOwner(w: World, next: World, t: Caller, c: Child)
    requires t in w.callers && t in next.callers && next.callers == w.callers[t := next.callers[t]]
    requires OneOwner(w, c) && HandsOver(w, next, t, c)
    ensures OneOwner(next, c)
  {
    assert InHand(w.callers[t]) == Some(c) <==> Holds(w, t, c);
    assert InHand(next.callers[t]) == Some(c) <==> Holds(next, t, c);
    assert forall u :: u != t ==> (Holds(next, u, c) <==> Holds(w, u, c));
  }

  lemma AdvanceKeepsOwner(w: World, t: Caller, ok: bool, newChild: Child, c: Child)
    requires Safe(w) && t in w.callers
    ensures OneOwner(Advance(w, t, ok, newChild), c)
  {
    var next := Advance(w, t, ok, newChild);
    AdvanceMovesOne(w, t, ok, newChild);
    assert OneOwner(w, c) && SlotKnown(w, w.callers[t]);
    assert InHand(w.callers[t]) == Some(c) <==> Holds(w, t, c);
    HandsOverKeepsOwner(w, next, t, c);
  }

  lemma SeenHasNoOwner(w: World, h: History, c: Child)
    requires OneOwner(w, c)
    ensures OneOwner(w.(seen := h), c)
  {
    assert forall t :: Holds(w.(seen := h), t, c) <==> Holds(w, t, c);
  }

  lemma StepKeepsOwner(w: World, a: Action, c: Child)
    requires Safe(w)
    ensures OneOwner(Step(w, a), c)
  {
    var next := Step(w, a);
    assert OneOwner(w, c);
    match a
    case DoCall(t, _) =>
      if c in w.spawned && w.slot != Some(c) && c !in w.finished {
        var u :| Holds(w, u, c);
        assert Holds(next, u, c);
      }
      assert forall u :: Holds(next, u, c) <==> Holds(w, u, c);
    case DoAdvance(t, ok, newChild) =>
      if t in w.callers {
        AdvanceKeepsOwner(w, t, ok, newChild, c);
        SeenHasNoOwner(Advance(w, t, ok, newChild), Observe(w, t, ok), c);
      }
    case DoExit(_) =>
      assert forall u :: Holds(next, u, c) <==> Holds(w, u, c);
      if c in w.spawned && w.slot != Some(c) && c !in w.finished {
        var u :| Holds(w, u, c);
        assert Holds(next, u, c);
      }
    case DoDrop(t) =>
      if t in w.callers {
        assert InHand(w.callers[t]) == Some(c) <==> Holds(w, t, c);
        HandsOverKeepsOwner(w, next, t, c);
      }
  }

  lemma {:induction false} RunsStaySafe(w: World, actions: seq<Action>)
    requires Safe(w)
    ensures Safe(Run(w, actions))
    decreases |actions|
  {
    if actions != [] {
      var next := Step(w, actions[0]);
      StepKeepsGate(w, actions[0]);
      StepKeepsSlot(w, actions[0]);
      forall c ensures OneOwner(next, c) { StepKeepsOwner(w, actions[0], c); }
      RunsStaySafe(next, actions[1..]);
    }
  }

  lemma Reached(actions: seq<Action>, w: World)
    requires w == Run(INITIAL, actions)
    ensures Safe(w)
  {
    assert forall c :: OneOwner(INITIAL, c);
    RunsStaySafe(INITIAL, actions);
  }

  /** In every run the slot is only ever filled by the gate holder, and only when it is empty. */
  lemma FilledOnlyByGateHolder(actions: seq<Action>, w: World, a: Action)
    requires w == Run(INITIAL, actions)
    requires Step(w, a).slot.Some? && Step(w, a).slot != w.slot
    ensures w.slot == None
    ensures a.DoAdvance? && w.gate == Some(a.t)
    ensures a.t in w.callers && w.callers[a.t] == Filling(Step(w, a).slot.value)
  {
    Reached(actions, w);
    match a
    case DoAdvance(t, _, _) => if t in w.callers { assert SlotKnown(w, w.callers[t]); }
    case _ =>
  }

  /** In every run each spawned child has exactly one owner: the slot, one caller, or nobody any more. */
  lemma EveryChildOwnedOnce(actions: seq<Action>, w: World, c: Child)
    requires w == Run(INITIAL, actions)
    ensures c in w.spawned <==> w.slot == Some(c) || c in w.finished || exists t :: Holds(w, t, c)
    ensures w.slot == Some(c) ==> c !in w.finished && forall t :: !Holds(w, t, c)
    ensures c in w.finished ==> forall t :: !Holds(w, t, c)
    ensures forall t, u :: Holds(w, t, c) && Holds(w, u, c) ==> t == u
  {
    Reached(actions, w);
    assert OneOwner(w, c);
  }

  /** At most one caller is ever between starting a child and publishing it. */
  lemma OneStarter(actions: seq<Action>, w: World, t: Caller, u: Caller)
    requires w == Run(INITIAL, actions)
    requires t in w.callers && u in w.callers
    requires w.callers[t].Booting? || w.callers[t].Filling?
    requires w.callers[u].Booting? || w.callers[u].Filling?
    ensures t == u && w.slot == None
  {
    Reached(actions, w);
    assert SlotKnown(w, w.callers[t]);
  }

  // ----- what callers are told and what they do about it -----

  predicate Unready(h: History, t: Caller, a: Child) {
    t in h.answers && h.answers[t] == (a, false)
  }

  /** The caller has seen `a` ready: it has probed it last, or it has started it. */
  predicate SeenReady(h: History, t: Caller, a: Child) {
    (t in h.answers && h.answers[t] == (a, true)) || (t, a) in h.booted
  }

  /** What a caller at each point has been told about the child it deals with. */
  predicate Told(h: History, t: Caller, p: Position) {
    match p
    case Probe(a) => (t, a) in h.running
    case GatedProbe(a) => (t, a) in h.running
    case AboutToStop(a) => Unready(h, t, a)
    case GatedAboutToStop(a) => Unready(h, t, a)
    case Stopping(c) => Unready(h, t, c)
    case GatedStopping(c) => Unready(h, t, c)
    case Filling(c) => (t, c) in h.booted
    case LeavingGate(Serving(a)) => SeenReady(h, t, a)
    case Returned(Serving(a)) => SeenReady(h, t, a)
    case _ => true
  }

  /** A failure is answered by an error at once, and nothing else is. */
  predicate FailureTold(h: History, t: Caller, p: Position) {
    && (p == LeavingGate(Refused) || p == Returned(Refused) ==> t in h.failed)
    && (t in h.failed ==> p == LeavingGate(Refused) || p == Returned(Refused) || p == Returned(Dropped))
  }

  ghost predicate AllTold(w: World) {
    && (forall t :: t in w.callers ==> Told(w.seen, t, w.callers[t]) && FailureTold(w.seen, t, w.callers[t]))
    && (forall t :: t in w.seen.failed ==> t in w.callers)
  }

  lemma AdvanceTells(w: World, t: Caller, ok: bool, newChild: Child)
    requires t in w.callers && Told(w.seen, t, w.callers[t]) && FailureTold(w.seen, t, w.callers[t])
    ensures var next, h := Advance(w, t, ok, newChild), Observe(w, t, ok);
      t in next.callers && Told(h, t, next.callers[t]) && FailureTold(h, t, next.callers[t])
  {
  }

  /** What one caller observes is not news about another one. */
  lemma OthersUntold(w: World, t: Caller, ok: bool, u: Caller, p: Position)
    requires t in w.callers && u != t
    ensures Told(Observe(w, t, ok), u, p) == Told(w.seen, u, p)
    ensures FailureTold(Observe(w, t, ok), u, p) == FailureTold(w.seen, u, p)
  {
  }

  lemma StepTells(w: World, a: Action)
    requires AllTold(w)
    ensures AllTold(Step(w, a))
  {
    match a
    case DoAdvance(t, ok, newChild) =>
      if t in w.callers {
        var next := Step(w, a);
        AdvanceMovesOne(w, t, ok, newChild);
        AdvanceTells(w, t, ok, newChild);
        forall u | u in next.callers && u != t
          ensures Told(next.seen, u, next.callers[u]) && FailureTold(next.seen, u, next.callers[u])
        {
          OthersUntold(w, t, ok, u, w.callers[u]);
        }
      }
    case _ =>
  }

  lemma {:induction false} RunsTell(w: World, actions: seq<Action>)
    requires AllTold(w)
    ensures AllTold(Run(w, actions))
    decreases |actions|
  {
    if actions != [] {
      StepTells(w, actions[0]);
      RunsTell(Step(w, actions[0]), actions[1..]);
    }
  }

  /** In every run a caller only ever gets the address of a child that it has seen ready: the last child it probed, or
      one it started. An error means that one of its own operations failed, and after a failure it gets nothing else,
      unless its request is dropped. */
  lemma ServedWasReady(actions: seq<Action>, w: World, t: Caller)
    requires w == Run(INITIAL, actions) && t in w.callers && w.callers[t].Returned?
    ensures match w.callers[t].reply
      case Serving(a) => SeenReady(w.seen, t, a) && t !in w.seen.failed
      case Refused => t in w.seen.failed
      case Dropped => true
  {
    RunsTell(INITIAL, actions);
  }

  /** In every run a child that has become ready is put into the empty slot, alive, and its address is what the caller
      that started it gets. */
  lemma BootedIsPublished(actions: seq<Action>, w: World, t: Caller, c: Child, ok: bool, newChild: Child)
    requires w == Run(INITIAL, actions) && t in w.callers && w.callers[t] == Filling(c)
    ensures var next := Step(w, DoAdvance(t, ok, newChild));
      && w.slot == None && next.slot == Some(c) && c in next.spawned && c !in next.finished
      && t in next.callers && next.callers[t] == LeavingGate(Serving(c))
  {
    Reached(actions, w);
    assert SlotKnown(w, w.callers[t]) && OneOwner(w, c) && Holds(w, t, c);
  }

  /** In every run a child leaves the slot only because it has exited, or because the caller that takes it has probed
      it last and found it not ready, or by a restart. */
  lemma RemovedWithReason(actions: seq<Action>, w: World, a: Action, c: Child)
    requires w == Run(INITIAL, actions) && w.slot == Some(c) && Step(w, a).slot != Some(c)
    ensures a.DoAdvance? && a.t in w.callers
    ensures c in w.exited || Unready(w.seen, a.t, c) || w.callers[a.t] == RestartTake
  {
    Reached(actions, w);
    RunsTell(INITIAL, actions);
    match a
    case DoAdvance(t, _, _) => if t in w.callers { assert Told(w.seen, t, w.callers[t]) && SlotKnown(w, w.callers[t]); }
    case _ =>
  }

  /** In every run a caller only probes a child that it has just found running in the slot. */
  lemma ProbedWasRunning(actions: seq<Action>, w: World, t: Caller, a: Child)
    requires w == Run(INITIAL, actions) && t in w.callers
    requires w.callers[t] == Probe(a) || w.callers[t] == GatedProbe(a)
    ensures (t, a) in w.seen.running
  {
    RunsTell(INITIAL, actions);
  }

  /** In every run a caller of `ensure_running` stops a child only after it has probed it last, unready. */
  lemma StoppedWasUnready(actions: seq<Action>, w: World, t: Caller, c: Child)
    requires w == Run(INITIAL, actions) && t in w.callers
    requires w.callers[t] == Stopping(c) || w.callers[t] == GatedStopping(c)
    ensures Unready(w.seen, t, c) && w.slot != Some(c)
  {
    RunsTell(INITIAL, actions);
    Reached(actions, w);
    assert OneOwner(w, c) && Holds(w, t, c);
  }
}
