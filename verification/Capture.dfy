/** The microphone slot: the capture coordinator, the audio-handle slot, and their interleaved users. */
module Capture {
  import opened Results

  type JobId = nat

  datatype CapturePhase = Idle | Preparing(jobId: JobId) | Recording(jobId: JobId) | Finalizing(jobId: JobId)

  datatype PreparationCommit = Committed | CommitCancelled

  datatype CancelledCapture =
    | CancelledPreparing(jobId: JobId)
    | CancelledRecording(jobId: JobId)
    | CancelledFinalizing(jobId: JobId)

  datatype CaptureError =
    | CaptureBusy(activeJob: JobId)
    | AlreadyFinalizing(finalizingJob: JobId)
    | NoActiveRecording
    | JobOwnership(requestedJob: JobId)
    | OccupiedSlot
    | MissingHandle
    | ForeignHandle

  // ----- the coordinator's transitions -----

  function ReserveStart(phase: CapturePhase, j: JobId): (CapturePhase, Result<(), CaptureError>) {
    if phase.Idle? then (Preparing(j), Success(())) else (phase, Failure(CaptureBusy(phase.jobId)))
  }

  function CommitPreparation(phase: CapturePhase, j: JobId): (CapturePhase, Result<PreparationCommit, CaptureError>) {
    if phase == Preparing(j) then (Recording(j), Success(Committed))
    else if phase.Idle? then (phase, Success(CommitCancelled))
    else (phase, Failure(JobOwnership(j)))
  }

  function BeginFinalization(phase: CapturePhase): (CapturePhase, Result<JobId, CaptureError>) {
    match phase
    case Recording(j) => (Finalizing(j), Success(j))
    case Finalizing(j) => (phase, Failure(AlreadyFinalizing(j)))
    case Idle => (phase, Failure(NoActiveRecording))
    case Preparing(_) => (phase, Failure(NoActiveRecording))
  }

  function ReleaseFinalization(phase: CapturePhase, j: JobId): (CapturePhase, Result<(), CaptureError>) {
    if phase == Finalizing(j) then (Idle, Success(())) else (phase, Failure(JobOwnership(j)))
  }

  function AbandonPreparation(phase: CapturePhase, j: JobId): (CapturePhase, Result<(), CaptureError>) {
    if phase == Preparing(j) then (Idle, Success(()))
    else if phase.Idle? then (phase, Success(()))
    else (phase, Failure(JobOwnership(j)))
  }

  function CancelCapture(phase: CapturePhase): (CapturePhase, Option<CancelledCapture>) {
    match phase
    case Idle => (phase, None)
    case Preparing(j) => (Idle, Some(CancelledPreparing(j)))
    case Recording(j) => (Idle, Some(CancelledRecording(j)))
    case Finalizing(j) => (phase, Some(CancelledFinalizing(j)))
  }

  class RecordingCoordinator {
    var capture: CapturePhase

    constructor ()
      ensures capture == Idle
    {
      capture := Idle;
    }

    method Reserve(j: JobId) returns (r: Result<(), CaptureError>)
      modifies this
      ensures (capture, r) == ReserveStart(old(capture), j)
    {
      match capture
      case Idle =>
        capture := Preparing(j);
        r := Success(());
      case phase => r := Failure(CaptureBusy(phase.jobId));
    }

    method Commit(j: JobId) returns (r: Result<PreparationCommit, CaptureError>)
      modifies this
      ensures (capture, r) == CommitPreparation(old(capture), j)
    {
      if capture == Preparing(j) {
        capture := Recording(j);
        r := Success(Committed);
      } else if capture.Idle? {
        r := Success(CommitCancelled);
      } else {
        r := Failure(JobOwnership(j));
      }
    }

    method Begin() returns (r: Result<JobId, CaptureError>)
      modifies this
      ensures (capture, r) == BeginFinalization(old(capture))
    {
      match capture
      case Recording(j) =>
        capture := Finalizing(j);
        r := Success(j);
      case Finalizing(j) => r := Failure(AlreadyFinalizing(j));
      case phase => r := Failure(NoActiveRecording);
    }

    method Release(j: JobId) returns (r: Result<(), CaptureError>)
      modifies this
      ensures (capture, r) == ReleaseFinalization(old(capture), j)
    {
      if capture == Finalizing(j) {
        capture := Idle;
        r := Success(());
      } else {
        r := Failure(JobOwnership(j));
      }
    }

    method Abandon(j: JobId) returns (r: Result<(), CaptureError>)
      modifies this
      ensures (capture, r) == AbandonPreparation(old(capture), j)
    {
      if capture == Preparing(j) {
        capture := Idle;
        r := Success(());
      } else if capture.Idle? {
        r := Success(());
      } else {
        r := Failure(JobOwnership(j));
      }
    }

    method Cancel() returns (r: Option<CancelledCapture>)
      modifies this
      ensures (capture, r) == CancelCapture(old(capture))
    {
      match capture
      case Idle => r := None;
      case Preparing(j) =>
        capture := Idle;
        r := Some(CancelledPreparing(j));
      case Recording(j) =>
        capture := Idle;
        r := Some(CancelledRecording(j));
      case Finalizing(j) => r := Some(CancelledFinalizing(j));
    }
  }

  // ----- coordinator and handle slot together -----

  /** A handle is named by the job that opened it. */
  datatype Slots = Slots(phase: CapturePhase, slot: Option<JobId>)

  /** Some(j) in the result is the handle given back to the caller. */
  function CommitActive(s: Slots, j: JobId): (Slots, Result<Option<JobId>, CaptureError>) {
    if s.slot.Some? then (s, Failure(OccupiedSlot))
    else
      var (phase, commit) := CommitPreparation(s.phase, j);
      match commit
      case Failure(e) => (s.(phase := phase), Failure(e))
      case Success(Committed) => (Slots(phase, Some(j)), Success(None))
      case Success(CommitCancelled) => (s.(phase := phase), Success(Some(j)))
  }

  function TakeForFinalization(s: Slots): (Slots, Result<JobId, CaptureError>) {
    var (phase, begun) := BeginFinalization(s.phase);
    match begun
    case Failure(e) => (s, Failure(e))
    case Success(j) =>
      if s.slot.None? then (Slots(ReleaseFinalization(phase, j).0, None), Failure(MissingHandle))
      else if s.slot.value != j then (Slots(ReleaseFinalization(phase, j).0, None), Failure(ForeignHandle))
      else (Slots(phase, None), Success(j))
  }

  /** The second step of a cancel: take the handle of the recording that was cancelled. */
  function TakeForCancel(s: Slots, j: JobId): (Slots, Result<JobId, CaptureError>) {
    if s.slot.None? then (s, Failure(MissingHandle))
    else if s.slot.value != j then (s.(slot := None), Failure(ForeignHandle))
    else (s.(slot := None), Success(j))
  }

  class CaptureState {
    const coordinator: RecordingCoordinator
    var recording: Option<JobId>

    constructor ()
      ensures fresh(coordinator) && View() == Slots(Idle, None)
    {
      coordinator := new RecordingCoordinator();
      recording := None;
    }

    function View(): Slots
      reads this, coordinator
    {
      Slots(coordinator.capture, recording)
    }

    method CommitActiveRecording(j: JobId) returns (r: Result<Option<JobId>, CaptureError>)
      modifies this, coordinator
      ensures (View(), r) == CommitActive(old(View()), j)
    {
      if recording.Some? {
        return Failure(OccupiedSlot);
      }
      var commit := coordinator.Commit(j);
      match commit
      case Failure(e) => r := Failure(e);
      case Success(Committed) =>
        recording := Some(j);
        r := Success(None);
      case Success(CommitCancelled) => r := Success(Some(j));
    }

    method TakeActiveForFinalization() returns (r: Result<JobId, CaptureError>)
      modifies this, coordinator
      ensures (View(), r) == TakeForFinalization(old(View()))
    {
      var begun := coordinator.Begin();
      if begun.Failure? {
        return Failure(begun.error);
      }
      var active := recording;
      recording := None;
      if active.None? {
        var _ := coordinator.Release(begun.value);
        return Failure(MissingHandle);
      }
      if active.value != begun.value {
        var _ := coordinator.Release(begun.value);
        return Failure(ForeignHandle);
      }
      r := Success(active.value);
    }

    method TakeCancelled(j: JobId) returns (r: Result<JobId, CaptureError>)
      modifies this
      ensures (View(), r) == TakeForCancel(old(View()), j)
    {
      var active := recording;
      recording := None;
      if active.None? {
        return Failure(MissingHandle);
      }
      if active.value != j {
        return Failure(ForeignHandle);
      }
      r := Success(active.value);
    }
  }

  // ----- every interleaving of starts, stops and cancels -----

  datatype World = World(
    slots: Slots,
    used: set<JobId>,              // job ids handed out so far
    setup: set<JobId>,             // starts that have reserved but not opened a handle
    holding: set<JobId>,            // starts that hold their handle
    abandoning: set<JobId>,        // starts whose commit failed and that are about to abandon
    cancelling: multiset<JobId>,   // cancels between their two steps
    finalizing: multiset<JobId>,   // stops that hold a handle and have not released
    ended: set<JobId>,             // jobs whose handle is finished, or that never got one
    faults: set<CaptureError>)     // error branches that a correct run never takes

  datatype Action =
    | DoReserve(j: JobId)
    | DoOpen(j: JobId)
    | DoFailSetup(j: JobId)
    | DoCommit(j: JobId)
    | DoAbandon(j: JobId)
    | DoTakeForStop
    | DoRelease(j: JobId)
    | DoCancel
    | DoTakeForCancel(j: JobId)

  const INITIAL: World := World(Slots(Idle, None), {}, {}, {}, {}, multiset{}, multiset{}, {}, {})

  function StepReserve(w: World, j: JobId): World {
    var (phase, r) := ReserveStart(w.slots.phase, j);
    if j in w.used || r.Failure? then w
    else w.(slots := w.slots.(phase := phase), used := w.used + {j}, setup := w.setup + {j})
  }

  function StepFailSetup(w: World, j: JobId): World {
    if j !in w.setup + w.holding then w
    else
      w.(slots := w.slots.(phase := AbandonPreparation(w.slots.phase, j).0),
         setup := w.setup - {j}, holding := w.holding - {j}, ended := w.ended + {j})
  }

  function StepCommit(w: World, j: JobId): World {
    if j !in w.holding then w
    else
      var (slots, r) := CommitActive(w.slots, j);
      var next := w.(slots := slots, holding := w.holding - {j});
      match r
      case Failure(_) => next.(ended := w.ended + {j}, abandoning := w.abandoning + {j})
      case Success(None) => next
      case Success(Some(_)) => next.(ended := w.ended + {j})
  }

  function StepAbandon(w: World, j: JobId): World {
    if j !in w.abandoning then w
    else
      w.(slots := w.slots.(phase := AbandonPreparation(w.slots.phase, j).0), abandoning := w.abandoning - {j})
  }

  function StepTakeForStop(w: World): World {
    var (slots, r) := TakeForFinalization(w.slots);
    var next := w.(slots := slots);
    match r
    case Success(j) => next.(finalizing := w.finalizing + multiset{j})
    case Failure(e) => if e.MissingHandle? || e.ForeignHandle? then next.(faults := w.faults + {e}) else next
  }

  function StepRelease(w: World, j: JobId): World {
    if j !in w.finalizing then w
    else
      var (phase, r) := ReleaseFinalization(w.slots.phase, j);
      var next := w.(slots := w.slots.(phase := phase), finalizing := w.finalizing - multiset{j},
                     ended := w.ended + {j});
      if r.Failure? then next.(faults := w.faults + {r.error}) else next
  }

  function StepCancel(w: World): World {
    var (phase, cancelled) := CancelCapture(w.slots.phase);
    var next := w.(slots := w.slots.(phase := phase));
    if cancelled.Some? && cancelled.value.CancelledRecording? then
      next.(cancelling := w.cancelling + multiset{cancelled.value.jobId})
    else next
  }

  function StepTakeForCancel(w: World, j: JobId): World {
    if j !in w.cancelling then w
    else
      var (slots, r) := TakeForCancel(w.slots, j);
      var next := w.(slots := slots, cancelling := w.cancelling - multiset{j});
      match r
      case Success(_) => next.(ended := w.ended + {j})
      case Failure(e) => next.(faults := w.faults + {e})
  }

  /** One critical section of one command; an action that is not enabled changes nothing. */
  function Step(w: World, a: Action): World {
    match a
    case DoReserve(j) => StepReserve(w, j)
    case DoOpen(j) => if j in w.setup then w.(setup := w.setup - {j}, holding := w.holding + {j}) else w
    case DoFailSetup(j) => StepFailSetup(w, j)
    case DoCommit(j) => StepCommit(w, j)
    case DoAbandon(j) => StepAbandon(w, j)
    case DoTakeForStop => StepTakeForStop(w)
    case DoRelease(j) => StepRelease(w, j)
    case DoCancel => StepCancel(w)
    case DoTakeForCancel(j) => StepTakeForCancel(w, j)
  }

  function Run(w: World, actions: seq<Action>): World
    decreases |actions|
  {
    if actions == [] then w else Run(Step(w, actions[0]), actions[1..])
  }

  /** How many owners job `j`'s handle, or the promise of one, has. */
  function Owners(w: World, j: JobId): nat {
    (if j in w.setup then 1 else 0) + (if j in w.holding then 1 else 0) + (if w.slots.slot == Some(j) then 1 else 0)
    + w.finalizing[j] + (if j in w.ended then 1 else 0)
  }

  /** The slot holds `j` exactly when the coordinator records `j` or one cancel of `j` is pending. */
  predicate SlotExplained(w: World, j: JobId) {
    && (w.slots.slot == Some(j) <==> w.slots.phase == Recording(j) || w.cancelling[j] == 1)
    && w.cancelling[j] <= 1
    && (w.slots.phase == Recording(j) ==> w.cancelling[j] == 0)
  }

  /** What holds of one job: its handle has one owner, and a stop that holds it is the finalizing one. */
  predicate JobSafe(w: World, j: JobId) {
    && SlotExplained(w, j)
    && Owners(w, j) == (if j in w.used then 1 else 0)
    && w.finalizing[j] == (if w.slots.phase == Finalizing(j) then 1 else 0)
    && (j in w.abandoning ==> j in w.ended)
    && (w.slots.phase == Preparing(j) ==> j in w.setup + w.holding + w.abandoning)
  }

  ghost predicate Safe(w: World) {
    w.faults == {} && forall j :: JobSafe(w, j)
  }

  /** The jobs an action can touch: the one it names, the recorded one and the one in the slot. */
  predicate Focus(w: World, j: JobId) {
    && JobSafe(w, j)
    && (w.slots.slot.Some? ==> JobSafe(w, w.slots.slot.value))
    && (!w.slots.phase.Idle? ==> JobSafe(w, w.slots.phase.jobId))
  }

  lemma StartStepKeepsJob(w: World, a: Action, j: JobId)
    requires w.faults == {} && Focus(w, j)
    requires match a
             case DoReserve(k) => Focus(w, k)
             case DoOpen(k) => Focus(w, k)
             case DoFailSetup(k) => Focus(w, k)
             case DoCommit(k) => Focus(w, k)
             case DoAbandon(k) => Focus(w, k)
             case _ => false
    ensures Step(w, a).faults == {} && JobSafe(Step(w, a), j)
  {
  }

  lemma StopStepKeepsJob(w: World, a: Action, j: JobId)
    requires w.faults == {} && Focus(w, j)
    requires match a
             case DoTakeForStop => true
             case DoRelease(k) => Focus(w, k)
             case _ => false
    ensures Step(w, a).faults == {} && JobSafe(Step(w, a), j)
  {
  }

  lemma CancelStepKeepsJob(w: World, a: Action, j: JobId)
    requires w.faults == {} && Focus(w, j)
    requires match a
             case DoCancel => true
             case DoTakeForCancel(k) => Focus(w, k)
             case _ => false
    ensures Step(w, a).faults == {} && JobSafe(Step(w, a), j)
  {
  }

  lemma StepKeepsSafe(w: World, a: Action)
    requires Safe(w)
    ensures Safe(Step(w, a))
  {
    forall j ensures Step(w, a).faults == {} && JobSafe(Step(w, a), j) {
      assert Focus(w, j);
      match a
      case DoReserve(k) => StartStepKeepsJob(w, a, j);
      case DoOpen(k) => StartStepKeepsJob(w, a, j);
      case DoFailSetup(k) => StartStepKeepsJob(w, a, j);
      case DoCommit(k) => StartStepKeepsJob(w, a, j);
      case DoAbandon(k) => StartStepKeepsJob(w, a, j);
      case DoTakeForStop => StopStepKeepsJob(w, a, j);
      case DoRelease(k) => StopStepKeepsJob(w, a, j);
      case DoCancel => CancelStepKeepsJob(w, a, j);
      case DoTakeForCancel(k) => CancelStepKeepsJob(w, a, j);
    }
    assert JobSafe(Step(w, a), 0);
  }

  lemma {:induction false} RunsStaySafe(w: World, actions: seq<Action>)
    requires Safe(w)
    ensures Safe(Run(w, actions))
    decreases |actions|
  {
    if actions != [] {
      StepKeepsSafe(w, actions[0]);
      RunsStaySafe(Step(w, actions[0]), actions[1..]);
    }
  }

  /** The whole promise, for every interleaving of any number of starts, stops and cancels. */
  lemma CaptureIsSafe(actions: seq<Action>)
    ensures var w := Run(INITIAL, actions);
      && MissingHandle !in w.faults && ForeignHandle !in w.faults
      && (forall j: JobId :: w.slots.slot == Some(j) <==> w.slots.phase == Recording(j) || j in w.cancelling)
      && (forall j: JobId :: w.cancelling[j] <= 1)
      && (forall j, k :: j in w.cancelling && k in w.cancelling ==> j == k)
      && (forall j :: j in w.finalizing ==> ReleaseFinalization(w.slots.phase, j) == (Idle, Success(())))
      && (forall j :: Owners(w, j) == if j in w.used then 1 else 0)
  {
    var w := Run(INITIAL, actions);
    assert Safe(INITIAL);
    RunsStaySafe(INITIAL, actions);
    forall j: JobId ensures w.slots.slot == Some(j) <==> w.slots.phase == Recording(j) || j in w.cancelling {
      assert JobSafe(w, j);
    }
    forall j ensures w.cancelling[j] <= 1 && Owners(w, j) == if j in w.used then 1 else 0 {
      assert JobSafe(w, j);
    }
    forall j, k | j in w.cancelling && k in w.cancelling ensures j == k {
      assert JobSafe(w, j) && JobSafe(w, k);
    }
    forall j | j in w.finalizing ensures ReleaseFinalization(w.slots.phase, j) == (Idle, Success(())) {
      assert JobSafe(w, j);
    }
  }

  /** A prepared job finds the handle slot occupied exactly while another job's cancel is between its two steps. */
  lemma OccupiedExactlyDuringCancel(actions: seq<Action>, j: JobId)
    requires Run(INITIAL, actions).slots.phase == Preparing(j)
    ensures var w := Run(INITIAL, actions);
      CommitActive(w.slots, j).1 == Failure(OccupiedSlot) <==> exists k :: k in w.cancelling && k != j
    ensures var w := Run(INITIAL, actions);
      w.cancelling == multiset{} ==> CommitActive(w.slots, j) == (Slots(Recording(j), Some(j)), Success(None))
  {
    var w := Run(INITIAL, actions);
    assert Safe(INITIAL);
    RunsStaySafe(INITIAL, actions);
    assert JobSafe(w, j);
    if w.slots.slot.Some? {
      assert JobSafe(w, w.slots.slot.value);
    }
    if k :| k in w.cancelling && k != j {
      assert JobSafe(w, k);
    }
  }

  lemma {:induction false} RunConcat(w: World, a: seq<Action>, b: seq<Action>)
    ensures Run(w, a + b) == Run(Run(w, a), b)
    decreases |a|
  {
    if a == [] {
      assert a + b == b;
    } else {
      assert (a + b)[1..] == a[1..] + b;
      RunConcat(Step(w, a[0]), a[1..], b);
    }
  }

  lemma Extend(actions: seq<Action>, w: World, a: Action) returns (longer: seq<Action>, next: World)
    requires w == Run(INITIAL, actions)
    ensures longer == actions + [a] && next == Step(w, a) == Run(INITIAL, longer)
  {
    longer, next := actions + [a], Step(w, a);
    RunConcat(INITIAL, actions, [a]);
    assert [a][1..] == [];
  }

  /** Job 0 records and its cancel has only done the first step; job 1 has prepared meanwhile. */
  lemma OccupiedCanBeMet() returns (actions: seq<Action>, w: World)
    ensures w == Run(INITIAL, actions) && w.slots.phase == Preparing(1) && w.cancelling == multiset{0}
      && w.holding == {1}
    ensures CommitActive(w.slots, 1).1 == Failure(OccupiedSlot)
  {
    actions, w := [], INITIAL;
    actions, w := Extend(actions, w, DoReserve(0));
    actions, w := Extend(actions, w, DoOpen(0));
    actions, w := Extend(actions, w, DoCommit(0));
    assert w.slots == Slots(Recording(0), Some(0));
    actions, w := Extend(actions, w, DoCancel);
    assert w.slots == Slots(Idle, Some(0)) && w.cancelling == multiset{0};
    actions, w := Extend(actions, w, DoReserve(1));
    actions, w := Extend(actions, w, DoOpen(1));
  }

  // ----- what a stop achieves -----

  /** A stop succeeds exactly while a job records, and then it has the handle of that job; otherwise it changes
      nothing. */
  lemma StopExact(actions: seq<Action>)
    ensures var s := Run(INITIAL, actions).slots;
      match s.phase
      case Recording(j) => TakeForFinalization(s) == (Slots(Finalizing(j), None), Success(j))
      case _ => TakeForFinalization(s).0 == s && TakeForFinalization(s).1.Failure?
  {
    var w := Run(INITIAL, actions);
    assert Safe(INITIAL);
    RunsStaySafe(INITIAL, actions);
    if !w.slots.phase.Idle? { assert JobSafe(w, w.slots.phase.jobId); }
  }

  // ----- what a cancel achieves -----

  /** The job that the coordinator is busy with. */
  predicate Engaged(phase: CapturePhase, j: JobId) {
    phase == Preparing(j) || phase == Recording(j) || phase == Finalizing(j)
  }

  /** The job was handed out and the coordinator has nothing to do with it any more. */
  predicate LetGo(w: World, j: JobId) {
    j in w.used && !Engaged(w.slots.phase, j)
  }

  /** No transition but a reservation makes the coordinator busy with somebody it was not busy with. */
  lemma TransitionsEngageNobody(s: Slots, k: JobId, j: JobId)
    requires !Engaged(s.phase, j)
    ensures !Engaged(CommitActive(s, k).0.phase, j) && !Engaged(TakeForFinalization(s).0.phase, j)
    ensures !Engaged(AbandonPreparation(s.phase, k).0, j) && !Engaged(ReleaseFinalization(s.phase, k).0, j)
    ensures !Engaged(CancelCapture(s.phase).0, j) && !Engaged(TakeForCancel(s, k).0.phase, j)
  {
  }

  lemma UsedStaysUsed(w: World, a: Action, j: JobId)
    requires j in w.used
    ensures j in Step(w, a).used
  {
  }

  lemma StepKeepsLetGo(w: World, a: Action, j: JobId)
    requires LetGo(w, j)
    ensures LetGo(Step(w, a), j)
  {
    UsedStaysUsed(w, a, j);
    match a
    case DoReserve(k) => assert Step(w, a) == StepReserve(w, k);
    case DoOpen(k) =>
    case DoFailSetup(k) => TransitionsEngageNobody(w.slots, k, j);
    case DoCommit(k) => TransitionsEngageNobody(w.slots, k, j);
    case DoAbandon(k) => TransitionsEngageNobody(w.slots, k, j);
    case DoTakeForStop => TransitionsEngageNobody(w.slots, 0, j);
    case DoRelease(k) => TransitionsEngageNobody(w.slots, k, j);
    case DoCancel => TransitionsEngageNobody(w.slots, 0, j);
    case DoTakeForCancel(k) => TransitionsEngageNobody(w.slots, k, j);
  }

  lemma {:induction false} LetGoForGood(w: World, actions: seq<Action>, j: JobId)
    requires LetGo(w, j)
    ensures LetGo(Run(w, actions), j)
    decreases |actions|
  {
    if actions != [] {
      StepKeepsLetGo(w, actions[0], j);
      LetGoForGood(Step(w, actions[0]), actions[1..], j);
    }
  }

  lemma EngagedIsUsed(actions: seq<Action>, j: JobId)
    requires Engaged(Run(INITIAL, actions).slots.phase, j)
    ensures j in Run(INITIAL, actions).used
  {
    assert Safe(INITIAL);
    RunsStaySafe(INITIAL, actions);
    assert JobSafe(Run(INITIAL, actions), j);
  }

  /** The commit of a job that was let go never publishes anything: its handle goes back to it, or the commit fails. */
  lemma LetGoCommitsNothing(w: World, j: JobId)
    requires Safe(w) && LetGo(w, j) && j in w.holding
    ensures CommitActive(w.slots, j).0 == w.slots && CommitActive(w.slots, j).1 != Success(None)
    ensures w.slots == Slots(Idle, None) ==> CommitActive(w.slots, j).1 == Success(Some(j))
    ensures j in Step(w, DoCommit(j)).ended
  {
  }

  /** A cancel that meets a job before its finalization leaves the microphone free at once, and in no continuation does
      that job prepare, record or finalize again; a handle it opens all the same is never published. */
  lemma CancelStops(before: seq<Action>, after: seq<Action>, j: JobId)
    requires var phase := Run(INITIAL, before).slots.phase; phase == Preparing(j) || phase == Recording(j)
    ensures Step(Run(INITIAL, before), DoCancel).slots.phase == Idle
    ensures var w := Run(Step(Run(INITIAL, before), DoCancel), after);
      !Engaged(w.slots.phase, j)
      && (j in w.holding ==>
            CommitActive(w.slots, j).0 == w.slots && CommitActive(w.slots, j).1 != Success(None)
            && (w.slots == Slots(Idle, None) ==> CommitActive(w.slots, j).1 == Success(Some(j))))
  {
    var w := Run(INITIAL, before);
    assert Safe(INITIAL);
    RunsStaySafe(INITIAL, before);
    EngagedIsUsed(before, j);
    StepKeepsSafe(w, DoCancel);
    var next := Step(w, DoCancel);
    RunsStaySafe(next, after);
    LetGoForGood(next, after, j);
    if j in Run(next, after).holding { LetGoCommitsNothing(Run(next, after), j); }
  }

  /** What a cancel reports is what it did: nobody, a start that will get its handle back, a recording whose handle
      it takes next, or a finalization that goes on. */
  lemma CancelReports(actions: seq<Action>)
    ensures var w := Run(INITIAL, actions);
      var (phase, report) := CancelCapture(w.slots.phase);
      match report
      case None => w.slots.phase == Idle == phase
      case Some(CancelledPreparing(j)) => w.slots.phase == Preparing(j) && phase == Idle && w.slots.slot != Some(j)
      case Some(CancelledRecording(j)) =>
        w.slots.phase == Recording(j) && phase == Idle
        && TakeForCancel(w.slots.(phase := phase), j) == (Slots(Idle, None), Success(j))
      case Some(CancelledFinalizing(j)) =>
        w.slots.phase == Finalizing(j) == phase && ReleaseFinalization(phase, j) == (Idle, Success(()))
  {
    var w := Run(INITIAL, actions);
    assert Safe(INITIAL);
    RunsStaySafe(INITIAL, actions);
    if !w.slots.phase.Idle? { assert JobSafe(w, w.slots.phase.jobId); }
  }

  /** A start is cancelled while it opens the device: its commit gives the handle back and nothing records. */
  lemma CancelledStartGetsHandleBack() returns (actions: seq<Action>, w: World)
    ensures w == Run(INITIAL, actions) && DoCancel in actions && w.holding == {5}
    ensures CommitActive(w.slots, 5) == (Slots(Idle, None), Success(Some(5)))
  {
    actions, w := [], INITIAL;
    actions, w := Extend(actions, w, DoReserve(5));
    actions, w := Extend(actions, w, DoCancel);
    assert w.slots == Slots(Idle, None) && w.setup == {5};
    actions, w := Extend(actions, w, DoOpen(5));
  }

  // ----- a handle never comes back -----

  /** How far a job's handle has travelled: not yet, with the start, in the slot, with a stop, finished. */
  function Stage(w: World, j: JobId): nat {
    if j in w.ended then 4
    else if j in w.finalizing then 3
    else if w.slots.slot == Some(j) then 2
    else if j in w.setup + w.holding then 1
    else 0
  }

  lemma StartAdvances(w: World, a: Action, j: JobId)
    requires Focus(w, j)
    requires match a
             case DoReserve(k) => Focus(w, k)
             case DoOpen(k) => Focus(w, k)
             case DoFailSetup(k) => Focus(w, k)
             case DoCommit(k) => Focus(w, k)
             case DoAbandon(k) => Focus(w, k)
             case _ => false
    ensures Stage(w, j) <= Stage(Step(w, a), j)
  {
  }

  lemma EndAdvances(w: World, a: Action, j: JobId)
    requires Focus(w, j)
    requires match a
             case DoTakeForStop => true
             case DoRelease(k) => Focus(w, k)
             case DoCancel => true
             case DoTakeForCancel(k) => Focus(w, k)
             case _ => false
    ensures Stage(w, j) <= Stage(Step(w, a), j)
  {
  }

  lemma StageAdvances(w: World, a: Action, j: JobId)
    requires Safe(w)
    ensures Stage(w, j) <= Stage(Step(w, a), j)
  {
    assert Focus(w, j);
    match a
    case DoReserve(k) => assert Focus(w, k); StartAdvances(w, a, j);
    case DoOpen(k) => assert Focus(w, k); StartAdvances(w, a, j);
    case DoFailSetup(k) => assert Focus(w, k); StartAdvances(w, a, j);
    case DoCommit(k) => assert Focus(w, k); StartAdvances(w, a, j);
    case DoAbandon(k) => assert Focus(w, k); StartAdvances(w, a, j);
    case DoTakeForStop => EndAdvances(w, a, j);
    case DoRelease(k) => assert Focus(w, k); EndAdvances(w, a, j);
    case DoCancel => EndAdvances(w, a, j);
    case DoTakeForCancel(k) => assert Focus(w, k); EndAdvances(w, a, j);
  }

  /** Once taken from the slot a handle is never in it again, so exactly one stop or cancel gets it. */
  lemma {:induction false} TakenOnce(w: World, actions: seq<Action>, j: JobId)
    requires Safe(w)
    ensures Stage(w, j) <= Stage(Run(w, actions), j)
    ensures Stage(w, j) >= 3 ==> Run(w, actions).slots.slot != Some(j)
    decreases |actions|
  {
    if actions == [] {
      assert JobSafe(w, j);
    } else {
      StageAdvances(w, actions[0], j);
      StepKeepsSafe(w, actions[0]);
      TakenOnce(Step(w, actions[0]), actions[1..], j);
    }
  }
}
