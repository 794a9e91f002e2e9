/** The one-job processing slot, the one-job queue in front of it, and the notification between them. */
module Processing {
  import opened Results

  type JobId = nat

  datatype SlotError = QueueFull | OwnershipViolation(owner: JobId) | StateMissing

  // ----- the critical sections -----

  function TryReserve(processing: Option<JobId>, j: JobId): (Option<JobId>, bool) {
    if processing.None? then (Some(j), true) else (processing, false)
  }

  function Enqueue(queued: Option<JobId>, j: JobId): (Option<JobId>, Result<(), SlotError>) {
    if queued.Some? then (queued, Failure(QueueFull)) else (Some(j), Success(()))
  }

  /** Empties a slot on behalf of its owner only. */
  function ClearOwned(slot: Option<JobId>, j: JobId): (Option<JobId>, Result<(), SlotError>) {
    if slot == Some(j) then (None, Success(()))
    else if slot.Some? then (slot, Failure(OwnershipViolation(slot.value)))
    else (slot, Failure(StateMissing))
  }

  class DesktopState {
    var processing: Option<JobId>
    var queued: Option<JobId>
    var cancelled: set<JobId>

    constructor ()
      ensures processing == None && queued == None && cancelled == {}
    {
      processing, queued, cancelled := None, None, {};
    }

    /** The reservation attempt of one pass through the waiting loop. */
    method TryReserveProcessing(j: JobId) returns (reserved: bool)
      modifies this`processing
      ensures (processing, reserved) == TryReserve(old(processing), j)
    {
      reserved := processing.None?;
      if reserved {
        processing := Some(j);
      }
    }

    method EnqueueJob(j: JobId) returns (r: Result<(), SlotError>)
      modifies this`queued
      ensures (queued, r) == Enqueue(old(queued), j)
    {
      if queued.Some? {
        return Failure(QueueFull);
      }
      queued := Some(j);
      r := Success(());
    }

    method ClearQueuedJob(j: JobId) returns (r: Result<(), SlotError>)
      modifies this`queued
      ensures (queued, r) == ClearOwned(old(queued), j)
    {
      match queued
      case None => r := Failure(StateMissing);
      case Some(owner) =>
        if owner == j {
          queued := None;
          r := Success(());
        } else {
          r := Failure(OwnershipViolation(owner));
        }
    }

    method CancelQueuedJob() returns (r: Option<JobId>)
      modifies this`cancelled
      ensures r == queued
      ensures cancelled == old(cancelled) + if queued.Some? then {queued.value} else {}
    {
      r := queued;
      if queued.Some? {
        cancelled := cancelled + {queued.value};
      }
    }

    method ClearProcessing(j: JobId) returns (r: Result<(), SlotError>)
      modifies this`processing
      ensures (processing, r) == ClearOwned(old(processing), j)
    {
      match processing
      case None => r := Failure(StateMissing);
      case Some(owner) =>
        if owner == j {
          processing := None;
          r := Success(());
        } else {
          r := Failure(OwnershipViolation(owner));
        }
    }
  }

  // ----- jobs in the waiting loop -----

  /** Where a job stands; `inQueue` is its local flag, `woken` says it consumed a notification for this pass. */
  datatype Position =
    | Check(inQueue: bool, woken: bool)   // top of the loop, about to look at its cancellation
    | Attempt(inQueue: bool, woken: bool) // interest registered, about to try the slot
    | Joining                             // slot was busy, about to join the queue
    | Polling                             // about to poll notification and cancellation
    | Waiting                             // registered with the notifier
    | Signalled                           // handed a notification, not yet resumed
    | LeavingQueue                        // has the slot, about to clear its queue entry
    | GivingUp                            // cancelled, about to clear its queue entry
    | Holding                             // the reservation returned
    | Rejected(error: SlotError)          // queue full
    | Stopped                             // cancelled before inference

  datatype World = World(
    processing: Option<JobId>,
    queued: Option<JobId>,
    cancelled: set<JobId>,
    permit: bool,              // a stored notification
    waiters: seq<JobId>,       // registered waiters, oldest first
    notices: nat,              // releases that have cleared the slot and not notified yet
    jobs: map<JobId, Position>,
    reservations: nat,
    clears: nat,
    broken: bool)              // a job found its own queue entry missing

  datatype Action =
    | DoArrive(j: JobId)
    | DoAdvance(j: JobId, cancellationFirst: bool)
    | DoClear(j: JobId)
    | DoNotify
    | DoCancelQueued

  const INITIAL: World := World(None, None, {}, false, [], 0, map[], 0, 0, false)

  /** `notify_one`: wakes the oldest waiter, or stores one permit. */
  function NotifyOne(w: World): World {
    if w.waiters == [] then w.(permit := true)
    else w.(waiters := w.waiters[1..], jobs := w.jobs[w.waiters[0] := Signalled])
  }

  function Without(waiters: seq<JobId>, j: JobId): seq<JobId> {
    if waiters == [] then []
    else if waiters[0] == j then Without(waiters[1..], j)
    else [waiters[0]] + Without(waiters[1..], j)
  }

  function Move(w: World, j: JobId, p: Position): World {
    w.(jobs := w.jobs[j := p])
  }

  function LeaveQueue(w: World, j: JobId, p: Position): World {
    var (queued, r) := ClearOwned(w.queued, j);
    Move(w, j, p).(queued := queued, broken := w.broken || r.Failure?)
  }

  function AdvanceCheck(w: World, j: JobId, inQueue: bool, woken: bool): World {
    if j !in w.cancelled then Move(w, j, Attempt(inQueue, woken))
    else Move(w, j, if inQueue then GivingUp else Stopped)
  }

  function AdvanceAttempt(w: World, j: JobId, inQueue: bool): World {
    var (processing, reserved) := TryReserve(w.processing, j);
    if reserved then
      var next := w.(processing := processing, reservations := w.reservations + 1);
      Move(next, j, if inQueue then LeavingQueue else Holding)
    else Move(w, j, if inQueue then Polling else Joining)
  }

  function AdvanceJoining(w: World, j: JobId): World {
    var (queued, r) := Enqueue(w.queued, j);
    if r.Failure? then Move(w, j, Rejected(r.error)) else Move(w, j, Polling).(queued := queued)
  }

  /** `select!`: of two ready branches either may be taken; a dropped, signalled future passes its notification on. */
  function AdvancePolling(w: World, j: JobId, cancellationFirst: bool): World {
    if w.permit && (j !in w.cancelled || !cancellationFirst) then Move(w, j, Check(true, true)).(permit := false)
    else if j in w.cancelled then Move(w, j, Check(true, false))
    else Move(w, j, Waiting).(waiters := w.waiters + [j])
  }

  function AdvanceSignalled(w: World, j: JobId, cancellationFirst: bool): World {
    if j in w.cancelled && cancellationFirst then NotifyOne(Move(w, j, Check(true, false)))
    else Move(w, j, Check(true, true))
  }

  function AdvanceWaiting(w: World, j: JobId): World {
    if j in w.cancelled then Move(w, j, Check(true, false)).(waiters := Without(w.waiters, j)) else w
  }

  function Advance(w: World, j: JobId, cancellationFirst: bool): World {
    if j !in w.jobs then w
    else
      match w.jobs[j]
      case Check(inQueue, woken) => AdvanceCheck(w, j, inQueue, woken)
      case Attempt(inQueue, _) => AdvanceAttempt(w, j, inQueue)
      case Joining => AdvanceJoining(w, j)
      case Polling => AdvancePolling(w, j, cancellationFirst)
      case Waiting => AdvanceWaiting(w, j)
      case Signalled => AdvanceSignalled(w, j, cancellationFirst)
      case LeavingQueue => LeaveQueue(w, j, Holding)
      case GivingUp => LeaveQueue(w, j, Stopped)
      case _ => w
  }

  /** Anyone may try to clear the slot for any job: its owner, or a cancel that remembered it, however late. */
  function Clear(w: World, j: JobId): World {
    var (processing, r) := ClearOwned(w.processing, j);
    if r.Failure? then w
    else w.(processing := processing, clears := w.clears + 1, notices := w.notices + 1)
  }

  function Step(w: World, a: Action): World {
    match a
    case DoArrive(j) => if j in w.jobs then w else Move(w, j, Check(false, false))
    case DoAdvance(j, cancellationFirst) => Advance(w, j, cancellationFirst)
    case DoClear(j) => Clear(w, j)
    case DoNotify => if w.notices == 0 then w else NotifyOne(w.(notices := w.notices - 1))
    case DoCancelQueued => if w.queued.Some? then w.(cancelled := w.cancelled + {w.queued.value}) else w
  }

  function Run(w: World, actions: seq<Action>): World
    decreases |actions|
  {
    if actions == [] then w else Run(Step(w, actions[0]), actions[1..])
  }

  // ----- what every run keeps -----

  predicate InQueue(p: Position) {
    match p
    case Check(inQueue, _) => inQueue
    case Attempt(inQueue, _) => inQueue
    case Polling => true
    case Waiting => true
    case Signalled => true
    case LeavingQueue => true
    case GivingUp => true
    case _ => false
  }

  /** Holds a notification that it has not acted on yet. */
  predicate Alert(p: Position) {
    p.Signalled? || (p.Check? && p.woken) || (p.Attempt? && p.woken)
  }

  /** Saw the slot busy and relies on a notification to look again. */
  predicate Relies(p: Position) {
    p.Joining? || p.Polling? || p.Waiting?
  }

  ghost predicate SomeoneAlert(w: World) {
    exists j :: j in w.jobs && Alert(w.jobs[j])
  }

  ghost predicate WaitersTracked(w: World) {
    && (forall k :: 0 <= k < |w.waiters| ==> w.waiters[k] in w.jobs && w.jobs[w.waiters[k]] == Waiting)
    && (forall j :: j in w.jobs && w.jobs[j] == Waiting ==> j in w.waiters)
    && |w.waiters| <= 1
    && (w.permit ==> w.waiters == [])
  }

  ghost predicate QueueTracked(w: World) {
    && !w.broken
    && (forall j :: j in w.jobs && InQueue(w.jobs[j]) ==> w.queued == Some(j))
    && (w.queued.Some? ==> w.queued.value in w.jobs && InQueue(w.jobs[w.queued.value]))
  }

  ghost predicate SlotTracked(w: World) {
    && w.reservations - w.clears == (if w.processing.Some? then 1 else 0)
    && (w.processing.Some? ==>
          w.processing.value in w.jobs
          && (w.jobs[w.processing.value].LeavingQueue? || w.jobs[w.processing.value].Holding?))
  }

  ghost predicate Safe(w: World) {
    WaitersTracked(w) && QueueTracked(w) && SlotTracked(w)
  }

  ghost predicate SomeoneRelies(w: World) {
    exists j :: j in w.jobs && Relies(w.jobs[j])
  }

  /** The slot is free, a job relies on a notification, and none is stored, owed or in anybody's hands. */
  ghost predicate Stranded(w: World) {
    w.processing.None? && SomeoneRelies(w) && !w.permit && w.notices == 0 && !SomeoneAlert(w)
  }

  // ----- one job moves -----

  lemma MoveKeeps(w: World, j: JobId, p: Position)
    requires Safe(w) && j in w.jobs && !w.jobs[j].Waiting? && !p.Waiting?
    requires InQueue(p) == InQueue(w.jobs[j])
    requires w.processing == Some(j) ==> p.LeavingQueue? || p.Holding?
    ensures Safe(Move(w, j, p))
  {
  }

  lemma NotifyKeeps(w: World)
    requires Safe(w)
    ensures Safe(NotifyOne(w)) && !Stranded(NotifyOne(w))
  {
    if w.waiters != [] {
      var j := w.waiters[0];
      assert j in w.jobs && w.jobs[j] == Waiting;
      assert w.waiters == [j];
      assert Alert(NotifyOne(w).jobs[j]);
    }
  }

  lemma CheckKeeps(w: World, j: JobId)
    requires Safe(w) && j in w.jobs && w.jobs[j].Check?
    ensures Safe(AdvanceCheck(w, j, w.jobs[j].inQueue, w.jobs[j].woken))
  {
    var inQueue, woken := w.jobs[j].inQueue, w.jobs[j].woken;
    var p := if j !in w.cancelled then Attempt(inQueue, woken) else if inQueue then GivingUp else Stopped;
    MoveKeeps(w, j, p);
  }

  lemma AttemptKeeps(w: World, j: JobId)
    requires Safe(w) && j in w.jobs && w.jobs[j].Attempt?
    ensures Safe(AdvanceAttempt(w, j, w.jobs[j].inQueue))
  {
    var inQueue := w.jobs[j].inQueue;
    var next := AdvanceAttempt(w, j, inQueue);
    MoveKeeps(w, j, next.jobs[j]);
    assert next.jobs == Move(w, j, next.jobs[j]).jobs;
  }

  lemma JoiningKeeps(w: World, j: JobId)
    requires Safe(w) && j in w.jobs && w.jobs[j].Joining?
    ensures Safe(AdvanceJoining(w, j))
  {
    var next := AdvanceJoining(w, j);
    if w.queued.Some? {
      MoveKeeps(w, j, next.jobs[j]);
      assert next == Move(w, j, next.jobs[j]);
    } else {
      JoinsEmptyQueue(w, j);
    }
  }

  /** With nobody queued a joining job becomes the only one in the queue. */
  lemma JoinsEmptyQueue(w: World, j: JobId)
    requires Safe(w) && j in w.jobs && w.jobs[j].Joining? && w.queued.None?
    ensures Safe(AdvanceJoining(w, j))
  {
    var next := AdvanceJoining(w, j);
    assert forall k :: k in w.jobs ==> !InQueue(w.jobs[k]);
    assert next.jobs == w.jobs[j := Polling] && next.queued == Some(j) && next.waiters == w.waiters;
  }

  lemma NobodyElseWaits(w: World, j: JobId)
    requires Safe(w) && j in w.jobs && InQueue(w.jobs[j])
    ensures w.waiters == if w.jobs[j].Waiting? then [j] else []
  {
    if w.waiters != [] {
      assert InQueue(w.jobs[w.waiters[0]]) && w.waiters[0] == j;
    }
  }

  lemma PollingKeeps(w: World, j: JobId, first: bool)
    requires Safe(w) && j in w.jobs && w.jobs[j].Polling?
    ensures Safe(AdvancePolling(w, j, first))
  {
    var next := AdvancePolling(w, j, first);
    NobodyElseWaits(w, j);
    if next.jobs[j].Waiting? {
      assert next.waiters == [j];
    } else {
      MoveKeeps(w, j, next.jobs[j]);
      assert next.jobs == Move(w, j, next.jobs[j]).jobs;
    }
  }

  lemma WaitingKeeps(w: World, j: JobId)
    requires Safe(w) && j in w.jobs && w.jobs[j].Waiting?
    ensures Safe(AdvanceWaiting(w, j))
  {
    var next := AdvanceWaiting(w, j);
    NobodyElseWaits(w, j);
    assert Without(w.waiters, j) == [];
  }

  lemma SignalledKeeps(w: World, j: JobId, first: bool)
    requires Safe(w) && j in w.jobs && w.jobs[j].Signalled?
    ensures Safe(AdvanceSignalled(w, j, first))
  {
    MoveKeeps(w, j, Check(true, false));
    MoveKeeps(w, j, Check(true, true));
    NotifyKeeps(Move(w, j, Check(true, false)));
  }

  lemma LeaveKeeps(w: World, j: JobId)
    requires Safe(w) && j in w.jobs && (w.jobs[j].LeavingQueue? || w.jobs[j].GivingUp?)
    ensures Safe(LeaveQueue(w, j, if w.jobs[j].LeavingQueue? then Holding else Stopped))
  {
    var next := LeaveQueue(w, j, if w.jobs[j].LeavingQueue? then Holding else Stopped);
    assert InQueue(w.jobs[j]) && w.queued == Some(j);
  }

  lemma AdvanceKeeps(w: World, j: JobId, first: bool)
    requires Safe(w)
    ensures Safe(Advance(w, j, first))
  {
    if j in w.jobs {
      match w.jobs[j]
      case Check(_, _) => CheckKeeps(w, j);
      case Attempt(_, _) => AttemptKeeps(w, j);
      case Joining => JoiningKeeps(w, j);
      case Polling => PollingKeeps(w, j, first);
      case Waiting => WaitingKeeps(w, j);
      case Signalled => SignalledKeeps(w, j, first);
      case LeavingQueue => LeaveKeeps(w, j);
      case GivingUp => LeaveKeeps(w, j);
      case _ =>
    }
  }

  lemma StepKeepsSafe(w: World, a: Action)
    requires Safe(w)
    ensures Safe(Step(w, a))
  {
    match a
    case DoArrive(j) =>
    case DoAdvance(j, first) => AdvanceKeeps(w, j, first);
    case DoClear(j) =>
    case DoNotify => if w.notices > 0 { NotifyKeeps(w.(notices := w.notices - 1)); }
    case DoCancelQueued =>
  }

  lemma {:induction false} RunsStaySafe(w: World, actions: seq<Action>)
    requires Safe(w)
    ensures Safe(Run(w, actions))
    decreases |actions|
  {
    if actions != [] {
      StepKeepsSafe(w, actions[0]);
      RunsStaySafe(Step(w, actions[0]), actions[1..]);
    }
  }

  lemma Reached(actions: seq<Action>, w: World)
    requires w == Run(INITIAL, actions)
    ensures Safe(w)
  {
    RunsStaySafe(INITIAL, actions);
  }

  // ----- the promises, over every run -----

  /** A clear takes effect exactly for the job in the slot. */
  lemma ClearExact(w: World, j: JobId)
    ensures Step(w, DoClear(j)).processing != w.processing <==> w.processing == Some(j)
    ensures w.processing != Some(j) ==> Step(w, DoClear(j)) == w
  {
  }

  /** Slot ownership, for any number of jobs and any late or foreign release. */
  lemma SlotIsOwned(actions: seq<Action>, w: World, j: JobId)
    requires w == Run(INITIAL, actions)
    ensures w.reservations - w.clears == (if w.processing.Some? then 1 else 0)
    ensures Step(w, DoClear(j)).processing != w.processing <==> w.processing == Some(j)
    ensures w.processing != Some(j) ==> Step(w, DoClear(j)) == w
    ensures w.processing == Some(j) ==> j in w.jobs && (w.jobs[j].LeavingQueue? || w.jobs[j].Holding?)
  {
    ClearExact(w, j);
    SlotOf(actions, w);
  }

  lemma SlotOf(actions: seq<Action>, w: World)
    requires w == Run(INITIAL, actions)
    ensures SlotTracked(w)
  {
    Reached(actions, w);
  }

  /** At most one job is queued, and clearing one's own queue entry never fails. */
  lemma QueueHoldsOne(actions: seq<Action>, w: World, j: JobId)
    requires w == Run(INITIAL, actions)
    ensures !w.broken && |w.waiters| <= 1
    ensures w.queued == Some(j) <==> j in w.jobs && InQueue(w.jobs[j])
  {
    Reached(actions, w);
  }

  // ----- exactly which step strands a job -----

  ghost predicate OnlyAlert(w: World, j: JobId) {
    forall k :: k in w.jobs && Alert(w.jobs[k]) ==> k == j
  }

  /** A cancelled job at the top of its loop is about to give up with the only notification for a free slot. */
  ghost predicate Swallows(w: World, a: Action) {
    && a.DoAdvance? && a.j in w.jobs && w.jobs[a.j].Check? && w.jobs[a.j].woken && a.j in w.cancelled
    && w.processing.None? && SomeoneRelies(w) && !w.permit && w.notices == 0 && OnlyAlert(w, a.j)
  }

  /** A move strands nobody when the job keeps its alert or leaves a permit and does not start to rely on one. */
  lemma MoveHelps(w: World, next: World, j: JobId)
    requires !Stranded(w) && j in w.jobs && j in next.jobs && next.jobs == w.jobs[j := next.jobs[j]]
    requires w.processing.None? || next.processing.Some?
    requires w.permit ==> next.permit || Alert(next.jobs[j])
    requires next.notices == w.notices
    requires Alert(w.jobs[j]) ==> Alert(next.jobs[j]) || next.permit || next.processing.Some?
    requires Relies(next.jobs[j]) ==> Relies(w.jobs[j]) || next.processing.Some?
    ensures !Stranded(next)
  {
    if next.processing.None? && SomeoneRelies(next) {
      var k :| k in next.jobs && Relies(next.jobs[k]);
      assert k in w.jobs && Relies(w.jobs[k]);
      if SomeoneAlert(w) {
        var m :| m in w.jobs && Alert(w.jobs[m]);
        assert m in next.jobs && (m != j ==> Alert(next.jobs[m]));
      }
      if Alert(next.jobs[j]) { assert SomeoneAlert(next); }
    }
  }

  /** A cancelled, notified job leaves its loop: the others are stranded exactly when nothing else helps them. */
  lemma GivingUpStrands(w: World, next: World, j: JobId)
    requires !Stranded(w) && j in w.jobs && j in next.jobs && next == w.(jobs := w.jobs[j := next.jobs[j]])
    requires Alert(w.jobs[j]) && !Alert(next.jobs[j]) && !Relies(w.jobs[j]) && !Relies(next.jobs[j])
    ensures Stranded(next) <==>
      w.processing.None? && SomeoneRelies(w) && !w.permit && w.notices == 0 && OnlyAlert(w, j)
  {
    if SomeoneRelies(w) {
      var k :| k in w.jobs && Relies(w.jobs[k]);
      assert k in next.jobs && Relies(next.jobs[k]);
    }
    if SomeoneRelies(next) {
      var k :| k in next.jobs && Relies(next.jobs[k]);
      assert k in w.jobs && Relies(w.jobs[k]);
    }
    if SomeoneAlert(next) {
      var m :| m in next.jobs && Alert(next.jobs[m]);
      assert m in w.jobs && Alert(w.jobs[m]) && m != j;
    }
    if m :| m in w.jobs && Alert(w.jobs[m]) && m != j {
      assert m in next.jobs && Alert(next.jobs[m]);
    }
  }

  lemma CheckStrands(w: World, j: JobId, first: bool)
    requires Safe(w) && !Stranded(w) && j in w.jobs && w.jobs[j].Check?
    ensures Stranded(Advance(w, j, first)) <==> Swallows(w, DoAdvance(j, first))
  {
    var next := Advance(w, j, first);
    if j in w.cancelled && w.jobs[j].woken {
      GivingUpStrands(w, next, j);
    } else {
      MoveHelps(w, next, j);
    }
  }

  lemma SignalledHelps(w: World, j: JobId, first: bool)
    requires Safe(w) && !Stranded(w) && j in w.jobs && w.jobs[j].Signalled?
    ensures !Stranded(AdvanceSignalled(w, j, first))
  {
    if j in w.cancelled && first {
      MoveKeeps(w, j, Check(true, false));
      NotifyKeeps(Move(w, j, Check(true, false)));
    } else {
      MoveHelps(w, Move(w, j, Check(true, true)), j);
    }
  }

  lemma AdvanceStrands(w: World, j: JobId, first: bool)
    requires Safe(w) && !Stranded(w) && j in w.jobs
    ensures Stranded(Advance(w, j, first)) <==> Swallows(w, DoAdvance(j, first))
  {
    if w.jobs[j].Check? {
      CheckStrands(w, j, first);
    } else if w.jobs[j].Signalled? {
      SignalledHelps(w, j, first);
    } else {
      MoveHelps(w, Advance(w, j, first), j);
    }
  }

  lemma ArriveHelps(w: World, j: JobId)
    requires !Stranded(w) && j !in w.jobs
    ensures !Stranded(Move(w, j, Check(false, false)))
  {
    var next := Move(w, j, Check(false, false));
    if k :| k in w.jobs && Alert(w.jobs[k]) { assert k in next.jobs && Alert(next.jobs[k]); }
    if k :| k in next.jobs && Relies(next.jobs[k]) { assert k in w.jobs && Relies(w.jobs[k]); }
  }

  lemma CancelHelps(w: World)
    requires !Stranded(w)
    ensures !Stranded(Step(w, DoCancelQueued))
  {
    var next := Step(w, DoCancelQueued);
    if k :| k in w.jobs && Alert(w.jobs[k]) { assert k in next.jobs && Alert(next.jobs[k]); }
    if k :| k in next.jobs && Relies(next.jobs[k]) { assert k in w.jobs && Relies(w.jobs[k]); }
  }

  /** In every run a step strands somebody if and only if a cancelled job gives up with the only notification. */
  lemma StrandsExactly(actions: seq<Action>, w: World, a: Action)
    requires w == Run(INITIAL, actions) && !Stranded(w)
    ensures Stranded(Step(w, a)) <==> Swallows(w, a)
  {
    Reached(actions, w);
    match a
    case DoArrive(j) => if j !in w.jobs { ArriveHelps(w, j); }
    case DoAdvance(j, first) => if j in w.jobs { AdvanceStrands(w, j, first); }
    case DoClear(j) =>
    case DoNotify => if w.notices > 0 { NotifyKeeps(w.(notices := w.notices - 1)); }
    case DoCancelQueued => CancelHelps(w);
  }

  ghost predicate SwallowsAt(actions: seq<Action>, k: nat) {
    k < |actions| && Swallows(Run(INITIAL, actions[..k]), actions[k])
  }

  ghost predicate StrandedSince(actions: seq<Action>, k: nat) {
    forall m: nat :: k < m <= |actions| ==> Stranded(Run(INITIAL, actions[..m]))
  }

  lemma SinceExtends(actions: seq<Action>, last: Action, k: nat)
    requires SwallowsAt(actions, k) && StrandedSince(actions, k) && Stranded(Run(INITIAL, actions + [last]))
    ensures SwallowsAt(actions + [last], k) && StrandedSince(actions + [last], k)
  {
    var longer := actions + [last];
    assert longer[..k] == actions[..k] && longer[k] == actions[k];
    forall m: nat | k < m <= |longer| ensures Stranded(Run(INITIAL, longer[..m])) {
      if m <= |actions| { assert longer[..m] == actions[..m]; } else { assert longer[..m] == longer; }
    }
  }

  /** A stranded state always goes back to such a step, with somebody stranded ever since. */
  lemma {:induction false} NobodyStranded(actions: seq<Action>, w: World)
    requires w == Run(INITIAL, actions)
    ensures Stranded(w) ==> exists k: nat :: SwallowsAt(actions, k) && StrandedSince(actions, k)
    decreases |actions|
  {
    if actions != [] && Stranded(w) {
      var n := |actions| - 1;
      var before, last := actions[..n], actions[n];
      assert actions == before + [last];
      RunConcat(INITIAL, before, [last]);
      var earlier := Run(INITIAL, before);
      assert [last][1..] == [] && w == Step(earlier, last);
      NobodyStranded(before, earlier);
      if Stranded(earlier) {
        var k: nat :| SwallowsAt(before, k) && StrandedSince(before, k);
        SinceExtends(before, last, k);
      } else {
        StrandsExactly(before, earlier, last);
        assert SwallowsAt(actions, n) && actions[..|actions|] == actions;
        assert StrandedSince(actions, n);
      }
    }
  }

  lemma StepCancelsNobody(w: World, a: Action)
    requires w.cancelled == {} && a != DoCancelQueued
    ensures Step(w, a).cancelled == {}
  {
  }

  lemma {:induction false} NobodyCancelled(w: World, actions: seq<Action>)
    requires w.cancelled == {} && DoCancelQueued !in actions
    ensures Run(w, actions).cancelled == {}
    decreases |actions|
  {
    if actions != [] {
      StepCancelsNobody(w, actions[0]);
      NobodyCancelled(Step(w, actions[0]), actions[1..]);
    }
  }

  /** In runs that cancel no queued job nobody is stranded: a registered waiter of a free slot has a notification owed
      to it or a job that is about to look again, and a stored permit never lies beside it. */
  lemma NobodyStrandedWithoutCancel(actions: seq<Action>, w: World, j: JobId)
    requires DoCancelQueued !in actions
    requires w == Run(INITIAL, actions)
    requires w.processing.None? && j in w.jobs && Relies(w.jobs[j])
    ensures !Stranded(w)
    ensures w.jobs[j].Waiting? ==> !w.permit && (w.notices > 0 || SomeoneAlert(w))
  {
    Reached(actions, w);
    if Stranded(w) {
      NobodyStranded(actions, w);
      var k: nat :| SwallowsAt(actions, k) && StrandedSince(actions, k);
      NobodyCancelled(INITIAL, actions[..k]);
    }
  }

  // ----- cancelling a queued job can strand another one -----

  lemma Extend(actions: seq<Action>, w: World, a: Action) returns (longer: seq<Action>, next: World)
    requires w == Run(INITIAL, actions)
    ensures longer == actions + [a] && next == Step(w, a) == Run(INITIAL, longer)
  {
    longer, next := actions + [a], Step(w, a);
    RunConcat(INITIAL, actions, [a]);
    assert Run(next, []) == next;
    assert [a][1..] == [];
  }

  lemma {:induction false} RunConcat(w: World, a: seq<Action>, b: seq<Action>)
    ensures Run(w, a + b) == Run(Run(w, a), b)
    decreases |a|
  {
    if a == [] {
      assert a + b == b;
    } else {
      assert (a + b)[1..] == a[1..] + b;
      RunConcat(Step(w, a[0]), a[1..], b);
    }
  }

  /** Job 0 holds the slot, job 1 waits in the queue, job 2 has just seen the slot busy. */
  lemma TwoJobsBehindOne() returns (actions: seq<Action>, w: World)
    ensures w == Run(INITIAL, actions)
    ensures w == World(Some(0), Some(1), {}, false, [1], 0, map[0 := Holding, 1 := Waiting, 2 := Joining], 1, 0, false)
  {
    actions, w := [], INITIAL;
    actions, w := Extend(actions, w, DoArrive(0));
    actions, w := Extend(actions, w, DoAdvance(0, false));
    actions, w := Extend(actions, w, DoAdvance(0, false));
    assert w == World(Some(0), None, {}, false, [], 0, map[0 := Holding], 1, 0, false);
    actions, w := Extend(actions, w, DoArrive(1));
    actions, w := Extend(actions, w, DoAdvance(1, false));
    actions, w := Extend(actions, w, DoAdvance(1, false));
    actions, w := Extend(actions, w, DoAdvance(1, false));
    actions, w := Extend(actions, w, DoAdvance(1, false));
    assert w == World(Some(0), Some(1), {}, false, [1], 0, map[0 := Holding, 1 := Waiting], 1, 0, false);
    actions, w := Extend(actions, w, DoArrive(2));
    actions, w := Extend(actions, w, DoAdvance(2, false));
    actions, w := Extend(actions, w, DoAdvance(2, false));
  }

  /** The queued job is cancelled just when job 0 releases the slot: the notification goes to the cancelled job. */
  lemma CancelledJobIsNotified() returns (actions: seq<Action>, w: World)
    ensures w == Run(INITIAL, actions)
    ensures w == World(None, Some(1), {1}, false, [], 0, map[0 := Holding, 1 := Signalled, 2 := Joining], 1, 1, false)
  {
    actions, w := TwoJobsBehindOne();
    actions, w := Extend(actions, w, DoCancelQueued);
    actions, w := Extend(actions, w, DoClear(0));
    actions, w := Extend(actions, w, DoNotify);
  }

  /** The cancelled job takes the notification with it. */
  lemma CancelledJobGivesUp() returns (actions: seq<Action>, w: World)
    ensures w == Run(INITIAL, actions)
    ensures w == World(None, None, {1}, false, [], 0, map[0 := Holding, 1 := Stopped, 2 := Joining], 1, 1, false)
  {
    actions, w := CancelledJobIsNotified();
    actions, w := Extend(actions, w, DoAdvance(1, false));
    actions, w := Extend(actions, w, DoAdvance(1, false));
    actions, w := Extend(actions, w, DoAdvance(1, false));
  }

  /** Cancelled job 1 consumes the only notification and gives up; job 2 then waits for a slot that is free. */
  lemma CancelCanStrand() returns (actions: seq<Action>, w: World)
    ensures w == Run(INITIAL, actions)
    ensures w.processing.None? && 2 in w.jobs && w.jobs[2] == Waiting
    ensures Stranded(w)
  {
    actions, w := CancelledJobGivesUp();
    actions, w := Extend(actions, w, DoAdvance(2, false));
    actions, w := Extend(actions, w, DoAdvance(2, false));
    assert w.jobs == map[0 := Holding, 1 := Stopped, 2 := Waiting];
  }
}
