/** The drain protocol of a gated hook: entrants pin the publication gate, hand the pin over to the record's
    `in_flight`, and the backend is uninstalled only behind a closed gate
    (src/core/hook_registry.cpp:534-638, 750-777, 1043-1131 and 1345-1476, src/host/publication_gate.cpp:87-324,
    src/interceptor/arm64_bridge.S:38-119, src/interceptor/callback_dispatch.cpp:940-1150).

    The control word is given by its two halves; PackedWord shows that the machine operations act on them so.
    Each label is one atomic step: an operation on the gate's control word, or a critical section of the hook's
    mutex. A label that is not enabled changes nothing. */
module HookDrain {
  import opened Wrappers
  import opened Machine
  import opened PackedWord

  const INSTALLING: U32 := 0
  const ARMED: U32 := 1
  const DRAINING: U32 := 2
  const BYPASS_TARGET: U32 := 3
  const BYPASS_BACKUP: U32 := 4
  const GATE_FAILED: U32 := 5
  const CLOSED: U32 := 6

  datatype Record = Installing | Installed | Unhooking | Unhooked | Failed | FailedAfterPublished | Retired

  /** Where an activation of the hooked function goes once it has left the record. */
  datatype Next = Leave | RunRetained

  /** One activation of the hooked function; recursion gives a thread several.
      `Pinned` holds a gate pin, `Counted` is in `in_flight`, `PinnedCounted` both. `Retained` runs the backup
      behind a pin that is never given back, `Untracked` runs it with nothing. `Committed` has seen the last
      exit of an unhooking record and will run `FinishUnhookLocked`. */
  datatype Activation =
    | Outside | Pinned | PinnedCounted | Counted | Committed(next: Next) | Retained | Untracked | Trapped

  /** What the holder of the registry mutex does next. */
  datatype Phase =
    | InstallBackend | MarkInstalled | ArmGate
    | StartUnhook | DrainGate | CheckIdle
    | StillUnhooking | DrainAgain | CheckAgain | CloseGate | CheckClosed | ReopenGate
    | UninstallBackend | ReopenFailed | BypassGate | RestoreReturns | MarkUnhooked | MarkFailed

  /** `Finisher` is a committed activation. */
  datatype Holder = Nobody | Caller(phase: Phase) | Finisher(phase: Phase, id: nat)

  datatype System = System(
    control: Word, record: Record, inFlight: nat, installed: bool, holder: Holder,
    activations: map<nat, Activation>, lostPins: nat, uninstalls: nat)

  datatype Answer = Succeeded | NeverPublished | AfterPublished | RecoveryRequired(backup: bool)

  datatype Label =
    | LockForUnhook | LockToFinish(id: nat) | Retire | Advance(answer: Answer)
    | Enter(id: nat) | Begin(id: nat) | Abandon(id: nat) | SetupFails(id: nat) | ReleasePin(id: nat)
    | Exit(id: nat) | Return(id: nat)

  function Gate(s: System): U32 {
    s.control.state
  }

  function Entrants(s: System): U32 {
    s.control.count
  }

  // ---- Activations ----

  predicate HoldsPin(a: Activation) {
    a.Pinned? || a.PinnedCounted?
  }

  predicate HoldsCount(a: Activation) {
    a.PinnedCounted? || a.Counted?
  }

  predicate InBackup(a: Activation) {
    a.Counted? || a.Retained? || a.Untracked?
  }

  function After(next: Next): Activation {
    match next
    case Leave => Outside
    case RunRetained => Retained
  }

  function Move(s: System, id: nat, a: Activation): System {
    s.(activations := s.activations[id := a])
  }

  /** One pass through the publication gate. */
  function EnterGate(s: System, id: nat): System {
    if Gate(s) == INSTALLING || Gate(s) == CLOSED || Gate(s) == BYPASS_TARGET then s
    else if Gate(s) == BYPASS_BACKUP then Move(s, id, Untracked)
    else if (Gate(s) != ARMED && Gate(s) != DRAINING) || Entrants(s) == 0xffff_ffff then Move(s, id, Trapped)
    else Move(s, id, Pinned).(control := s.control.(count := s.control.count + 1))
  }

  function DropPin(s: System): System {
    if Entrants(s) > 0 then s.(control := s.control.(count := s.control.count - 1)) else s
  }

  /** `BeginInvocation`; a refused activation keeps its pin while the backend is installed. */
  function BeginInvocation(s: System, id: nat): System {
    if s.record in {Retired, Unhooked, Installing} || (s.record == Failed && !s.installed) then
      if s.installed then Move(s, id, Retained).(lostPins := s.lostPins + 1)
      else DropPin(Move(s, id, Untracked))
    else
      Move(s, id, PinnedCounted).(inFlight := s.inFlight + 1)
  }

  /** `InvocationExited`, up to the registry mutex. */
  function ExitRecord(s: System, id: nat, next: Next): System {
    var left := if s.inFlight > 0 then s.inFlight - 1 else 0;
    Move(s, id, if left == 0 && s.record == Unhooking then Committed(next) else After(next)).(inFlight := left)
  }

  // ---- The holder of the registry mutex ----

  function To(s: System, phase: Phase): System {
    s.(holder := if s.holder.Finisher? then Finisher(phase, s.holder.id) else Caller(phase))
  }

  function Release(s: System): System {
    if s.holder.Finisher? && s.holder.id in s.activations && s.activations[s.holder.id].Committed? then
      Move(s, s.holder.id, After(s.activations[s.holder.id].next)).(holder := Nobody)
    else
      s.(holder := Nobody)
  }

  function BeginDrain(s: System): System {
    if s.installed && Gate(s) == ARMED then s.(control := s.control.(state := DRAINING)) else s
  }

  function Reopen(s: System): System {
    if s.control == Word(CLOSED, 0) then s.(control := Word(DRAINING, 0)) else s
  }

  predicate Closes(s: System) {
    && Entrants(s) == 0
    && (Gate(s) == CLOSED || Gate(s) == DRAINING || Gate(s) == INSTALLING || Gate(s) == BYPASS_BACKUP)
  }

  /** What one step of the holder does to the record and its gate. */
  function Work(s: System, phase: Phase, answer: Answer): System {
    match phase
    case InstallBackend => (
      match answer
      case Succeeded => s.(installed := true)
      case NeverPublished => s.(control := s.control.(state := GATE_FAILED), record := Failed)
      case AfterPublished => s.(control := s.control.(state := BYPASS_TARGET), record := FailedAfterPublished)
      case RecoveryRequired(backup) =>
        s.(installed := true, record := FailedAfterPublished,
           control := if backup then s.control.(state := BYPASS_BACKUP) else s.control))
    case MarkInstalled => s.(record := Installed)
    case ArmGate => s.(control := s.control.(state := ARMED))
    case StartUnhook => if s.record in {Unhooked, Retired, Unhooking} then s else s.(record := Unhooking)
    case DrainGate => BeginDrain(s)
    case DrainAgain => BeginDrain(s)
    case CloseGate => if Closes(s) then s.(control := Word(CLOSED, 0)) else s
    case ReopenGate => Reopen(s)
    case UninstallBackend =>
      if Entrants(s) == 0 && Gate(s) == CLOSED && answer == Succeeded then
        s.(installed := false, uninstalls := s.uninstalls + 1)
      else s
    case ReopenFailed => Reopen(s)
    case BypassGate => s.(control := s.control.(state := BYPASS_TARGET))
    case MarkUnhooked => s.(record := Unhooked)
    case MarkFailed => s.(record := Failed)
    case _ => s
  }

  /** Where the holder goes on from there, if it does not give the mutex back. */
  function NextPhase(s: System, phase: Phase, answer: Answer): Option<Phase> {
    match phase
    case InstallBackend => if answer == Succeeded then Some(MarkInstalled) else None
    case MarkInstalled => Some(ArmGate)
    case StartUnhook =>
      if s.record in {Unhooked, Retired, Unhooking} then None
      else Some(if s.installed then DrainGate else CheckIdle)
    case DrainGate => Some(CheckIdle)
    case CheckIdle => if s.inFlight != 0 then None else Some(if s.installed then DrainAgain else RestoreReturns)
    case StillUnhooking =>
      if s.record != Unhooking then None else Some(if s.installed then DrainAgain else RestoreReturns)
    case DrainAgain => Some(CheckAgain)
    case CheckAgain => if s.inFlight != 0 then None else Some(CloseGate)
    case CloseGate => if Closes(s) then Some(CheckClosed) else None
    case CheckClosed => Some(if s.inFlight != 0 then ReopenGate else UninstallBackend)
    case UninstallBackend =>
      Some(if Entrants(s) != 0 || Gate(s) != CLOSED then MarkFailed
           else if answer == Succeeded then BypassGate
           else ReopenFailed)
    case ReopenFailed => Some(MarkFailed)
    case BypassGate => Some(RestoreReturns)
    case RestoreReturns => Some(if answer == Succeeded then MarkUnhooked else MarkFailed)
    case _ => None
  }

  function Proceed(s: System, phase: Phase, answer: Answer): System {
    match NextPhase(s, phase, answer)
    case None => Release(Work(s, phase, answer))
    case Some(next) => To(Work(s, phase, answer), next)
  }

  // ---- Steps and runs ----

  function Step(s: System, l: Label): System {
    match l
    case LockForUnhook => if s.holder.Nobody? then s.(holder := Caller(StartUnhook)) else s
    case Retire => if s.holder.Nobody? && s.record != Unhooked then s.(record := Retired) else s
    case Advance(answer) => if s.holder.Nobody? then s else Proceed(s, s.holder.phase, answer)
    case _ => if l.id in s.activations then Act(s, l, s.activations[l.id]) else s
  }

  function Act(s: System, l: Label, a: Activation): System
    requires !l.LockForUnhook? && !l.Retire? && !l.Advance?
  {
    match l
    case LockToFinish(id) => if a.Committed? && s.holder.Nobody? then s.(holder := Finisher(StillUnhooking, id)) else s
    case Enter(id) => if a.Outside? then EnterGate(s, id) else s
    case Begin(id) => if a.Pinned? then BeginInvocation(s, id) else s
    case Abandon(id) => if a.Pinned? then Move(s, id, Retained).(lostPins := s.lostPins + 1) else s
    case SetupFails(id) =>
      if a.PinnedCounted? then ExitRecord(s, id, RunRetained).(lostPins := s.lostPins + 1) else s
    case ReleasePin(id) => if a.PinnedCounted? then DropPin(Move(s, id, Counted)) else s
    case Exit(id) => if a.Counted? then ExitRecord(s, id, Leave) else s
    case Return(id) => if a.Retained? || a.Untracked? then Move(s, id, Outside) else s
    case _ => s
  }

  /** A prepared hook whose caller is about to call the backend. */
  predicate Initial(s: System) {
    && s.control == Word(INSTALLING, 0) && s.record == Installing && s.inFlight == 0 && !s.installed
    && s.holder == Caller(InstallBackend) && s.lostPins == 0 && s.uninstalls == 0
    && forall id :: id in s.activations ==> s.activations[id] == Outside
  }

  function Run(s: System, labels: seq<Label>): System
    decreases labels
  {
    if labels == [] then s else Step(Run(s, labels[..|labels| - 1]), labels[|labels| - 1])
  }

  // ---- What every step keeps ----

  ghost function Pins(activations: map<nat, Activation>): set<nat> {
    set id | id in activations && HoldsPin(activations[id])
  }

  ghost function Counts(activations: map<nat, Activation>): set<nat> {
    set id | id in activations && HoldsCount(activations[id])
  }

  ghost function One(b: bool): nat {
    if b then 1 else 0
  }

  /** The packed count is the pins held and lost, `in_flight` the activations counted in it. */
  ghost predicate Accounted(s: System) {
    && Entrants(s) == |Pins(s.activations)| + s.lostPins
    && s.inFlight == |Counts(s.activations)|
    && (forall id :: id in s.activations && s.activations[id] in {Retained, Committed(RunRetained)} ==> s.lostPins > 0)
  }

  predicate Behind(phase: Phase) {
    phase in {CheckClosed, ReopenGate, UninstallBackend, ReopenFailed, BypassGate}
  }

  /** Without a backend nothing is tracked; with one the gate never leads to the bare target. */
  ghost predicate Guarded(s: System) {
    && Gate(s) <= CLOSED
    && (!s.installed ==> Entrants(s) == 0 && s.inFlight == 0 && Gate(s) !in {ARMED, DRAINING, BYPASS_BACKUP})
    && (s.installed ==> Gate(s) !in {BYPASS_TARGET, GATE_FAILED} && s.uninstalls == 0)
    && s.uninstalls <= 1
    && (Gate(s) == CLOSED ==> Entrants(s) == 0)
    && (Gate(s) == CLOSED <==> !s.holder.Nobody? && Behind(s.holder.phase))
    && (s.record == Installing <==> s.holder in {Caller(InstallBackend), Caller(MarkInstalled)})
    && (!s.holder.Nobody? ==> InPhase(s, s.holder.phase))
  }

  /** What the holder knows in each phase. */
  predicate InPhase(s: System, phase: Phase) {
    match phase
    case InstallBackend => !s.installed && Gate(s) == INSTALLING && s.uninstalls == 0 && s.holder.Caller?
    case MarkInstalled => s.installed && Gate(s) == INSTALLING && s.holder.Caller?
    case ArmGate => s.installed && Gate(s) == INSTALLING && s.holder.Caller? && s.record == Installed
    case DrainGate => s.installed
    case DrainAgain => s.installed
    case CheckAgain => s.installed && Gate(s) != ARMED
    case CloseGate => s.installed && Gate(s) != ARMED
    case CheckClosed => s.installed
    case ReopenGate => s.installed
    case UninstallBackend => s.installed && s.inFlight == 0
    case ReopenFailed => s.installed && s.inFlight == 0
    case BypassGate => !s.installed
    case RestoreReturns => !s.installed
    case MarkUnhooked => !s.installed
    case _ => true
  }

  /** It will come out of the gate, the backup or the registry mutex and look at the record again. */
  predicate WillLook(a: Activation) {
    HoldsPin(a) || HoldsCount(a) || a.Committed?
  }

  /** Some activation other than the holder will look at the record again. */
  ghost predicate Awaited(s: System) {
    exists id :: id in s.activations && WillLook(s.activations[id]) && !(s.holder.Finisher? && s.holder.id == id)
  }

  /** The phases in which the holder may give up, or has not begun. */
  predicate MayGiveUp(h: Holder) {
    h.Nobody? || h.phase == ReopenGate || h.phase == StartUnhook
  }

  predicate FinisherCommitted(s: System) {
    s.holder.Finisher? ==> s.holder.id in s.activations && s.activations[s.holder.id].Committed?
  }

  /** An unhooking record that nobody is at is awaited, unless a pin is lost for good. */
  ghost predicate NotLost(s: System) {
    && (s.record == Unhooking && MayGiveUp(s.holder) && s.lostPins == 0 ==> Awaited(s))
    && FinisherCommitted(s)
    && (s.holder.Finisher? ==> s.holder.phase !in {StartUnhook, DrainGate, CheckIdle})
  }

  /** A record with a backend is not unhooked, and nobody works on a retired one. */
  predicate Recorded(s: System) {
    && (s.installed ==> s.record != Unhooked)
    && (s.record == Retired ==> s.holder.Nobody? || s.holder.phase in {StartUnhook, StillUnhooking})
  }

  ghost predicate Inv(s: System) {
    Accounted(s) && Guarded(s) && NotLost(s) && Recorded(s)
  }

  lemma PinsAfter(activations: map<nat, Activation>, id: nat, a: Activation)
    requires id in activations
    ensures |Pins(activations[id := a])| == |Pins(activations)| - One(HoldsPin(activations[id])) + One(HoldsPin(a))
  {
    var before, after := Pins(activations), Pins(activations[id := a]);
    assert after == if HoldsPin(a) then (before - {id}) + {id} else before - {id};
    assert HoldsPin(activations[id]) <==> id in before;
  }

  lemma CountsAfter(activations: map<nat, Activation>, id: nat, a: Activation)
    requires id in activations
    ensures |Counts(activations[id := a])| == |Counts(activations)| - One(HoldsCount(activations[id])) + One(HoldsCount(a))
  {
    var before, after := Counts(activations), Counts(activations[id := a]);
    assert after == if HoldsCount(a) then (before - {id}) + {id} else before - {id};
    assert HoldsCount(activations[id]) <==> id in before;
  }

  lemma Positive(s: System, id: nat)
    requires Accounted(s) && id in s.activations
    ensures HoldsPin(s.activations[id]) ==> Entrants(s) > s.lostPins
    ensures HoldsCount(s.activations[id]) ==> s.inFlight > 0
  {
    PinsAfter(s.activations, id, Outside);
    CountsAfter(s.activations, id, Outside);
  }

  /** One activation moves, and pins and counts move with it. */
  lemma Rebalanced(s: System, t: System, id: nat)
    requires Accounted(s) && id in s.activations && id in t.activations
    requires t.activations == s.activations[id := t.activations[id]] && t.lostPins >= s.lostPins
    requires Entrants(t) - t.lostPins
          == Entrants(s) - s.lostPins - One(HoldsPin(s.activations[id])) + One(HoldsPin(t.activations[id]))
    requires t.inFlight == s.inFlight - One(HoldsCount(s.activations[id])) + One(HoldsCount(t.activations[id]))
    requires t.activations[id] in {Retained, Committed(RunRetained)} ==> t.lostPins > 0
    ensures Accounted(t)
  {
    PinsAfter(s.activations, id, t.activations[id]);
    CountsAfter(s.activations, id, t.activations[id]);
  }

  lemma EnterAccounted(s: System, id: nat)
    requires Accounted(s) && id in s.activations && s.activations[id].Outside?
    ensures Accounted(EnterGate(s, id))
  {
    if EnterGate(s, id) != s {
      Rebalanced(s, EnterGate(s, id), id);
    }
  }

  lemma BeginAccounted(s: System, id: nat)
    requires Accounted(s) && id in s.activations && s.activations[id].Pinned?
    ensures Accounted(BeginInvocation(s, id))
  {
    Positive(s, id);
    Rebalanced(s, BeginInvocation(s, id), id);
  }

  lemma AbandonAccounted(s: System, id: nat)
    requires Accounted(s) && id in s.activations && s.activations[id].Pinned?
    ensures Accounted(Move(s, id, Retained).(lostPins := s.lostPins + 1))
  {
    Positive(s, id);
    Rebalanced(s, Move(s, id, Retained).(lostPins := s.lostPins + 1), id);
  }

  lemma SetupAccounted(s: System, id: nat)
    requires Accounted(s) && id in s.activations && s.activations[id].PinnedCounted?
    ensures Accounted(ExitRecord(s, id, RunRetained).(lostPins := s.lostPins + 1))
  {
    Positive(s, id);
    Rebalanced(s, ExitRecord(s, id, RunRetained).(lostPins := s.lostPins + 1), id);
  }

  lemma ReleasePinAccounted(s: System, id: nat)
    requires Accounted(s) && id in s.activations && s.activations[id].PinnedCounted?
    ensures Accounted(DropPin(Move(s, id, Counted)))
  {
    Positive(s, id);
    Rebalanced(s, DropPin(Move(s, id, Counted)), id);
  }

  lemma ExitAccounted(s: System, id: nat)
    requires Accounted(s) && id in s.activations && s.activations[id].Counted?
    ensures Accounted(ExitRecord(s, id, Leave))
  {
    Positive(s, id);
    Rebalanced(s, ExitRecord(s, id, Leave), id);
  }

  lemma ReturnAccounted(s: System, id: nat)
    requires Accounted(s) && id in s.activations && (s.activations[id].Retained? || s.activations[id].Untracked?)
    ensures Accounted(Move(s, id, Outside))
  {
    Positive(s, id);
    Rebalanced(s, Move(s, id, Outside), id);
  }

  lemma ActAccounted(s: System, l: Label, a: Activation)
    requires Accounted(s) && !l.LockForUnhook? && !l.Retire? && !l.Advance?
    requires l.id in s.activations && s.activations[l.id] == a
    ensures Accounted(Act(s, l, a))
  {
    match l {
      case LockToFinish(id) =>
      case Enter(id) => if a.Outside? { EnterAccounted(s, id); }
      case Begin(id) => if a.Pinned? { BeginAccounted(s, id); }
      case Abandon(id) => if a.Pinned? { AbandonAccounted(s, id); }
      case SetupFails(id) => if a.PinnedCounted? { SetupAccounted(s, id); }
      case ReleasePin(id) => if a.PinnedCounted? { ReleasePinAccounted(s, id); }
      case Exit(id) => if a.Counted? { ExitAccounted(s, id); }
      case Return(id) => if a.Retained? || a.Untracked? { ReturnAccounted(s, id); }
    }
  }

  lemma ActGuarded(s: System, l: Label, a: Activation)
    requires Inv(s) && !l.LockForUnhook? && !l.Retire? && !l.Advance? && l.id in s.activations && s.activations[l.id] == a
    ensures Guarded(Act(s, l, a))
  {
    Positive(s, l.id);
  }

  lemma ActNotLost(s: System, l: Label, a: Activation)
    requires Inv(s) && !l.LockForUnhook? && !l.Retire? && !l.Advance? && l.id in s.activations && s.activations[l.id] == a
    ensures NotLost(Act(s, l, a))
  {
    var t := Act(s, l, a);
    if t.record == Unhooking && MayGiveUp(t.holder) && t.lostPins == 0 {
      var id :| id in s.activations && WillLook(s.activations[id]) && !(s.holder.Finisher? && s.holder.id == id);
      if id == l.id {
        StaysOrHandsOver(s, l, a);
      } else {
        assert id in t.activations && t.activations[id] == s.activations[id];
      }
    }
  }

  /** Whoever leaves an unhooking record either still looks at it, or leaves others counted in it. */
  lemma StaysOrHandsOver(s: System, l: Label, a: Activation)
    requires Inv(s) && !l.LockForUnhook? && !l.Retire? && !l.Advance? && l.id in s.activations && s.activations[l.id] == a
    requires WillLook(a) && s.record == Unhooking && MayGiveUp(Act(s, l, a).holder) && Act(s, l, a).lostPins == 0
    requires !(s.holder.Finisher? && s.holder.id == l.id)
    ensures Awaited(Act(s, l, a))
  {
    var t := Act(s, l, a);
    if WillLook(t.activations[l.id]) {
      assert l.id in t.activations;
    } else {
      ActAccounted(s, l, a);
      assert t.inFlight > 0;
      SomeCounted(t);
    }
  }

  lemma SomeCounted(s: System)
    requires Accounted(s) && FinisherCommitted(s)
    ensures s.inFlight > 0 ==> Awaited(s)
    ensures s.lostPins == 0 && Entrants(s) > 0 ==> Awaited(s)
  {
    if s.inFlight > 0 {
      var id :| id in Counts(s.activations);
      assert id in s.activations && WillLook(s.activations[id]);
    }
    if s.lostPins == 0 && Entrants(s) > 0 {
      var id :| id in Pins(s.activations);
      assert id in s.activations && WillLook(s.activations[id]);
    }
  }

  lemma ProceedAccounted(s: System, answer: Answer)
    requires Inv(s) && !s.holder.Nobody?
    ensures Accounted(Proceed(s, s.holder.phase, answer))
  {
    var w := Work(s, s.holder.phase, answer);
    WorkKeeps(s, s.holder.phase, answer);
    assert Accounted(w);
    ReleaseAccounted(w);
  }

  lemma WorkKeeps(s: System, phase: Phase, answer: Answer)
    ensures var w := Work(s, phase, answer);
            && w.activations == s.activations && w.inFlight == s.inFlight && w.lostPins == s.lostPins
            && w.holder == s.holder && Entrants(w) == Entrants(s)
  {
  }

  lemma ReleaseAccounted(s: System)
    requires Accounted(s)
    ensures Accounted(Release(s))
  {
    var t := Release(s);
    if t.activations != s.activations {
      var id := s.holder.id;
      PinsAfter(s.activations, id, t.activations[id]);
      CountsAfter(s.activations, id, t.activations[id]);
    }
  }

  /** The part of the invariant that does not look at the activations, one phase at a time. */
  lemma ProceedGuarded(s: System, answer: Answer)
    requires Guarded(s) && !s.holder.Nobody?
    ensures Guarded(Proceed(s, s.holder.phase, answer))
  {
    var phase, w := s.holder.phase, Work(s, s.holder.phase, answer);
    var t := Proceed(s, phase, answer);
    assert t.control == w.control && t.installed == w.installed && t.record == w.record;
    assert t.inFlight == s.inFlight && t.uninstalls == w.uninstalls;
    if phase in {InstallBackend, MarkInstalled, ArmGate} {
      InstallGuarded(s, answer);
    } else if Behind(phase) {
      ClosedGuarded(s, answer);
    } else if phase in {StartUnhook, DrainGate, CheckIdle, StillUnhooking, DrainAgain} {
      DrainGuarded(s, answer);
    } else {
      FinishGuarded(s, answer);
    }
  }

  lemma InstallGuarded(s: System, answer: Answer)
    requires Guarded(s) && !s.holder.Nobody? && s.holder.phase in {InstallBackend, MarkInstalled, ArmGate}
    ensures Guarded(Proceed(s, s.holder.phase, answer))
  {
  }

  lemma ClosedGuarded(s: System, answer: Answer)
    requires Guarded(s) && !s.holder.Nobody? && Behind(s.holder.phase)
    ensures Guarded(Proceed(s, s.holder.phase, answer))
  {
  }

  lemma DrainGuarded(s: System, answer: Answer)
    requires Guarded(s) && !s.holder.Nobody?
    requires s.holder.phase in {StartUnhook, DrainGate, CheckIdle, StillUnhooking, DrainAgain}
    ensures Guarded(Proceed(s, s.holder.phase, answer))
  {
  }

  lemma FinishGuarded(s: System, answer: Answer)
    requires Guarded(s) && !s.holder.Nobody?
    requires s.holder.phase in {CheckAgain, CloseGate, RestoreReturns, MarkUnhooked, MarkFailed}
    ensures Guarded(Proceed(s, s.holder.phase, answer))
  {
  }

  lemma ProceedNotLost(s: System, answer: Answer)
    requires Inv(s) && !s.holder.Nobody?
    ensures NotLost(Proceed(s, s.holder.phase, answer))
  {
    var t := Proceed(s, s.holder.phase, answer);
    WorkKeeps(s, s.holder.phase, answer);
    HolderKeeps(Work(s, s.holder.phase, answer));
    if t.record == Unhooking && MayGiveUp(t.holder) && t.lostPins == 0 {
      if s.holder.phase in {StartUnhook, DrainGate, CheckIdle, StillUnhooking, DrainAgain} {
        DrainGivesUp(s, answer);
      } else {
        FinishGivesUp(s, answer);
      }
      StillAwaited(s, t);
    }
  }

  /** Giving the mutex back, or going on with it, changes nothing but the holder's own activation. */
  lemma HolderKeeps(s: System)
    requires FinisherCommitted(s)
    ensures var t := Release(s);
            && t == s.(holder := Nobody, activations := t.activations) && t.activations.Keys == s.activations.Keys
            && forall id :: id in s.activations && !(s.holder.Finisher? && s.holder.id == id) ==>
                              t.activations[id] == s.activations[id]
  {
  }

  /** What awaits the record is not the holder, so its step does not change that. */
  lemma StillAwaited(s: System, t: System)
    requires Awaited(s) && t.activations.Keys == s.activations.Keys
    requires t.holder.Finisher? ==> s.holder.Finisher? && t.holder.id == s.holder.id
    requires forall id :: id in s.activations && !(s.holder.Finisher? && s.holder.id == id) ==>
                            t.activations[id] == s.activations[id]
    ensures Awaited(t)
  {
    var id :| id in s.activations && WillLook(s.activations[id]) && !(s.holder.Finisher? && s.holder.id == id);
    assert id in t.activations && WillLook(t.activations[id]);
  }

  /** A holder that gives up an unhooking record before the close leaves somebody counted in it. */
  lemma DrainGivesUp(s: System, answer: Answer)
    requires Inv(s) && !s.holder.Nobody?
    requires s.holder.phase in {StartUnhook, DrainGate, CheckIdle, StillUnhooking, DrainAgain}
    requires var t := Proceed(s, s.holder.phase, answer);
             Work(s, s.holder.phase, answer).record == Unhooking && MayGiveUp(t.holder) && s.lostPins == 0
    ensures Awaited(s)
  {
    SomeCounted(s);
  }

  /** One that gives up later leaves somebody counted or pinned. */
  lemma FinishGivesUp(s: System, answer: Answer)
    requires Inv(s) && !s.holder.Nobody?
    requires s.holder.phase !in {StartUnhook, DrainGate, CheckIdle, StillUnhooking, DrainAgain}
    requires var t := Proceed(s, s.holder.phase, answer);
             Work(s, s.holder.phase, answer).record == Unhooking && MayGiveUp(t.holder) && s.lostPins == 0
    ensures Awaited(s)
  {
    SomeCounted(s);
  }

  lemma ProceedRecorded(s: System, answer: Answer)
    requires Guarded(s) && Recorded(s) && !s.holder.Nobody?
    ensures Recorded(Proceed(s, s.holder.phase, answer))
  {
    var w, t := Work(s, s.holder.phase, answer), Proceed(s, s.holder.phase, answer);
    assert t.record == w.record && t.installed == w.installed;
    WorkRecorded(s, s.holder.phase, answer);
  }

  lemma WorkRecorded(s: System, phase: Phase, answer: Answer)
    requires Recorded(s) && InPhase(s, phase) && (phase == InstallBackend ==> s.record == Installing)
    ensures var w := Work(s, phase, answer);
            && (w.installed ==> w.record != Unhooked)
            && (w.record == Retired ==> s.record == Retired)
  {
  }

  lemma ProceedInv(s: System, answer: Answer)
    requires Inv(s) && !s.holder.Nobody?
    ensures Inv(Proceed(s, s.holder.phase, answer))
  {
    ProceedAccounted(s, answer);
    ProceedGuarded(s, answer);
    ProceedNotLost(s, answer);
    ProceedRecorded(s, answer);
  }

  lemma ActInv(s: System, l: Label, a: Activation)
    requires Inv(s) && !l.LockForUnhook? && !l.Retire? && !l.Advance? && l.id in s.activations && s.activations[l.id] == a
    ensures Inv(Act(s, l, a))
  {
    ActAccounted(s, l, a);
    ActGuarded(s, l, a);
    ActNotLost(s, l, a);
  }

  lemma StepInv(s: System, l: Label)
    requires Inv(s)
    ensures Inv(Step(s, l))
  {
    if l.Advance? {
      if !s.holder.Nobody? {
        ProceedInv(s, l.answer);
      }
    } else if !l.LockForUnhook? && !l.Retire? && l.id in s.activations {
      ActInv(s, l, s.activations[l.id]);
    }
  }

  lemma InitialInv(s: System)
    requires Initial(s)
    ensures Inv(s)
  {
    assert Pins(s.activations) == {} && Counts(s.activations) == {};
  }

  lemma {:induction false} RunInv(s: System, labels: seq<Label>)
    requires Inv(s)
    ensures Inv(Run(s, labels))
  {
    if labels != [] {
      var n := |labels| - 1;
      RunInv(s, labels[..n]);
      StepInv(Run(s, labels[..n]), labels[n]);
    }
  }

  // ---- Safety ----

  /** Nothing the protocol tracks is anywhere between the gate and the end of the backup. */
  ghost predicate Idle(s: System) {
    && s.inFlight == 0 && Entrants(s) == 0
    && forall id :: id in s.activations ==> Quiet(s.activations[id])
  }

  predicate Quiet(a: Activation) {
    !HoldsPin(a) && !HoldsCount(a) && !a.Retained? && a != Committed(RunRetained)
  }

  lemma NothingTracked(s: System)
    requires Accounted(s) && s.inFlight == 0 && Entrants(s) == 0
    ensures Idle(s)
  {
    forall id | id in s.activations
      ensures Quiet(s.activations[id])
    {
      Positive(s, id);
    }
  }

  /** In every interleaving, the step that uninstalls the backend finds the hook idle behind a closed gate. */
  lemma UninstallsWhenIdle(initial: System, labels: seq<Label>, l: Label)
    requires Initial(initial)
    ensures var s := Run(initial, labels);
            s.installed && !Step(s, l).installed ==> Gate(s) == CLOSED && Idle(s) && Idle(Step(s, l))
  {
    var s := Run(initial, labels);
    InitialInv(initial);
    RunInv(initial, labels);
    StepInv(s, l);
    if s.installed && !Step(s, l).installed {
      assert l.Advance? && s.holder.phase == UninstallBackend;
      NothingTracked(s);
      NothingTracked(Step(s, l));
    }
  }

  lemma UninstalledIdle(s: System)
    requires Inv(s) && s.uninstalls > 0
    ensures s.uninstalls == 1 && !s.installed && Idle(s)
  {
    NothingTracked(s);
  }

  /** A successful uninstall happens at most once, and nothing brings the backend back after it. */
  lemma {:induction false} UninstalledForGood(s: System, labels: seq<Label>)
    requires Inv(s) && s.uninstalls > 0
    ensures var t := Run(s, labels);
            && t.uninstalls == 1 && !t.installed && Idle(t)
            && forall id :: id in t.activations && Bound(t.activations[id]) ==>
                              id in s.activations && Bound(s.activations[id])
  {
    RunInv(s, labels);
    if labels != [] {
      var n := |labels| - 1;
      UninstalledForGood(s, labels[..n]);
      RunInv(s, labels[..n]);
      NobodyNew(Run(s, labels[..n]), labels[n]);
    }
    UninstalledIdle(Run(s, labels));
  }

  /** In the backup, or about to run it. */
  predicate Bound(a: Activation) {
    InBackup(a) || a == Committed(RunRetained)
  }

  lemma NobodyNew(s: System, l: Label)
    requires Inv(s) && Idle(s) && s.uninstalls > 0
    ensures Step(s, l).uninstalls > 0
    ensures forall id :: id in Step(s, l).activations && Bound(Step(s, l).activations[id]) ==>
                           id in s.activations && Bound(s.activations[id])
  {
    if l.Advance? && !s.holder.Nobody? {
      WorkKeeps(s, s.holder.phase, l.answer);
      HolderKeeps(Work(s, s.holder.phase, l.answer));
    }
  }

  lemma SameActivations(s: System, l: Label)
    requires Inv(s)
    ensures Step(s, l).activations.Keys == s.activations.Keys
  {
    if l.Advance? && !s.holder.Nobody? {
      WorkKeeps(s, s.holder.phase, l.answer);
      HolderKeeps(Work(s, s.holder.phase, l.answer));
    } else if !l.LockForUnhook? && !l.Retire? && !l.Advance? && l.id in s.activations {
      SameIds(s, l, s.activations[l.id]);
    }
  }

  lemma SameIds(s: System, l: Label, a: Activation)
    requires !l.LockForUnhook? && !l.Retire? && !l.Advance? && l.id in s.activations
    ensures Act(s, l, a).activations.Keys == s.activations.Keys
  {
  }

  // ---- The way round the protocol ----

  /** Without a backend, whoever is still in the backup is untracked. */
  lemma OnlyUntrackedLeft(s: System)
    requires Inv(s) && !s.installed
    ensures forall id :: id in s.activations ==> (Bound(s.activations[id]) <==> s.activations[id] == Untracked)
  {
    NothingTracked(s);
  }

  /** An activation comes to run the backup untracked exactly when the gate sends it there past the record. */
  lemma BypassesExactly(s: System, l: Label, id: nat)
    requires Inv(s) && id in s.activations && s.activations[id] != Untracked
    ensures id in Step(s, l).activations
    ensures Step(s, l).activations[id] == Untracked <==>
            l == Enter(id) && s.activations[id] == Outside && Gate(s) == BYPASS_BACKUP
  {
    if l.Advance? && !s.holder.Nobody? {
      WorkKeeps(s, s.holder.phase, l.answer);
      HolderKeeps(Work(s, s.holder.phase, l.answer));
    }
    Positive(s, id);
  }

  /** The backend answered the install with `answer`. */
  ghost predicate Answered(s: System, labels: seq<Label>, answer: Answer) {
    exists n :: 0 <= n < |labels| && AnsweredAt(s, labels, answer, n)
  }

  predicate AnsweredAt(s: System, labels: seq<Label>, answer: Answer, n: nat)
    requires n < |labels|
  {
    Run(s, labels[..n]).holder == Caller(InstallBackend) && labels[n] == Advance(answer)
  }

  lemma AnsweredEarlier(s: System, labels: seq<Label>, answer: Answer)
    requires labels != [] && Answered(s, labels[..|labels| - 1], answer)
    ensures Answered(s, labels, answer)
  {
    var before := labels[..|labels| - 1];
    var n :| 0 <= n < |before| && AnsweredAt(s, before, answer, n);
    assert before[..n] == labels[..n];
    assert AnsweredAt(s, labels, answer, n);
  }

  /** The gate leads to the backup only after an install that needs recovery, with a backup handed out. */
  lemma {:induction false} BypassedOnlyAfterRecovery(s: System, labels: seq<Label>)
    requires Initial(s)
    ensures Gate(Run(s, labels)) == BYPASS_BACKUP ==> Answered(s, labels, RecoveryRequired(true))
  {
    if labels != [] {
      var n := |labels| - 1;
      var before := Run(s, labels[..n]);
      BypassedOnlyAfterRecovery(s, labels[..n]);
      InitialInv(s);
      RunInv(s, labels[..n]);
      if Gate(before) == BYPASS_BACKUP {
        AnsweredEarlier(s, labels, RecoveryRequired(true));
      } else {
        GateBypassed(before, labels[n]);
        assert AnsweredAt(s, labels, RecoveryRequired(true), n)
               == (before.holder == Caller(InstallBackend) && labels[n] == Advance(RecoveryRequired(true)));
      }
    }
  }

  lemma GateBypassed(s: System, l: Label)
    requires Inv(s) && Gate(s) != BYPASS_BACKUP
    ensures Gate(Step(s, l)) == BYPASS_BACKUP ==>
              s.holder == Caller(InstallBackend) && l == Advance(RecoveryRequired(true))
  {
    if l.Advance? {
      if !s.holder.Nobody? {
        WorkBypassed(s, s.holder.phase, l.answer);
      }
    } else if !l.LockForUnhook? && !l.Retire? && l.id in s.activations {
      ActKeepsGate(s, l, s.activations[l.id]);
    }
  }

  lemma WorkBypassed(s: System, phase: Phase, answer: Answer)
    requires Gate(s) != BYPASS_BACKUP
    ensures Gate(Work(s, phase, answer)) == BYPASS_BACKUP ==> phase == InstallBackend && answer == RecoveryRequired(true)
  {
  }

  lemma ActKeepsGate(s: System, l: Label, a: Activation)
    requires !l.LockForUnhook? && !l.Retire? && !l.Advance?
    ensures Gate(Act(s, l, a)) == Gate(s)
  {
  }

  /** In every interleaving of every install that does not end so, nobody is in the backup, or bound for it, once
      the backend is gone. */
  lemma {:induction false} NobodyLeftInBackup(s: System, labels: seq<Label>)
    requires Initial(s) && !Answered(s, labels, RecoveryRequired(true))
    ensures var t := Run(s, labels);
            && (forall id :: id in t.activations ==> t.activations[id] != Untracked)
            && (!t.installed ==> forall id :: id in t.activations ==> !Bound(t.activations[id]))
  {
    InitialInv(s);
    RunInv(s, labels);
    var t := Run(s, labels);
    if labels != [] {
      var n := |labels| - 1;
      var before := Run(s, labels[..n]);
      assert !Answered(s, labels[..n], RecoveryRequired(true)) by {
        if Answered(s, labels[..n], RecoveryRequired(true)) {
          AnsweredEarlier(s, labels, RecoveryRequired(true));
        }
      }
      NobodyLeftInBackup(s, labels[..n]);
      RunInv(s, labels[..n]);
      BypassedOnlyAfterRecovery(s, labels[..n]);
      SameActivations(before, labels[n]);
      forall id | id in t.activations
        ensures t.activations[id] != Untracked
      {
        BypassesExactly(before, labels[n], id);
      }
    }
    if !t.installed {
      OnlyUntrackedLeft(t);
    }
  }

  // ---- The control word itself ----

  /** Whatever a step does to the gate, one machine operation on the 64-bit word does it. */
  lemma StepOnWord(s: System, l: Label, word: U64)
    requires s.control == Halves(word)
    ensures exists after :: OneOperation(word, after) && Step(s, l).control == Halves(after)
  {
    StepMoves(s, l);
    MoveOnWord(word, Step(s, l).control);
  }

  lemma StepMoves(s: System, l: Label)
    ensures OneMove(s.control, Step(s, l).control)
  {
    if l.Advance? && !s.holder.Nobody? {
      assert Step(s, l).control == Work(s, s.holder.phase, l.answer).control;
    }
  }
}
