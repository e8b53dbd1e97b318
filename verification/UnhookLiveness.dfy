/** Which unhooks finish: what one undisturbed call does, what an unfinished one waits for, and from which states the
    backend can still be uninstalled (src/core/hook_registry.cpp:534-638 and 1114-1131,
    src/interceptor/callback_dispatch.cpp:942-1011). */
module UnhookLiveness {
  import opened Wrappers
  import opened Machine
  import opened PackedWord
  import opened HookDrain

  // ---- One undisturbed unhook ----

  /** An unhook call, run without interference up to and including the backend's uninstall. */
  function UnhookCall(steps: nat): seq<Label> {
    if steps == 0 then [LockForUnhook] else UnhookCall(steps - 1) + [Advance(Succeeded)]
  }

  const UNINSTALLED: nat := 8

  lemma RunLast(s: System, labels: seq<Label>, l: Label)
    ensures Run(s, labels + [l]) == Step(Run(s, labels), l)
  {
    assert (labels + [l])[..|labels|] == labels;
  }

  lemma UnhookStep(s: System, steps: nat)
    ensures Run(s, UnhookCall(0)) == Step(s, LockForUnhook)
    ensures Run(s, UnhookCall(steps + 1)) == Step(Run(s, UnhookCall(steps)), Advance(Succeeded))
  {
    RunLast(s, [], LockForUnhook);
    RunLast(s, UnhookCall(steps), Advance(Succeeded));
  }

  predicate Unhookable(s: System) {
    s.holder.Nobody? && s.installed && s.record in {Installed, Failed, FailedAfterPublished}
  }

  /** The first half: the record is unhooking and the gate no longer armed, up to the close. */
  lemma UnhookDrains(s: System)
    requires Inv(s) && Unhookable(s) && s.inFlight == 0
    ensures var t := Run(s, UnhookCall(5));
            && t == BeginDrain(s).(record := Unhooking, holder := Caller(CloseGate))
            && t.installed && Gate(t) in {INSTALLING, DRAINING, BYPASS_BACKUP} && Entrants(t) == Entrants(s)
  {
    var u := s.(record := Unhooking);
    UnhookStep(s, 0);
    assert Run(s, UnhookCall(1)) == u.(holder := Caller(DrainGate));
    UnhookStep(s, 1);
    var d := BeginDrain(u);
    assert Run(s, UnhookCall(2)) == d.(holder := Caller(CheckIdle));
    UnhookStep(s, 2);
    assert Run(s, UnhookCall(3)) == d.(holder := Caller(DrainAgain));
    UnhookStep(s, 3);
    assert Run(s, UnhookCall(4)) == d.(holder := Caller(CheckAgain));
    UnhookStep(s, 4);
  }

  lemma UnhookGivesUp(s: System)
    requires Inv(s) && Unhookable(s) && s.inFlight > 0
    ensures Run(s, UnhookCall(3)) == BeginDrain(s).(record := Unhooking)
  {
    var u := s.(record := Unhooking);
    UnhookStep(s, 0);
    assert Run(s, UnhookCall(1)) == u.(holder := Caller(DrainGate));
    UnhookStep(s, 1);
    assert Run(s, UnhookCall(2)) == BeginDrain(u).(holder := Caller(CheckIdle));
    UnhookStep(s, 2);
  }

  lemma NothingToAdvance(s: System, steps: nat)
    requires Run(s, UnhookCall(steps)).holder.Nobody?
    ensures Run(s, UnhookCall(steps + 1)) == Run(s, UnhookCall(steps))
  {
    UnhookStep(s, steps);
  }

  lemma UnhookDefers(s: System)
    requires Inv(s) && Unhookable(s) && s.inFlight > 0
    ensures Run(s, UnhookCall(UNINSTALLED)) == BeginDrain(s).(record := Unhooking)
  {
    UnhookGivesUp(s);
    NothingToAdvance(s, 3);
    NothingToAdvance(s, 4);
    NothingToAdvance(s, 5);
    NothingToAdvance(s, 6);
    NothingToAdvance(s, 7);
  }

  /** The second half, from the close to the backend's uninstall. */
  lemma UnhookCloses(t: System)
    requires t.holder == Caller(CloseGate) && t.installed && t.inFlight == 0
    requires Gate(t) in {INSTALLING, DRAINING, BYPASS_BACKUP}
    ensures var a := Advance(Succeeded);
            var u := Step(Step(Step(t, a), a), a);
            u.installed == (Entrants(t) != 0) && u.activations == t.activations
  {
    var a := Advance(Succeeded);
    if Entrants(t) == 0 {
      assert Step(t, a) == t.(control := Word(CLOSED, 0), holder := Caller(CheckClosed));
      assert Step(Step(t, a), a) == t.(control := Word(CLOSED, 0), holder := Caller(UninstallBackend));
    } else {
      assert Step(t, a) == t.(holder := Nobody);
    }
  }

  /** It uninstalls the backend exactly when nothing is tracked, whatever untracked activations still run
      there. */
  lemma UnhookUninstalls(s: System)
    requires Inv(s) && Unhookable(s)
    ensures var t := Run(s, UnhookCall(UNINSTALLED));
            (!t.installed <==> s.inFlight == 0 && Entrants(s) == 0) && t.activations == s.activations
  {
    if s.inFlight == 0 {
      UnhookDrains(s);
      UnhookCloses(Run(s, UnhookCall(5)));
      UnhookStep(s, 5);
      UnhookStep(s, 6);
      UnhookStep(s, 7);
    } else {
      UnhookDefers(s);
    }
  }

  /** After such a call nobody is in the backup exactly when no activation was untracked. */
  lemma InBackupAfterUninstall(s: System)
    requires Inv(s) && Unhookable(s) && s.inFlight == 0 && Entrants(s) == 0
    ensures var t := Run(s, UnhookCall(UNINSTALLED));
            && !t.installed
            && ((exists id :: id in t.activations && InBackup(t.activations[id])) <==>
                  exists id :: id in s.activations && s.activations[id] == Untracked)
  {
    var t := Run(s, UnhookCall(UNINSTALLED));
    UnhookUninstalls(s);
    RunInv(s, UnhookCall(UNINSTALLED));
    OnlyUntrackedLeft(t);
    if id :| id in t.activations && InBackup(t.activations[id]) {
      assert Bound(t.activations[id]) && s.activations[id] == Untracked;
    }
    if id :| id in s.activations && s.activations[id] == Untracked {
      assert InBackup(t.activations[id]);
    }
  }

  function Prepared(): System {
    System(Word(INSTALLING, 0), Installing, 0, false, Caller(InstallBackend), map[0 := Outside], 0, 0)
  }

  /** The backend could not roll back a failed install, so the gate leads to the backup. */
  function BackupBypass(): seq<Label> {
    [Advance(RecoveryRequired(true)), Enter(0)]
  }

  /** An activation is still in the backup when the backend is uninstalled under it. */
  lemma UntrackedOutlivesBackend()
    ensures Initial(Prepared())
    ensures var t := Run(Run(Prepared(), BackupBypass()), UnhookCall(UNINSTALLED));
            !t.installed && 0 in t.activations && InBackup(t.activations[0])
  {
    RunLast(Prepared(), [], Advance(RecoveryRequired(true)));
    RunLast(Prepared(), [Advance(RecoveryRequired(true))], Enter(0));
    assert BackupBypass() == [Advance(RecoveryRequired(true))] + [Enter(0)];
    InitialInv(Prepared());
    RunInv(Prepared(), BackupBypass());
    UnhookUninstalls(Run(Prepared(), BackupBypass()));
  }

  // ---- No unhook is lost ----

  /** In every reachable state with no pin lost, an unhooking record that nobody is at, or whose holder is about to
      give up, has an activation that holds a pin, is counted or is committed, and so will look at it again. */
  lemma NoUnhookLost(initial: System, labels: seq<Label>)
    requires Initial(initial)
    ensures var s := Run(initial, labels);
            s.record == Unhooking && MayGiveUp(s.holder) && s.lostPins == 0 ==>
              exists id :: id in s.activations && WillLook(s.activations[id]) && !(s.holder.Finisher? && s.holder.id == id)
  {
    InitialInv(initial);
    RunInv(initial, labels);
  }

  /** A lost pin, or retirement, is for good and keeps the backend in place. */
  ghost predicate Stuck(s: System) {
    s.installed && (s.lostPins > 0 || s.record == Retired)
  }

  lemma StuckStep(s: System, l: Label)
    requires Inv(s) && Stuck(s)
    ensures Stuck(Step(s, l))
  {
    if l.Advance? && !s.holder.Nobody? {
      WorkKeeps(s, s.holder.phase, l.answer);
    }
  }

  lemma {:induction false} StuckForGood(s: System, labels: seq<Label>)
    requires Inv(s) && Stuck(s)
    ensures Stuck(Run(s, labels))
  {
    if labels != [] {
      var n := |labels| - 1;
      StuckForGood(s, labels[..n]);
      RunInv(s, labels[..n]);
      StuckStep(Run(s, labels[..n]), labels[n]);
    }
  }

  /** An entrant that finds the depth limit reached, or no thread storage, loses its pin. */
  function LostPin(): seq<Label> {
    [Advance(Succeeded), Advance(Succeeded), Advance(Succeeded), Enter(0), Abandon(0), Return(0)]
  }

  lemma RunNext(s: System, labels: seq<Label>, n: nat)
    requires n < |labels|
    ensures Run(s, labels[..n + 1]) == Step(Run(s, labels[..n]), labels[n])
  {
    RunLast(s, labels[..n], labels[n]);
    assert labels[..n + 1] == labels[..n] + [labels[n]];
  }

  lemma ArmedRun()
    ensures Run(Prepared(), LostPin()[..3])
         == System(Word(ARMED, 0), Installed, 0, true, Nobody, map[0 := Outside], 0, 0)
  {
    RunNext(Prepared(), LostPin(), 0);
    RunNext(Prepared(), LostPin(), 1);
    RunNext(Prepared(), LostPin(), 2);
  }

  lemma LostPinRun()
    ensures Run(Prepared(), LostPin())
         == System(Word(ARMED, 1), Installed, 0, true, Nobody, map[0 := Outside], 1, 0)
  {
    ArmedRun();
    RunNext(Prepared(), LostPin(), 3);
    RunNext(Prepared(), LostPin(), 4);
    RunNext(Prepared(), LostPin(), 5);
    assert LostPin()[..6] == LostPin();
  }

  /** The unhook that follows is never finished: everybody is outside, the mutex is free, and in no continuation is
      the backend uninstalled. */
  lemma LostUnhook(later: seq<Label>)
    ensures Initial(Prepared())
    ensures var s := Run(Run(Prepared(), LostPin()), UnhookCall(UNINSTALLED));
            && s.record == Unhooking && s.holder.Nobody? && s.inFlight == 0 && s.activations == map[0 := Outside]
            && Run(s, later).installed
  {
    InitialInv(Prepared());
    RunInv(Prepared(), LostPin());
    LostPinRun();
    var p := Run(Prepared(), LostPin());
    UnhookUninstalls(p);
    UnhookDrains(p);
    UnhookStep(p, 5);
    var t := BeginDrain(p).(record := Unhooking);
    assert Run(p, UnhookCall(6)) == t;
    NothingToAdvance(p, 6);
    NothingToAdvance(p, 7);
    RunInv(p, UnhookCall(UNINSTALLED));
    StuckForGood(t, later);
  }

  // ---- From where the backend can still be uninstalled ----

  lemma {:induction false} RunAppend(s: System, a: seq<Label>, b: seq<Label>)
    ensures Run(s, a + b) == Run(Run(s, a), b)
    decreases b
  {
    if b == [] {
      assert a + b == a;
    } else {
      var n := |b| - 1;
      RunAppend(s, a, b[..n]);
      assert (a + b)[..|a| + n] == a + b[..n];
      assert a + b == (a + b[..n]) + [b[n]] && b == b[..n] + [b[n]];
      RunLast(s, a + b[..n], b[n]);
      RunLast(Run(s, a), b[..n], b[n]);
    }
  }

  /** Some continuation uninstalls the backend. */
  ghost predicate CanUninstall(s: System) {
    exists labels :: !Run(s, labels).installed
  }

  lemma CanAfter(s: System, l: Label)
    requires CanUninstall(Step(s, l))
    ensures CanUninstall(s)
  {
    var labels :| !Run(Step(s, l), labels).installed;
    RunLast(s, [], l);
    RunAppend(s, [l], labels);
    assert !Run(s, [l] + labels).installed;
  }

  /** How far the holder is from giving the mutex back, when every answer is a success. */
  function Distance(phase: Phase): nat {
    match phase
    case MarkInstalled => 2
    case StartUnhook => 9
    case DrainGate => 8
    case CheckIdle => 7
    case StillUnhooking => 7
    case DrainAgain => 6
    case CheckAgain => 5
    case CloseGate => 4
    case CheckClosed => 3
    case UninstallBackend => 2
    case ReopenFailed => 2
    case _ => 1
  }

  /** Hooked, with nothing lost and not retired. */
  predicate Hopeful(s: System) {
    s.installed && s.lostPins == 0 && s.record != Retired
  }

  lemma AdvanceHopeful(s: System)
    requires Inv(s) && Hopeful(s) && !s.holder.Nobody?
    ensures var t := Step(s, Advance(Succeeded));
            !t.installed || (Hopeful(t) && (t.holder.Nobody? || Distance(t.holder.phase) < Distance(s.holder.phase)))
  {
    WorkKeeps(s, s.holder.phase, Succeeded);
  }

  /** Let the holder finish, let every activation leave, then finish the unhook or start one. */
  lemma HopefulUninstalls(s: System)
    requires Inv(s) && Hopeful(s)
    ensures CanUninstall(s)
    decreases if s.holder.Nobody? then 0 else Distance(s.holder.phase)
  {
    if s.holder.Nobody? {
      LeaveAndUninstall(s);
    } else {
      AdvanceHopeful(s);
      var t := Step(s, Advance(Succeeded));
      StepInv(s, Advance(Succeeded));
      if t.installed {
        HopefulUninstalls(t);
      } else {
        assert !Run(t, []).installed;
      }
      CanAfter(s, Advance(Succeeded));
    }
  }

  ghost function Inside(activations: map<nat, Activation>): set<nat> {
    set id | id in activations && (HoldsPin(activations[id]) || HoldsCount(activations[id]))
  }

  /** How far an activation is from the exit of the record. */
  function ToExit(a: Activation): nat {
    match a
    case Pinned => 3
    case PinnedCounted => 2
    case Counted => 1
    case _ => 0
  }

  function NextLabel(a: Activation, id: nat): Label {
    match a
    case Pinned => Begin(id)
    case PinnedCounted => ReleasePin(id)
    case _ => Exit(id)
  }

  lemma OneCloser(s: System, id: nat)
    requires Inv(s) && Hopeful(s) && s.holder.Nobody? && id in s.activations && ToExit(s.activations[id]) > 0
    ensures var t := Step(s, NextLabel(s.activations[id], id));
            && Hopeful(t) && t.holder.Nobody? && id in t.activations
            && ToExit(t.activations[id]) == ToExit(s.activations[id]) - 1
            && t.activations == s.activations[id := t.activations[id]]
  {
  }

  lemma LeaveAndUninstall(s: System)
    requires Inv(s) && Hopeful(s) && s.holder.Nobody?
    ensures CanUninstall(s)
    decreases |Inside(s.activations)|, 4, 0
  {
    if id :| id in Inside(s.activations) {
      LeaveOne(s, id);
    } else {
      EverybodyOut(s);
    }
  }

  lemma LeaveOne(s: System, id: nat)
    requires Inv(s) && Hopeful(s) && s.holder.Nobody? && id in Inside(s.activations)
    ensures CanUninstall(s)
    decreases |Inside(s.activations)|, ToExit(s.activations[id]), 1
  {
    var l := NextLabel(s.activations[id], id);
    var t := Step(s, l);
    OneCloser(s, id);
    StepInv(s, l);
    if ToExit(t.activations[id]) > 0 {
      assert Inside(t.activations) == Inside(s.activations);
      LeaveOne(t, id);
    } else {
      assert Inside(t.activations) == Inside(s.activations) - {id};
      LeaveAndUninstall(t);
    }
    CanAfter(s, l);
  }

  lemma EverybodyOut(s: System)
    requires Inv(s) && Hopeful(s) && s.holder.Nobody? && Inside(s.activations) == {}
    ensures CanUninstall(s)
  {
    assert Pins(s.activations) <= Inside(s.activations) && Counts(s.activations) <= Inside(s.activations);
    assert Pins(s.activations) == {} && Counts(s.activations) == {};
    if s.record == Unhooking {
      var id :| id in s.activations && WillLook(s.activations[id]);
      assert id !in Inside(s.activations);
      CommittedUninstalls(s, id);
    } else {
      UnhookUninstalls(s);
      assert !Run(s, UnhookCall(UNINSTALLED)).installed;
    }
  }

  /** A committed activation that finds the hook idle carries the unhook through. */
  lemma CommittedUninstalls(s: System, id: nat)
    requires Inv(s) && Hopeful(s) && s.holder.Nobody? && s.record == Unhooking && s.inFlight == 0 && Entrants(s) == 0
    requires id in s.activations && s.activations[id].Committed?
    ensures CanUninstall(s)
  {
    var a := Advance(Succeeded);
    var s0 := Step(s, LockToFinish(id));
    assert s0 == s.(holder := Finisher(StillUnhooking, id));
    var s1 := Step(s0, a);
    assert s1 == s.(holder := Finisher(DrainAgain, id));
    var s2 := Step(s1, a);
    var s3 := Step(s2, a);
    assert s3 == BeginDrain(s).(holder := Finisher(CloseGate, id));
    FinisherCloses(s3);
    CanAfter(Step(Step(s3, a), a), a);
    CanAfter(Step(s3, a), a);
    CanAfter(s3, a);
    CanAfter(s2, a);
    CanAfter(s1, a);
    CanAfter(s0, a);
    CanAfter(s, LockToFinish(id));
  }

  lemma FinisherCloses(t: System)
    requires t.holder.Finisher? && t.holder.phase == CloseGate && t.installed && t.inFlight == 0 && Entrants(t) == 0
    requires Gate(t) in {INSTALLING, DRAINING, BYPASS_BACKUP}
    ensures var a := Advance(Succeeded);
            CanUninstall(Step(Step(Step(t, a), a), a))
  {
    var a := Advance(Succeeded);
    var id := t.holder.id;
    assert Step(t, a) == t.(control := Word(CLOSED, 0), holder := Finisher(CheckClosed, id));
    assert Step(Step(t, a), a) == t.(control := Word(CLOSED, 0), holder := Finisher(UninstallBackend, id));
    assert !Run(Step(Step(Step(t, a), a), a), []).installed;
  }

  /** From every reachable state with the backend in place, some continuation uninstalls it exactly when no pin is
      lost and the record is not retired. */
  lemma CanUninstallExactly(initial: System, labels: seq<Label>)
    requires Initial(initial) && Run(initial, labels).installed
    ensures var s := Run(initial, labels);
            CanUninstall(s) <==> s.lostPins == 0 && s.record != Retired
  {
    InitialInv(initial);
    RunInv(initial, labels);
    var s := Run(initial, labels);
    if Hopeful(s) {
      HopefulUninstalls(s);
    } else {
      forall later
        ensures Run(s, later).installed
      {
        StuckForGood(s, later);
      }
    }
  }
}
