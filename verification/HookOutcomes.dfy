/** What installs, entries and unhooks of a gated hook end in, by the numbers of the gate's states
    (src/host/publication_gate.cpp:87-324, src/interceptor/arm64_bridge.S:38-119, src/core/hook_registry.cpp:534-638,
    1043-1131 and 1372-1476). */
module HookOutcomes {
  import opened Wrappers
  import opened Machine
  import opened PackedWord
  import opened HookDrain
  import opened UnhookLiveness

  // ---- Installing ----

  /** An accepted install arms the gate (1). A refused one leaves it failed (5) if nothing was published, bypassing to the
      target (3) if something was, and bypassing to the backup (4) or still installing (0) if the backend is stuck. */
  lemma InstallOutcome(s: System, answer: Answer)
    requires Initial(s)
    ensures var t := Run(s, [Advance(answer), Advance(answer), Advance(answer)]);
            t == s.(holder := Nobody,
                    control := Word(match answer
                                    case Succeeded => 1
                                    case NeverPublished => 5
                                    case AfterPublished => 3
                                    case RecoveryRequired(backup) => if backup then 4 else 0, 0),
                    record := if answer == Succeeded then Installed
                              else if answer == NeverPublished then Failed
                              else FailedAfterPublished,
                    installed := answer.Succeeded? || answer.RecoveryRequired?)
  {
    var a := Advance(answer);
    ThreeSteps(s, a);
    if answer == Succeeded {
      assert Step(s, a) == s.(installed := true, holder := Caller(MarkInstalled));
      assert Step(Step(s, a), a) == s.(installed := true, record := Installed, holder := Caller(ArmGate));
    } else {
      assert Step(s, a).holder == Nobody;
    }
  }

  lemma ThreeSteps(s: System, a: Label)
    ensures Run(s, [a, a, a]) == Step(Step(Step(s, a), a), a)
  {
    RunLast(s, [], a);
    RunLast(s, [a], a);
    RunLast(s, [a, a], a);
    assert [] + [a] == [a] && [a] + [a] == [a, a] && [a, a] + [a] == [a, a, a];
  }

  // ---- Entering and leaving ----

  /** An entry by the gate's state: pinned through an armed (1) or draining (2) gate, sent to the backup by 4, left
      outside while installing (0), closed (6) or bypassing to the target (3), and trapped otherwise. */
  lemma EnterByGate(s: System, id: nat)
    requires id in s.activations && s.activations[id] == Outside
    ensures var t, gate := Step(s, Enter(id)), s.control.state;
            && (gate in {0, 3, 6} ==> t == s)
            && (gate == 4 ==> t == s.(activations := s.activations[id := Untracked]))
            && (gate in {1, 2} && s.control.count < 0xffff_ffff ==>
                  t == s.(activations := s.activations[id := Pinned], control := Word(gate, s.control.count + 1)))
            && (gate == 5 || gate > 6 || (gate in {1, 2} && s.control.count == 0xffff_ffff) ==>
                  t == s.(activations := s.activations[id := Trapped]))
  {
  }

  /** A pinned activation is counted in every record but a retired one, which keeps its pin for ever. */
  lemma BeginByRecord(s: System, id: nat)
    requires Inv(s) && id in s.activations && s.activations[id] == Pinned
    ensures s.installed && s.record != Unhooked
    ensures var t := Step(s, Begin(id));
            t == if s.record == Retired || s.record == Installing then
                   s.(activations := s.activations[id := Retained], lostPins := s.lostPins + 1)
                 else s.(activations := s.activations[id := PinnedCounted], inFlight := s.inFlight + 1)
  {
    Positive(s, id);
  }

  /** An ordinary pass through the hook gives back the pin and the count it took; the last one out of an unhooking record
      commits to finish it. */
  lemma PassThrough(s: System, id: nat)
    requires Inv(s) && id in s.activations && s.activations[id] == Pinned && s.record !in {Retired, Installing}
    ensures s.control.count > 0
    ensures var t := Step(Step(Step(s, Begin(id)), ReleasePin(id)), Exit(id));
            t == s.(control := Word(s.control.state, s.control.count - 1),
                    activations := s.activations[id := if s.inFlight == 0 && s.record == Unhooking then Committed(Leave)
                                                       else Outside])
  {
    Positive(s, id);
    BeginByRecord(s, id);
    var counted := Step(s, Begin(id));
    StepInv(s, Begin(id));
    Positive(counted, id);
    assert Step(counted, ReleasePin(id)) ==
           counted.(activations := counted.activations[id := Counted], control := Word(s.control.state, s.control.count - 1));
  }

  /** An activation whose set-up fails runs the backup behind a pin that is never given back, and so does one that is
      abandoned before it is counted. */
  lemma PinsLost(s: System, id: nat)
    requires id in s.activations
    ensures s.activations[id] == Pinned ==>
              Step(s, Abandon(id)) == s.(activations := s.activations[id := Retained], lostPins := s.lostPins + 1)
    ensures s.activations[id] == PinnedCounted && s.inFlight > 0 ==>
              Step(s, SetupFails(id))
              == s.(lostPins := s.lostPins + 1, inFlight := s.inFlight - 1,
                    activations := s.activations[id := if s.inFlight == 1 && s.record == Unhooking then Committed(RunRetained)
                                                       else Retained])
    ensures s.activations[id] in {Retained, Untracked} ==>
              Step(s, Return(id)) == s.(activations := s.activations[id := Outside])
  {
  }

  // ---- Unhooking ----

  /** The holder is about to uninstall the backend, behind a closed gate. */
  predicate AtUninstall(t: System) {
    && !t.holder.Nobody? && t.holder.phase == UninstallBackend && t.installed && t.control == Word(6, 0)
    && (t.holder.Finisher? ==> t.holder.id in t.activations)
  }

  /** A backend that refuses: the gate drains again, the record has failed, and the backend stays. */
  lemma UninstallRefused(t: System, answer: Answer)
    requires AtUninstall(t) && answer != Succeeded
    ensures var a := Advance(answer);
            Step(Step(Step(t, a), a), a) == Release(t.(control := Word(2, 0), record := Failed))
  {
    var a := Advance(answer);
    assert Step(t, a) == To(t, ReopenFailed);
    assert Step(Step(t, a), a) == To(t.(control := Word(2, 0)), MarkFailed);
  }

  /** One that agrees: the gate bypasses to the target, and the record is unhooked once the return instructions are back,
      or has failed. */
  lemma UninstallDone(t: System, answer: Answer)
    requires AtUninstall(t)
    ensures var s, a := Advance(Succeeded), Advance(answer);
            Step(Step(Step(Step(t, s), s), a), a)
            == Release(t.(control := Word(3, 0), installed := false, uninstalls := t.uninstalls + 1,
                          record := if answer == Succeeded then Unhooked else Failed))
  {
    var s, a := Advance(Succeeded), Advance(answer);
    var gone := t.(installed := false, uninstalls := t.uninstalls + 1);
    assert Step(t, s) == To(gone, BypassGate);
    Returned(gone.(control := Word(3, 0)), answer);
    assert Step(To(gone, BypassGate), s) == To(gone.(control := Word(3, 0)), RestoreReturns);
  }

  lemma Returned(t: System, answer: Answer)
    requires !t.holder.Nobody? && (t.holder.Finisher? ==> t.holder.id in t.activations)
    ensures var a := Advance(answer);
            Step(Step(To(t, RestoreReturns), a), a)
            == Release(t.(record := if answer == Succeeded then Unhooked else Failed))
  {
    var a := Advance(answer);
    var next := if answer == Succeeded then MarkUnhooked else MarkFailed;
    assert Step(To(t, RestoreReturns), a) == To(t, next);
  }

  /** An undisturbed unhook of an idle hook: the backend is gone, the record unhooked, and the gate bypasses to the
      target, so that every later entry stays outside. */
  lemma UnhookCompletes(s: System)
    requires Inv(s) && Unhookable(s) && s.inFlight == 0 && Entrants(s) == 0
    ensures Run(s, UnhookCall(11)) == s.(control := Word(3, 0), record := Unhooked, installed := false, uninstalls := 1)
  {
    var closed := s.(record := Unhooking, control := Word(6, 0), holder := Caller(UninstallBackend));
    UnhookCloses7(s);
    UninstallDone(closed, Succeeded);
    FourMore(s, closed);
  }

  lemma FourMore(s: System, t: System)
    requires Run(s, UnhookCall(7)) == t
    ensures var a := Advance(Succeeded);
            Run(s, UnhookCall(11)) == Step(Step(Step(Step(t, a), a), a), a)
  {
    UnhookStep(s, 7);
    UnhookStep(s, 8);
    UnhookStep(s, 9);
    UnhookStep(s, 10);
  }

  /** It closes the gate and comes to the uninstall. */
  lemma UnhookCloses7(s: System)
    requires Inv(s) && Unhookable(s) && s.inFlight == 0 && Entrants(s) == 0
    ensures Run(s, UnhookCall(7)) == s.(record := Unhooking, control := Word(6, 0), holder := Caller(UninstallBackend))
  {
    UnhookDrains(s);
    UnhookStep(s, 5);
    CloseStep(Run(s, UnhookCall(5)));
    UnhookStep(s, 6);
  }

  lemma CloseStep(t: System)
    requires t.holder == Caller(CloseGate) && t.inFlight == 0
    ensures Entrants(t) > 0 ==> Step(t, Advance(Succeeded)) == t.(holder := Nobody)
    ensures Entrants(t) == 0 && Gate(t) in {INSTALLING, DRAINING, BYPASS_BACKUP} ==>
              Step(Step(t, Advance(Succeeded)), Advance(Succeeded))
              == t.(control := Word(6, 0), holder := Caller(UninstallBackend))
  {
    if Entrants(t) == 0 && Gate(t) in {INSTALLING, DRAINING, BYPASS_BACKUP} {
      assert Step(t, Advance(Succeeded)) == t.(control := Word(6, 0), holder := Caller(CheckClosed));
    }
  }

  /** An undisturbed unhook of a hook somebody is in: it drains and is left to be finished, with nothing else changed. */
  lemma UnhookPostponed(s: System)
    requires Inv(s) && Unhookable(s) && (s.inFlight > 0 || Entrants(s) > 0)
    ensures Run(s, UnhookCall(8))
         == s.(record := Unhooking, control := Word(if s.control.state == 1 then 2 else s.control.state, s.control.count))
  {
    if s.inFlight > 0 {
      UnhookDefers(s);
    } else {
      UnhookRuns(s);
      NothingToAdvance(s, 6);
      NothingToAdvance(s, 7);
    }
  }

  lemma UnhookRuns(s: System)
    requires Inv(s) && Unhookable(s) && s.inFlight == 0 && Entrants(s) > 0
    ensures Run(s, UnhookCall(6)) == BeginDrain(s).(record := Unhooking)
  {
    UnhookDrains(s);
    UnhookStep(s, 5);
    CloseStep(Run(s, UnhookCall(5)));
  }

  /** An unhook of a record that is unhooked, unhooking or retired changes nothing. */
  lemma UnhookRefused(s: System)
    requires s.holder.Nobody? && s.record in {Unhooked, Unhooking, Retired}
    ensures Run(s, UnhookCall(1)) == s
  {
    UnhookStep(s, 0);
  }

  /** Retirement takes every record but an unhooked one, and only between calls. */
  lemma RetireOutcome(s: System)
    ensures Step(s, Retire) == if s.holder == Nobody && s.record != Unhooked then s.(record := Retired) else s
  {
  }

  /** Giving back the mutex: a committed activation goes on to leave, or to run the backup behind its lost pin. */
  lemma ReleaseOutcome(s: System)
    ensures s.holder.Caller? || s.holder == Nobody ==> Release(s) == s.(holder := Nobody)
    ensures s.holder.Finisher? && s.holder.id in s.activations && s.activations[s.holder.id] == Committed(Leave) ==>
              Release(s) == s.(holder := Nobody, activations := s.activations[s.holder.id := Outside])
    ensures s.holder.Finisher? && s.holder.id in s.activations && s.activations[s.holder.id] == Committed(RunRetained) ==>
              Release(s) == s.(holder := Nobody, activations := s.activations[s.holder.id := Retained])
  {
  }

  /** `n` steps of the holder, answered with success. */
  function Advanced(s: System, n: nat): System {
    if n == 0 then s else Step(Advanced(s, n - 1), Advance(Succeeded))
  }

  /** A committed activation that finds the record still unhooking and idle carries the unhook through and leaves. */
  lemma FinisherCompletes(s: System, id: nat)
    requires Inv(s) && s.holder == Nobody && s.record == Unhooking && s.installed && s.inFlight == 0 && Entrants(s) == 0
    requires id in s.activations && s.activations[id] == Committed(Leave)
    ensures Advanced(Step(s, LockToFinish(id)), 9)
         == s.(control := Word(3, 0), record := Unhooked, installed := false, uninstalls := 1,
               activations := s.activations[id := Outside])
  {
    var t := s.(control := Word(6, 0), holder := Finisher(UninstallBackend, id));
    FinisherToUninstall(s, id);
    FourAdvances(Step(s, LockToFinish(id)), 5);
    UninstallDone(t, Succeeded);
    ReleaseOutcome(t.(control := Word(3, 0), installed := false, uninstalls := 1, record := Unhooked));
  }

  lemma FourAdvances(s: System, n: nat)
    ensures var a, t := Advance(Succeeded), Advanced(s, n);
            Advanced(s, n + 4) == Step(Step(Step(Step(t, a), a), a), a)
  {
    OneAdvance(s, n);
    OneAdvance(s, n + 1);
    OneAdvance(s, n + 2);
    OneAdvance(s, n + 3);
  }

  lemma OneAdvance(s: System, n: nat)
    ensures Advanced(s, n + 1) == Step(Advanced(s, n), Advance(Succeeded))
  {
  }

  lemma FinisherToUninstall(s: System, id: nat)
    requires Inv(s) && s.holder == Nobody && s.record == Unhooking && s.installed && s.inFlight == 0 && Entrants(s) == 0
    requires id in s.activations && s.activations[id] == Committed(Leave)
    ensures Advanced(Step(s, LockToFinish(id)), 5) == s.(control := Word(6, 0), holder := Finisher(UninstallBackend, id))
  {
    var s0 := s.(holder := Finisher(StillUnhooking, id));
    assert Step(s, LockToFinish(id)) == s0;
    assert Advanced(s0, 1) == s.(holder := Finisher(DrainAgain, id));
    var drained := BeginDrain(s);
    assert Advanced(s0, 2) == drained.(holder := Finisher(CheckAgain, id));
    assert Advanced(s0, 3) == drained.(holder := Finisher(CloseGate, id));
    assert Advanced(s0, 4) == s.(control := Word(6, 0), holder := Finisher(CheckClosed, id));
    assert Advanced(s0, 5) == Step(Advanced(s0, 4), Advance(Succeeded));
  }

  /** One that finds the record no longer unhooking leaves at once; one that finds somebody in the hook leaves it to
      them. */
  lemma FinisherLeaves(s: System, id: nat)
    requires s.holder == Nobody && id in s.activations && s.activations[id] == Committed(Leave)
    ensures s.record != Unhooking ==>
              Advanced(Step(s, LockToFinish(id)), 1) == s.(activations := s.activations[id := Outside])
    ensures s.record == Unhooking && s.installed && s.inFlight > 0 ==>
              Advanced(Step(s, LockToFinish(id)), 3)
              == s.(activations := s.activations[id := Outside],
                    control := Word(if s.control.state == 1 then 2 else s.control.state, s.control.count))
  {
    var s0 := s.(holder := Finisher(StillUnhooking, id));
    assert Step(s, LockToFinish(id)) == s0;
    assert Advanced(s0, 1) == Step(s0, Advance(Succeeded));
    if s.record == Unhooking && s.installed {
      assert Advanced(s0, 1) == s.(holder := Finisher(DrainAgain, id));
      assert Advanced(s0, 2) == BeginDrain(s).(holder := Finisher(CheckAgain, id));
      assert Advanced(s0, 3) == Step(Advanced(s0, 2), Advance(Succeeded));
    }
  }

  // ---- Over whole runs ----

  /** The gate has failed only after an install that published nothing. */
  lemma {:induction false} FailedOnlyUnpublished(s: System, labels: seq<Label>)
    requires Initial(s)
    ensures Run(s, labels).control.state == 5 ==> Answered(s, labels, NeverPublished)
  {
    if labels != [] {
      var n := |labels| - 1;
      var before := Run(s, labels[..n]);
      FailedOnlyUnpublished(s, labels[..n]);
      InitialInv(s);
      RunInv(s, labels[..n]);
      if before.control.state == 5 {
        AnsweredEarlier(s, labels, NeverPublished);
      } else {
        GateMoves(before, labels[n]);
        assert AnsweredAt(s, labels, NeverPublished, n)
               == (before.holder == Caller(InstallBackend) && labels[n] == Advance(NeverPublished));
      }
    }
  }

  /** How the gate comes to fail, to bypass to the target, to be armed, and to leave the armed state. */
  lemma GateMoves(s: System, l: Label)
    requires Inv(s)
    ensures var gate, next := s.control.state, Step(s, l).control.state;
            && (gate != 5 && next == 5 ==> s.holder == Caller(InstallBackend) && l == Advance(NeverPublished))
            && (gate != 3 && next == 3 ==>
                  || (s.holder == Caller(InstallBackend) && l == Advance(AfterPublished))
                  || (!s.holder.Nobody? && s.holder.phase == BypassGate && l.Advance?))
            && (gate != 1 && next == 1 ==> s.holder == Caller(ArmGate) && l.Advance?)
            && (gate == 1 && next != 1 ==> next == 2)
  {
    if l.Advance? {
      if !s.holder.Nobody? {
        WorkMoves(s, s.holder.phase, l.answer);
      }
    } else if !l.LockForUnhook? && !l.Retire? && l.id in s.activations {
      ActKeepsGate(s, l, s.activations[l.id]);
    }
  }

  lemma WorkMoves(s: System, phase: Phase, answer: Answer)
    requires InPhase(s, phase) && (phase == BypassGate ==> s.control.state == 6)
    ensures var gate, next := s.control.state, Work(s, phase, answer).control.state;
            && (gate != 5 && next == 5 ==> phase == InstallBackend && answer == NeverPublished)
            && (gate != 3 && next == 3 ==> (phase == InstallBackend && answer == AfterPublished) || phase == BypassGate)
            && (gate != 1 && next == 1 ==> phase == ArmGate)
            && (gate == 1 && next != 1 ==> next == 2)
    ensures phase == BypassGate ==> Work(s, phase, answer).control.state == 3
  {
  }

  predicate AtBypass(s: System) {
    !s.holder.Nobody? && s.holder.phase == BypassGate
  }

  /** Once the backend is uninstalled the gate bypasses to the target, but for the moment before the holder's next
      step. */
  ghost predicate Bypassed(s: System) {
    && (s.uninstalls > 0 ==> s.control.state == 3 || AtBypass(s))
    && (AtBypass(s) ==> s.uninstalls > 0)
  }

  lemma StepBypassed(s: System, l: Label)
    requires Inv(s) && Bypassed(s)
    ensures Bypassed(Step(s, l))
  {
    if l.Advance? {
      if !s.holder.Nobody? {
        ProceedBypassed(s, l.answer);
      }
    } else if !l.LockForUnhook? && !l.Retire? && l.id in s.activations {
      ActKeepsGate(s, l, s.activations[l.id]);
      ActKeepsHolder(s, l, s.activations[l.id]);
    }
  }

  lemma ActKeepsHolder(s: System, l: Label, a: Activation)
    requires !l.LockForUnhook? && !l.Retire? && !l.Advance?
    ensures Act(s, l, a).uninstalls == s.uninstalls
    ensures Act(s, l, a).holder == s.holder || (s.holder.Nobody? && Act(s, l, a).holder.phase == StillUnhooking)
  {
  }

  lemma ProceedBypassed(s: System, answer: Answer)
    requires Inv(s) && Bypassed(s) && !s.holder.Nobody?
    ensures Bypassed(Proceed(s, s.holder.phase, answer))
  {
    var w, next := Work(s, s.holder.phase, answer), NextPhase(s, s.holder.phase, answer);
    WorkMoves(s, s.holder.phase, answer);
    WorkBypasses(s, s.holder.phase, answer);
    if next.None? {
      HolderKeeps(w);
    }
  }

  lemma WorkBypasses(s: System, phase: Phase, answer: Answer)
    requires Inv(s) && !s.holder.Nobody? && phase == s.holder.phase && Bypassed(s)
    ensures var w, next := Work(s, phase, answer), NextPhase(s, phase, answer);
            && (w.uninstalls > 0 ==> w.control.state == 3 || next == Some(BypassGate))
            && (next == Some(BypassGate) ==> w.uninstalls > 0)
            && w.holder == s.holder
  {
  }

  /** In every interleaving, from the step after the uninstall on, the gate's state is 3 and an entry stays outside. */
  lemma {:induction false} BypassedForGood(s: System, labels: seq<Label>)
    requires Initial(s)
    ensures Bypassed(Run(s, labels))
  {
    if labels != [] {
      var n := |labels| - 1;
      BypassedForGood(s, labels[..n]);
      InitialInv(s);
      RunInv(s, labels[..n]);
      StepBypassed(Run(s, labels[..n]), labels[n]);
    }
  }

  lemma EntersTarget(initial: System, labels: seq<Label>, id: nat)
    requires Initial(initial)
    ensures var s := Run(initial, labels);
            s.uninstalls > 0 && !AtBypass(s) ==>
              && s.control.state == 3
              && (id in s.activations && s.activations[id] == Outside ==> Step(s, Enter(id)) == s)
  {
    BypassedForGood(initial, labels);
  }

  /** The gate bypasses to the target only once the backend is uninstalled, or after an install that failed with something
      published. */
  lemma {:induction false} TargetOnlyAfter(s: System, labels: seq<Label>)
    requires Initial(s)
    ensures Run(s, labels).control.state == 3 ==> Run(s, labels).uninstalls > 0 || Answered(s, labels, AfterPublished)
  {
    if labels != [] {
      var n := |labels| - 1;
      var before := Run(s, labels[..n]);
      TargetOnlyAfter(s, labels[..n]);
      BypassedForGood(s, labels[..n]);
      InitialInv(s);
      RunInv(s, labels[..n]);
      UninstallsGrow(before, labels[n]);
      if Answered(s, labels[..n], AfterPublished) {
        AnsweredEarlier(s, labels, AfterPublished);
      }
      GateMoves(before, labels[n]);
      assert AnsweredAt(s, labels, AfterPublished, n)
             == (before.holder == Caller(InstallBackend) && labels[n] == Advance(AfterPublished));
    }
  }

  lemma UninstallsGrow(s: System, l: Label)
    requires Inv(s)
    ensures Step(s, l).uninstalls >= s.uninstalls
  {
    if l.Advance? && !s.holder.Nobody? {
      HolderKeeps(Work(s, s.holder.phase, l.answer));
    }
  }
}
