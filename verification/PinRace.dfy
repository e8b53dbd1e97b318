/** Concurrent pins of generated roots (adapters/flutter_vm/flutter_vm.cpp:1767-1843). Each call races for one of the
    leases, then for one root slot after the other, and gives everything back when it runs out or is unpinned.

    Both races are those of RootRace. Each label is one atomic access of one call, so every sequence of labels is an
    interleaving. A call without values, or with more than a lease holds, is refused before it touches anything. */
module PinRace {
  import opened Machine
  import Slots = RootRace

  const ROOTS_PER_LEASE: nat := 96

  /** What a call does next. `got` roots hold their values; `at` is the next root to give back of `count`. */
  datatype Phase =
    | Idle | Busy | SeekLease | Seek(got: nat) | Fill(got: nat) | Pinned
    | StoreNull(at: nat, count: nat, refused: bool) | Clear(at: nat, count: nat, refused: bool)
    | GiveLease(refused: bool)

  datatype Call = Call(values: seq<U64>, phase: Phase)

  datatype System = System(leases: Slots.System, roots: Slots.System, calls: map<nat, Call>)

  datatype Label =
    | Begin(call: nat, values: seq<U64>) | Advance(call: nat) | Set(call: nat, index: nat, value: U64) | Unpin(call: nat)

  predicate Ongoing(phase: Phase) {
    !phase.Idle? && !phase.Busy?
  }

  predicate InBounds(s: System) {
    Slots.InBounds(s.leases) && Slots.InBounds(s.roots)
  }

  function To(s: System, c: nat, phase: Phase): System
    requires c in s.calls
  {
    s.(calls := s.calls[c := s.calls[c].(phase := phase)])
  }

  function Step(s: System, l: Label): (next: System)
    requires InBounds(s)
    ensures InBounds(next)
    ensures |next.leases.used| == |s.leases.used| && |next.roots.used| == |s.roots.used|
  {
    if l.call !in s.calls then s
    else
      var call := s.calls[l.call];
      match l
      case Begin(c, values) =>
        if Ongoing(call.phase) || values == [] || |values| > ROOTS_PER_LEASE then s
        else s.(leases := Slots.Step(s.leases, Slots.Begin(Slots.Need(c, 0))),
                calls := s.calls[c := Call(values, SeekLease)])
      case Set(c, index, value) =>
        if !call.phase.Pinned? || index >= |call.values| then s
        else s.(roots := Slots.Step(s.roots, Slots.Store(Slots.Need(c, index), value)),
                calls := s.calls[c := call.(values := call.values[index := value])])
      case Unpin(c) => if call.phase.Pinned? then To(s, c, StoreNull(0, |call.values|, false)) else s
      case Advance(c) => Proceed(s, c, call)
  }

  /** The next access of the call. */
  function Proceed(s: System, c: nat, call: Call): (next: System)
    requires InBounds(s) && c in s.calls
    ensures InBounds(next)
    ensures |next.leases.used| == |s.leases.used| && |next.roots.used| == |s.roots.used|
  {
    match call.phase
    case SeekLease => TryLease(s, c)
    case Seek(got) => TryRoot(s, c, got)
    case Fill(got) => if got < |call.values| then StoreRoot(s, c, call, got) else s
    case StoreNull(at, count, refused) =>
      To(s, c, Clear(at, count, refused)).(roots := Slots.Step(s.roots, Slots.StoreNull(Slots.Need(c, at))))
    case Clear(at, count, refused) =>
      To(s, c, if at + 1 < count then StoreNull(at + 1, count, refused) else GiveLease(refused))
      .(roots := Slots.Step(s.roots, Slots.Clear(Slots.Need(c, at))))
    case GiveLease(refused) =>
      To(s, c, if refused then Busy else Idle).(leases := Slots.Step(s.leases, Slots.Clear(Slots.Need(c, 0))))
    case _ => s
  }

  /** One compare-and-swap on a lease; with a lease the call turns to its first root. */
  function TryLease(s: System, c: nat): (next: System)
    requires InBounds(s) && c in s.calls
    ensures InBounds(next)
    ensures |next.leases.used| == |s.leases.used| && |next.roots.used| == |s.roots.used|
  {
    var leases := Slots.Step(s.leases, Slots.Try(Slots.Need(c, 0)));
    match Slots.TaskAt(leases, Slots.Need(c, 0))
    case Acquired(_) =>
      To(s, c, Seek(0)).(leases := leases, roots := Slots.Step(s.roots, Slots.Begin(Slots.Need(c, 0))))
    case Refused => To(s, c, Busy).(leases := leases)
    case _ => s.(leases := leases)
  }

  /** One compare-and-swap on a root slot; a call that runs out gives back what it has. */
  function TryRoot(s: System, c: nat, got: nat): (next: System)
    requires InBounds(s) && c in s.calls
    ensures InBounds(next)
    ensures |next.leases.used| == |s.leases.used| && |next.roots.used| == |s.roots.used|
  {
    var roots := Slots.Step(s.roots, Slots.Try(Slots.Need(c, got)));
    match Slots.TaskAt(roots, Slots.Need(c, got))
    case Acquired(_) => To(s, c, Fill(got)).(roots := roots)
    case Refused => To(s, c, if got == 0 then GiveLease(true) else StoreNull(0, got, true)).(roots := roots)
    case _ => s.(roots := roots)
  }

  /** The value goes in, and the call turns to its next root. */
  function StoreRoot(s: System, c: nat, call: Call, got: nat): (next: System)
    requires InBounds(s) && c in s.calls && got < |call.values|
    ensures InBounds(next)
    ensures |next.leases.used| == |s.leases.used| && |next.roots.used| == |s.roots.used|
  {
    var stored := Slots.Step(s.roots, Slots.Store(Slots.Need(c, got), call.values[got]));
    if got + 1 < |call.values| then
      To(s, c, Seek(got + 1)).(roots := Slots.Step(stored, Slots.Begin(Slots.Need(c, got + 1))))
    else To(s, c, Pinned).(roots := stored)
  }

  function Run(s: System, labels: seq<Label>): (end: System)
    requires InBounds(s)
    ensures InBounds(end)
    ensures |end.leases.used| == |s.leases.used| && |end.roots.used| == |s.roots.used|
    decreases labels
  {
    if labels == [] then s else Run(Step(s, labels[0]), labels[1..])
  }

  predicate Initial(s: System) {
    && Slots.Initial(s.leases) && Slots.Initial(s.roots)
    && forall c :: c in s.calls ==> s.calls[c] == Call([], Idle)
  }

  // ---- What every step keeps ----

  predicate Holds(call: Call, k: nat, t: Slots.Task) {
    t.Holding? && k < |call.values| && t.value == call.values[k]
  }

  /** What root number `k` of a call is, in each phase of it. */
  predicate RootAs(call: Call, k: nat, t: Slots.Task) {
    match call.phase
    case Seek(got) => if k < got then Holds(call, k, t) else if k == got then t.Scanning? else !Slots.Active(t)
    case Fill(got) => if k < got then Holds(call, k, t) else if k == got then t.Acquired? else !Slots.Active(t)
    case Pinned => if k < |call.values| then Holds(call, k, t) else !Slots.Active(t)
    case StoreNull(at, count, _) => if at <= k < count then Holds(call, k, t) else !Slots.Active(t)
    case Clear(at, count, _) =>
      if k == at then t.Releasing? else if at < k < count then Holds(call, k, t) else !Slots.Active(t)
    case _ => !Slots.Active(t)
  }

  predicate LeaseAs(phase: Phase, t: Slots.Task) {
    if phase.SeekLease? then t.Scanning? else if Ongoing(phase) then t.Acquired? else !Slots.Active(t)
  }

  predicate InRange(call: Call) {
    && |call.values| <= ROOTS_PER_LEASE
    && match call.phase
       case SeekLease => call.values != []
       case Pinned => call.values != []
       case Seek(got) => got < |call.values|
       case Fill(got) => got < |call.values|
       case StoreNull(at, count, _) => at < count <= |call.values|
       case Clear(at, count, _) => at < count <= |call.values|
       case _ => true
  }

  ghost predicate Agrees(s: System, c: nat)
    requires c in s.calls
  {
    && InRange(s.calls[c])
    && LeaseAs(s.calls[c].phase, Slots.TaskAt(s.leases, Slots.Need(c, 0)))
    && forall k: nat :: RootAs(s.calls[c], k, Slots.TaskAt(s.roots, Slots.Need(c, k)))
  }

  /** Only calls need slots, and each of them one lease. */
  ghost predicate NoStrays(s: System) {
    && (forall id :: Slots.Active(Slots.TaskAt(s.leases, id)) ==> id.call in s.calls && id.index == 0)
    && (forall id :: Slots.Active(Slots.TaskAt(s.roots, id)) ==> id.call in s.calls)
  }

  ghost predicate Inv(s: System) {
    && Slots.Inv(s.leases) && Slots.Inv(s.roots) && NoStrays(s)
    && forall c :: c in s.calls ==> Agrees(s, c)
  }

  lemma InitialInv(s: System)
    requires Initial(s)
    ensures Inv(s)
  {
    Slots.InitialInv(s.leases);
    Slots.InitialInv(s.roots);
  }

  /** What a step does in the race for leases. */
  function LeaseLabels(s: System, l: Label): seq<Slots.Label>
    requires InBounds(s)
  {
    if l.call !in s.calls then []
    else
      var need, call := Slots.Need(l.call, 0), s.calls[l.call];
      match l
      case Begin(_, values) =>
        if Ongoing(call.phase) || values == [] || |values| > ROOTS_PER_LEASE then [] else [Slots.Begin(need)]
      case Advance(_) =>
        if call.phase.SeekLease? then [Slots.Try(need)] else if call.phase.GiveLease? then [Slots.Clear(need)] else []
      case _ => []
  }

  /** What it does in the race for root slots. */
  function RootLabels(s: System, l: Label): seq<Slots.Label>
    requires InBounds(s)
  {
    if l.call !in s.calls then []
    else
      match l
      case Set(c, index, value) =>
        if s.calls[c].phase.Pinned? && index < |s.calls[c].values| then [Slots.Store(Slots.Need(c, index), value)] else []
      case Advance(c) => AdvanceLabels(s, c, s.calls[c])
      case _ => []
  }

  function AdvanceLabels(s: System, c: nat, call: Call): seq<Slots.Label>
    requires InBounds(s)
  {
    match call.phase
    case SeekLease =>
      if Slots.TaskAt(Slots.Step(s.leases, Slots.Try(Slots.Need(c, 0))), Slots.Need(c, 0)).Acquired? then
        [Slots.Begin(Slots.Need(c, 0))]
      else []
    case Seek(got) => [Slots.Try(Slots.Need(c, got))]
    case Fill(got) =>
      if got >= |call.values| then []
      else [Slots.Store(Slots.Need(c, got), call.values[got])]
           + if got + 1 < |call.values| then [Slots.Begin(Slots.Need(c, got + 1))] else []
    case StoreNull(at, _, _) => [Slots.StoreNull(Slots.Need(c, at))]
    case Clear(at, _, _) => [Slots.Clear(Slots.Need(c, at))]
    case _ => []
  }

  lemma RunNone(s: Slots.System)
    requires Slots.InBounds(s)
    ensures Slots.Run(s, []) == s
  {
  }

  lemma RunOne(s: Slots.System, l: Slots.Label)
    requires Slots.InBounds(s)
    ensures Slots.Run(s, [l]) == Slots.Step(s, l)
  {
    assert [l][1..] == [];
  }

  lemma RunTwo(s: Slots.System, l: Slots.Label, m: Slots.Label)
    requires Slots.InBounds(s)
    ensures Slots.Run(s, [l] + [m]) == Slots.Step(Slots.Step(s, l), m)
  {
    assert ([l] + [m])[1..] == [m];
    RunOne(Slots.Step(s, l), m);
  }

  /** Every step of a call is a run of each of the two races. */
  lemma StepProjects(s: System, l: Label)
    requires InBounds(s)
    ensures Step(s, l).leases == Slots.Run(s.leases, LeaseLabels(s, l))
    ensures Step(s, l).roots == Slots.Run(s.roots, RootLabels(s, l))
  {
    LeaseProjects(s, l);
    RootProjects(s, l);
  }

  lemma LeaseProjects(s: System, l: Label)
    requires InBounds(s)
    ensures Step(s, l).leases == Slots.Run(s.leases, LeaseLabels(s, l))
  {
    RunNone(s.leases);
    if LeaseLabels(s, l) != [] {
      RunOne(s.leases, LeaseLabels(s, l)[0]);
    }
  }

  lemma RootProjects(s: System, l: Label)
    requires InBounds(s)
    ensures Step(s, l).roots == Slots.Run(s.roots, RootLabels(s, l))
  {
    RunNone(s.roots);
    if l.call in s.calls && l.Advance? && s.calls[l.call].phase.Fill? {
      FillProjects(s, l.call, s.calls[l.call], s.calls[l.call].phase.got);
    } else if RootLabels(s, l) != [] {
      RunOne(s.roots, RootLabels(s, l)[0]);
    }
  }

  lemma FillProjects(s: System, c: nat, call: Call, got: nat)
    requires InBounds(s) && c in s.calls && s.calls[c] == call && call.phase == Fill(got)
    ensures Step(s, Advance(c)).roots == Slots.Run(s.roots, RootLabels(s, Advance(c)))
  {
    RunNone(s.roots);
    if got < |call.values| {
      var store, begin := Slots.Store(Slots.Need(c, got), call.values[got]), Slots.Begin(Slots.Need(c, got + 1));
      RunOne(s.roots, store);
      RunTwo(s.roots, store, begin);
      assert [store] + [] == [store];
    }
  }

  lemma StepSlots(s: System, l: Label)
    requires Inv(s)
    ensures Slots.Inv(Step(s, l).leases) && Slots.Inv(Step(s, l).roots)
  {
    StepProjects(s, l);
    Slots.RunInv(s.leases, LeaseLabels(s, l));
    Slots.RunInv(s.roots, RootLabels(s, l));
  }

  /** A step of one call leaves the others' tasks alone. */
  ghost predicate OnlyOf(s: System, next: System, c: nat) {
    && next.calls.Keys == s.calls.Keys && (forall d :: d in s.calls && d != c ==> next.calls[d] == s.calls[d])
    && (forall id: Slots.Need :: id.call != c ==> Slots.TaskAt(next.leases, id) == Slots.TaskAt(s.leases, id))
    && (forall id: Slots.Need :: id.call != c ==> Slots.TaskAt(next.roots, id) == Slots.TaskAt(s.roots, id))
    && (forall k: nat :: k != 0 ==> Slots.TaskAt(next.leases, Slots.Need(c, k)) == Slots.TaskAt(s.leases, Slots.Need(c, k)))
  }

  lemma StepOnlyOf(s: System, l: Label)
    requires InBounds(s)
    ensures OnlyOf(s, Step(s, l), l.call)
  {
    if l.Advance? && l.call in s.calls {
      ProceedOnlyOf(s, l.call, s.calls[l.call]);
    }
  }

  lemma ProceedOnlyOf(s: System, c: nat, call: Call)
    requires InBounds(s) && c in s.calls
    ensures OnlyOf(s, Proceed(s, c, call), c)
  {
    match call.phase {
      case SeekLease => assert OnlyOf(s, TryLease(s, c), c);
      case Seek(got) => assert OnlyOf(s, TryRoot(s, c, got), c);
      case Fill(got) => assert got < |call.values| ==> OnlyOf(s, StoreRoot(s, c, call, got), c);
      case _ =>
    }
  }

  lemma StepAgrees(s: System, l: Label)
    requires Inv(s) && l.call in s.calls
    ensures Agrees(Step(s, l), l.call)
  {
    var c, call := l.call, s.calls[l.call];
    assert Agrees(s, c);
    match l {
      case Begin(_, _) => assert RootAs(call, 0, Slots.TaskAt(s.roots, Slots.Need(c, 0)));
      case Set(_, index, value) => SetAgrees(s, c, index, value);
      case Unpin(_) =>
      case Advance(_) => ProceedAgrees(s, c);
    }
  }

  lemma SetAgrees(s: System, c: nat, index: nat, value: U64)
    requires InBounds(s) && c in s.calls && Agrees(s, c)
    ensures Agrees(Step(s, Set(c, index, value)), c)
  {
    var call, next := s.calls[c], Step(s, Set(c, index, value));
    if call.phase.Pinned? && index < |call.values| {
      forall k: nat
        ensures RootAs(next.calls[c], k, Slots.TaskAt(next.roots, Slots.Need(c, k)))
      {
        assert RootAs(call, k, Slots.TaskAt(s.roots, Slots.Need(c, k)));
      }
    }
  }

  lemma ProceedAgrees(s: System, c: nat)
    requires InBounds(s) && c in s.calls && Agrees(s, c)
    ensures Agrees(Proceed(s, c, s.calls[c]), c)
  {
    var call, next := s.calls[c], Proceed(s, c, s.calls[c]);
    forall k: nat
      ensures RootAs(next.calls[c], k, Slots.TaskAt(next.roots, Slots.Need(c, k)))
    {
      NextRootAs(s, c, k);
    }
    NextLeaseAs(s, c);
    NextInRange(s, c);
  }

  lemma NextRootAs(s: System, c: nat, k: nat)
    requires InBounds(s) && c in s.calls && Agrees(s, c)
    ensures var next := Proceed(s, c, s.calls[c]);
            RootAs(next.calls[c], k, Slots.TaskAt(next.roots, Slots.Need(c, k)))
  {
    var call := s.calls[c];
    assert RootAs(call, k, Slots.TaskAt(s.roots, Slots.Need(c, k)));
    match call.phase {
      case SeekLease => assert RootAs(call, 0, Slots.TaskAt(s.roots, Slots.Need(c, 0)));
      case Seek(got) => SeekRootAs(s, c, k, got);
      case Fill(got) => FillRootAs(s, c, k, got);
      case StoreNull(at, _, _) => NullRootAs(s, c, k);
      case Clear(at, _, _) => ClearRootAs(s, c, k);
      case _ =>
    }
  }

  lemma SeekRootAs(s: System, c: nat, k: nat, got: nat)
    requires InBounds(s) && c in s.calls && Agrees(s, c) && s.calls[c].phase == Seek(got)
    ensures var next := TryRoot(s, c, got);
            RootAs(next.calls[c], k, Slots.TaskAt(next.roots, Slots.Need(c, k)))
  {
    assert RootAs(s.calls[c], k, Slots.TaskAt(s.roots, Slots.Need(c, k)));
    assert RootAs(s.calls[c], got, Slots.TaskAt(s.roots, Slots.Need(c, got)));
  }

  lemma FillRootAs(s: System, c: nat, k: nat, got: nat)
    requires InBounds(s) && c in s.calls && Agrees(s, c) && s.calls[c].phase == Fill(got)
    ensures var next := StoreRoot(s, c, s.calls[c], got);
            RootAs(next.calls[c], k, Slots.TaskAt(next.roots, Slots.Need(c, k)))
  {
    assert RootAs(s.calls[c], k, Slots.TaskAt(s.roots, Slots.Need(c, k)));
    assert RootAs(s.calls[c], got, Slots.TaskAt(s.roots, Slots.Need(c, got)));
    assert RootAs(s.calls[c], got + 1, Slots.TaskAt(s.roots, Slots.Need(c, got + 1)));
  }

  lemma NullRootAs(s: System, c: nat, k: nat)
    requires InBounds(s) && c in s.calls && Agrees(s, c) && s.calls[c].phase.StoreNull?
    ensures var next := Proceed(s, c, s.calls[c]);
            RootAs(next.calls[c], k, Slots.TaskAt(next.roots, Slots.Need(c, k)))
  {
    var at := s.calls[c].phase.at;
    assert RootAs(s.calls[c], k, Slots.TaskAt(s.roots, Slots.Need(c, k)));
    assert RootAs(s.calls[c], at, Slots.TaskAt(s.roots, Slots.Need(c, at)));
  }

  lemma ClearRootAs(s: System, c: nat, k: nat)
    requires InBounds(s) && c in s.calls && Agrees(s, c) && s.calls[c].phase.Clear?
    ensures var next := Proceed(s, c, s.calls[c]);
            RootAs(next.calls[c], k, Slots.TaskAt(next.roots, Slots.Need(c, k)))
  {
    var at := s.calls[c].phase.at;
    assert RootAs(s.calls[c], k, Slots.TaskAt(s.roots, Slots.Need(c, k)));
    assert RootAs(s.calls[c], at, Slots.TaskAt(s.roots, Slots.Need(c, at)));
  }

  lemma NextLeaseAs(s: System, c: nat)
    requires InBounds(s) && c in s.calls && LeaseAs(s.calls[c].phase, Slots.TaskAt(s.leases, Slots.Need(c, 0)))
    ensures LeaseAs(Proceed(s, c, s.calls[c]).calls[c].phase,
                    Slots.TaskAt(Proceed(s, c, s.calls[c]).leases, Slots.Need(c, 0)))
  {
    if s.calls[c].phase.SeekLease? {
      TriedLeaseAs(s, c);
    }
  }

  lemma TriedLeaseAs(s: System, c: nat)
    requires InBounds(s) && c in s.calls && s.calls[c].phase.SeekLease?
    requires Slots.TaskAt(s.leases, Slots.Need(c, 0)).Scanning?
    ensures LeaseAs(TryLease(s, c).calls[c].phase, Slots.TaskAt(TryLease(s, c).leases, Slots.Need(c, 0)))
  {
  }

  lemma NextInRange(s: System, c: nat)
    requires InBounds(s) && c in s.calls && InRange(s.calls[c])
    ensures InRange(Proceed(s, c, s.calls[c]).calls[c])
  {
  }

  lemma StepInv(s: System, l: Label)
    requires Inv(s)
    ensures Inv(Step(s, l))
  {
    StepSlots(s, l);
    StepOnlyOf(s, l);
    if l.call in s.calls {
      StepAgrees(s, l);
    }
    forall c | c in s.calls && c != l.call
      ensures Agrees(Step(s, l), c)
    {
      assert Agrees(s, c);
    }
  }

  lemma {:induction false} RunInv(s: System, labels: seq<Label>)
    requires Inv(s)
    ensures Inv(Run(s, labels))
    decreases labels
  {
    if labels != [] {
      StepInv(s, labels[0]);
      RunInv(Step(s, labels[0]), labels[1..]);
    }
  }

  // ---- What a call holds ----

  predicate StillHeld(phase: Phase, k: nat) {
    phase.Pinned? || (phase.StoreNull? && phase.at <= k < phase.count)
  }

  /** A pinned call owns one used slot for each value, and the slot holds it until its turn to be given back, when
      an unpin reads it. */
  lemma PinnedHolds(s: System, c: nat, k: nat)
    requires Inv(s) && c in s.calls && StillHeld(s.calls[c].phase, k) && k < |s.calls[c].values|
    ensures var t := Slots.TaskAt(s.roots, Slots.Need(c, k));
            t.Holding? && t.slot < |s.roots.used| && s.roots.used[t.slot] && s.roots.raw[t.slot] == s.calls[c].values[k]
  {
    assert Agrees(s, c);
    var t := Slots.TaskAt(s.roots, Slots.Need(c, k));
    assert RootAs(s.calls[c], k, t);
    assert Slots.OwnsSlot(s.roots, Slots.Need(c, k), t.slot);
  }

  /** Whatever other calls do, they neither take its slots nor change its values. */
  lemma {:induction false} PinnedUndisturbed(s: System, labels: seq<Label>, c: nat)
    requires Inv(s) && c in s.calls && forall l :: l in labels ==> l.call != c
    ensures var end := Run(s, labels);
            && c in end.calls && end.calls[c] == s.calls[c]
            && forall k: nat :: Slots.TaskAt(end.roots, Slots.Need(c, k)) == Slots.TaskAt(s.roots, Slots.Need(c, k))
    decreases labels
  {
    if labels != [] {
      StepInv(s, labels[0]);
      StepOnlyOf(s, labels[0]);
      PinnedUndisturbed(Step(s, labels[0]), labels[1..], c);
    }
  }

  /** A call that was refused, or is over, owns no lease and no slot. */
  lemma NothingKept(s: System, c: nat)
    requires Inv(s) && c in s.calls && !Ongoing(s.calls[c].phase)
    ensures forall id: Slots.Need, slot: nat :: id.call == c ==>
              !Slots.OwnsSlot(s.leases, id, slot) && !Slots.OwnsSlot(s.roots, id, slot)
  {
    assert Agrees(s, c);
    forall id: Slots.Need, slot: nat | id.call == c
      ensures !Slots.OwnsSlot(s.leases, id, slot) && !Slots.OwnsSlot(s.roots, id, slot)
    {
      assert RootAs(s.calls[c], id.index, Slots.TaskAt(s.roots, Slots.Need(c, id.index)));
      assert id == Slots.Need(c, id.index);
    }
  }

  /** In every interleaving, once no call is under way every lease and every slot is free, and every slot null. */
  lemma AllGivenBack(s: System)
    requires Inv(s) && forall c :: c in s.calls ==> !Ongoing(s.calls[c].phase)
    ensures forall k :: 0 <= k < |s.leases.used| ==> !s.leases.used[k]
    ensures forall k :: 0 <= k < |s.roots.used| ==> !s.roots.used[k] && s.roots.raw[k] == s.roots.nullRaw
  {
    forall id, slot: nat
      ensures !Slots.OwnsSlot(s.leases, id, slot) && !Slots.OwnsSlot(s.roots, id, slot)
    {
      if id.call in s.calls {
        NothingKept(s, id.call);
      }
    }
  }

  // ---- When no pin is refused ----

  /** One need of a lease for each call under way. */
  ghost function LeaseNeeds(s: System): set<Slots.Need> {
    set c | c in s.calls && Ongoing(s.calls[c].phase) :: Slots.Need(c, 0)
  }

  /** One need of a slot for each value of a call under way. */
  ghost function RootNeeds(s: System): set<Slots.Need> {
    set c, k | c in s.calls && Ongoing(s.calls[c].phase) && 0 <= k < |s.calls[c].values| :: Slots.Need(c, k)
  }

  /** No more calls are under way than there are leases, and no more values than there are slots. */
  ghost predicate Modest(s: System) {
    |LeaseNeeds(s)| <= |s.leases.used| && |RootNeeds(s)| <= |s.roots.used|
  }

  predicate TurnedAway(phase: Phase) {
    phase.Busy? || ((phase.StoreNull? || phase.Clear? || phase.GiveLease?) && phase.refused)
  }

  /** No call was refused, or is about to be. */
  ghost predicate AllServed(s: System) {
    forall c :: c in s.calls ==> !TurnedAway(s.calls[c].phase)
  }

  lemma NeedsCover(s: System)
    requires Inv(s)
    ensures Slots.Beyond(s.leases, 0) <= LeaseNeeds(s) && Slots.Beyond(s.roots, 0) <= RootNeeds(s)
  {
    forall id | id in Slots.Beyond(s.leases, 0)
      ensures id in LeaseNeeds(s)
    {
      assert Slots.Active(Slots.TaskAt(s.leases, id)) && Agrees(s, id.call);
    }
    forall id | id in Slots.Beyond(s.roots, 0)
      ensures id in RootNeeds(s)
    {
      assert Slots.Active(Slots.TaskAt(s.roots, id)) && Agrees(s, id.call);
      assert RootAs(s.calls[id.call], id.index, Slots.TaskAt(s.roots, Slots.Need(id.call, id.index)));
      assert id == Slots.Need(id.call, id.index);
    }
  }

  ghost predicate BothSpread(s: System) {
    Slots.Spread(s.leases, |s.leases.used|) && Slots.Spread(s.roots, |s.roots.used|)
  }

  lemma ModestAtMost(s: System)
    requires Inv(s) && Modest(s)
    ensures Slots.AtMost(s.leases, |s.leases.used|) && Slots.AtMost(s.roots, |s.roots.used|)
  {
    NeedsCover(s);
    Slots.Smaller(Slots.Beyond(s.leases, 0), LeaseNeeds(s));
    Slots.Smaller(Slots.Beyond(s.roots, 0), RootNeeds(s));
  }

  lemma ShortRunSpread(s: Slots.System, labels: seq<Slots.Label>, k: nat)
    requires Slots.Inv(s) && Slots.Spread(s, k) && |labels| <= 2
    requires |labels| == 2 ==> Slots.AtMost(Slots.Step(s, labels[0]), k)
    requires Slots.AtMost(Slots.Run(s, labels), k)
    ensures Slots.Spread(Slots.Run(s, labels), k)
  {
    if |labels| == 1 {
      assert labels == [labels[0]];
      RunOne(s, labels[0]);
      Slots.StepSpread(s, labels[0], k);
    } else if |labels| == 2 {
      assert labels == [labels[0]] + [labels[1]];
      RunTwo(s, labels[0], labels[1]);
      Slots.StepSpread(s, labels[0], k);
      Slots.StepInv(s, labels[0]);
      Slots.StepSpread(Slots.Step(s, labels[0]), labels[1], k);
    }
  }

  /** Storing a value needs no further slot. */
  lemma StoreAtMost(s: Slots.System, id: Slots.Need, value: U64, k: nat)
    requires Slots.InBounds(s) && Slots.AtMost(s, k)
    ensures Slots.AtMost(Slots.Step(s, Slots.Store(id, value)), k)
  {
    Slots.Smaller(Slots.Beyond(Slots.Step(s, Slots.Store(id, value)), 0), Slots.Beyond(s, 0));
  }

  lemma RootsSpread(s: System, l: Label, k: nat)
    requires InBounds(s) && Slots.Inv(s.roots) && Slots.Spread(s.roots, k)
    requires Slots.AtMost(s.roots, k) && Slots.AtMost(Step(s, l).roots, k)
    ensures Slots.Spread(Step(s, l).roots, k)
  {
    RootProjects(s, l);
    var labels := RootLabels(s, l);
    if |labels| == 2 {
      StoreAtMost(s.roots, labels[0].id, labels[0].value, k);
    }
    ShortRunSpread(s.roots, labels, k);
  }

  lemma LeasesSpread(s: System, l: Label, k: nat)
    requires InBounds(s) && Slots.Inv(s.leases) && Slots.Spread(s.leases, k) && Slots.AtMost(Step(s, l).leases, k)
    ensures Slots.Spread(Step(s, l).leases, k)
  {
    LeaseProjects(s, l);
    ShortRunSpread(s.leases, LeaseLabels(s, l), k);
  }

  lemma StepSpread(s: System, l: Label)
    requires Inv(s) && BothSpread(s) && Modest(s) && Modest(Step(s, l))
    ensures BothSpread(Step(s, l))
  {
    StepInv(s, l);
    ModestAtMost(s);
    ModestAtMost(Step(s, l));
    RootsSpread(s, l, |s.roots.used|);
    LeasesSpread(s, l, |s.leases.used|);
  }

  /** A scan that stays within the leases, or the slots, is not refused. */
  lemma LeaseServed(s: System, c: nat)
    requires InBounds(s) && c in s.calls && s.calls[c].phase.SeekLease? && Slots.Spread(s.leases, |s.leases.used|)
    requires Slots.TaskAt(s.leases, Slots.Need(c, 0)).Scanning?
    ensures !TurnedAway(TryLease(s, c).calls[c].phase)
  {
    Slots.SpreadBounds(s.leases, |s.leases.used|, Slots.Need(c, 0));
  }

  lemma RootServed(s: System, c: nat, got: nat)
    requires InBounds(s) && c in s.calls && s.calls[c].phase == Seek(got) && Slots.Spread(s.roots, |s.roots.used|)
    requires Slots.TaskAt(s.roots, Slots.Need(c, got)).Scanning?
    ensures !TurnedAway(TryRoot(s, c, got).calls[c].phase)
  {
    Slots.SpreadBounds(s.roots, |s.roots.used|, Slots.Need(c, got));
  }

  lemma CallServed(s: System, c: nat)
    requires Inv(s) && BothSpread(s) && c in s.calls && !TurnedAway(s.calls[c].phase)
    ensures !TurnedAway(Proceed(s, c, s.calls[c]).calls[c].phase)
  {
    var call := s.calls[c];
    assert Agrees(s, c);
    if call.phase.SeekLease? {
      LeaseServed(s, c);
    } else if call.phase.Seek? {
      assert RootAs(call, call.phase.got, Slots.TaskAt(s.roots, Slots.Need(c, call.phase.got)));
      RootServed(s, c, call.phase.got);
    }
  }

  lemma StepServed(s: System, l: Label)
    requires Inv(s) && BothSpread(s) && AllServed(s)
    ensures AllServed(Step(s, l))
  {
    StepOnlyOf(s, l);
    if l.call in s.calls && l.Advance? {
      CallServed(s, l.call);
    }
  }

  ghost predicate AlwaysModest(s: System, labels: seq<Label>)
    requires InBounds(s)
    decreases labels
  {
    Modest(s) && (labels != [] ==> AlwaysModest(Step(s, labels[0]), labels[1..]))
  }

  lemma {:induction false} ServedSince(s: System, labels: seq<Label>)
    requires Inv(s) && BothSpread(s) && AllServed(s) && AlwaysModest(s, labels)
    ensures AllServed(Run(s, labels))
    decreases labels
  {
    if labels != [] {
      StepInv(s, labels[0]);
      StepSpread(s, labels[0]);
      StepServed(s, labels[0]);
      ServedSince(Step(s, labels[0]), labels[1..]);
    }
  }

  /** In every interleaving in which never more calls are under way than there are leases, with never more values than
      there are slots, no call is refused. */
  lemma NoPinRefused(s: System, labels: seq<Label>)
    requires Initial(s) && AlwaysModest(s, labels)
    ensures AllServed(Run(s, labels))
  {
    InitialInv(s);
    assert forall i: nat :: Slots.Beyond(s.leases, i) == {} && Slots.Beyond(s.roots, i) == {};
    ServedSince(s, labels);
  }

  // ---- Two pins that refuse each other ----

  lemma {:induction false} RunLast(s: System, labels: seq<Label>, l: Label)
    requires InBounds(s)
    ensures Run(s, labels + [l]) == Step(Run(s, labels), l)
    decreases labels
  {
    if labels == [] {
      assert [l][1..] == [] && [] + [l] == [l];
    } else {
      assert (labels + [l])[0] == labels[0] && (labels + [l])[1..] == labels[1..] + [l];
      RunLast(Step(s, labels[0]), labels[1..], l);
    }
  }

  /** From `s` on no call but `c` has moved. */
  ghost predicate Quiet(s: System, next: System, c: nat) {
    && (forall d :: d in s.calls && d != c ==> d in next.calls && next.calls[d] == s.calls[d])
    && (forall id: Slots.Need :: id.call != c ==> Slots.TaskAt(next.roots, id) == Slots.TaskAt(s.roots, id))
  }

  lemma QuietBoth(s: System, via: System, end: System, c: nat)
    requires Quiet(s, via, c) && Quiet(via, end, c)
    ensures Quiet(s, end, c)
  {
  }

  /** One more step of the run to `via`. */
  lemma Next(s: System, labels: seq<Label>, via: System, l: Label) returns (more: seq<Label>)
    requires InBounds(s) && Run(s, labels) == via
    ensures Run(s, more) == Step(via, l) && Quiet(via, Step(via, l), l.call)
  {
    RunLast(s, labels, l);
    StepOnlyOf(via, l);
    more := labels + [l];
  }

  /** The first `n` slots are used. */
  predicate Packed(s: Slots.System, n: nat) {
    n <= |s.used| && forall k :: 0 <= k < |s.used| ==> (s.used[k] <==> k < n)
  }

  /** Call `c` has `got` roots and looks for the next, from slot `i` on. */
  predicate Seeks(s: System, c: nat, values: seq<U64>, got: nat, i: nat) {
    && c in s.calls && s.calls[c] == Call(values, Seek(got)) && got < |values|
    && Slots.TaskAt(s.roots, Slots.Need(c, got)) == Slots.Scanning(i)
  }

  /** A step that passes a used slot, takes a free one, or finds none left. */
  lemma SeekStep(s: System, c: nat, values: seq<U64>, got: nat, i: nat)
    requires InBounds(s) && Seeks(s, c, values, got, i) && i <= |s.roots.used|
    ensures var next := Step(s, Advance(c));
            && next.leases == s.leases
            && (i < |s.roots.used| && s.roots.used[i] ==> Seeks(next, c, values, got, i + 1) && next.roots.used == s.roots.used)
            && (i < |s.roots.used| && !s.roots.used[i] ==>
                  && c in next.calls && next.calls[c] == Call(values, Fill(got)) && next.roots.used == s.roots.used[i := true]
                  && Slots.TaskAt(next.roots, Slots.Need(c, got)) == Slots.Acquired(i))
            && (i == |s.roots.used| && got > 0 ==>
                  && c in next.calls && next.calls[c] == Call(values, StoreNull(0, got, true))
                  && next.roots.used == s.roots.used)
  {
  }

  /** Past used slots a scan goes on. */
  lemma {:induction false} ScanPast(
      s: System, labels: seq<Label>, via: System, c: nat, values: seq<U64>, got: nat, i: nat, last: nat)
    returns (more: seq<Label>, end: System)
    requires InBounds(s) && Run(s, labels) == via
    requires Seeks(via, c, values, got, i) && i <= last && Packed(via.roots, last)
    ensures Run(s, more) == end && Quiet(via, end, c) && Seeks(end, c, values, got, last)
    ensures end.leases == via.leases && end.roots.used == via.roots.used
    decreases last - i
  {
    if i == last {
      more, end := labels, via;
    } else {
      SeekStep(via, c, values, got, i);
      more := Next(s, labels, via, Advance(c));
      more, end := ScanPast(s, more, Step(via, Advance(c)), c, values, got, i + 1, last);
    }
  }

  lemma UsedPacked(s: Slots.System, t: Slots.System, n: nat)
    requires Packed(s, n) && n < |s.used| && t.used == s.used[n := true]
    ensures Packed(t, n + 1)
  {
  }

  /** It takes the first free slot. */
  lemma TakeSlot(s: System, labels: seq<Label>, via: System, c: nat, values: seq<U64>, got: nat, n: nat)
    returns (more: seq<Label>, end: System)
    requires InBounds(s) && Run(s, labels) == via
    requires Seeks(via, c, values, got, 0) && Packed(via.roots, n) && n < |via.roots.used|
    ensures Run(s, more) == end && Quiet(via, end, c) && end.leases == via.leases && Packed(end.roots, n + 1)
    ensures c in end.calls && end.calls[c] == Call(values, Fill(got))
  {
    var at;
    more, at := ScanPast(s, labels, via, c, values, got, 0, n);
    SeekStep(at, c, values, got, n);
    more := Next(s, more, at, Advance(c));
    end := Step(at, Advance(c));
    UsedPacked(at.roots, end.roots, n);
  }

  /** Its value goes in, and it looks for the next. */
  lemma FillStep(s: System, c: nat, values: seq<U64>, got: nat)
    requires InBounds(s) && c in s.calls && s.calls[c] == Call(values, Fill(got)) && got + 1 < |values|
    requires !Slots.Active(Slots.TaskAt(s.roots, Slots.Need(c, got + 1)))
    ensures var next := Step(s, Advance(c));
            Seeks(next, c, values, got + 1, 0) && next.leases == s.leases && next.roots.used == s.roots.used
  {
  }

  lemma NextInactive(s: System, c: nat, got: nat)
    requires Inv(s) && c in s.calls && s.calls[c].phase == Fill(got)
    ensures !Slots.Active(Slots.TaskAt(s.roots, Slots.Need(c, got + 1)))
  {
    assert Agrees(s, c);
    assert RootAs(s.calls[c], got + 1, Slots.TaskAt(s.roots, Slots.Need(c, got + 1)));
  }

  lemma TakeRoot(s: System, labels: seq<Label>, via: System, c: nat, values: seq<U64>, got: nat, n: nat)
    returns (more: seq<Label>, end: System)
    requires Inv(s) && Run(s, labels) == via
    requires Seeks(via, c, values, got, 0) && got + 1 < |values| && Packed(via.roots, n) && n < |via.roots.used|
    ensures Run(s, more) == end && Quiet(via, end, c) && end.leases == via.leases && Packed(end.roots, n + 1)
    ensures Seeks(end, c, values, got + 1, 0)
  {
    var filled;
    more, filled := TakeSlot(s, labels, via, c, values, got, n);
    RunInv(s, more);
    NextInactive(filled, c, got);
    FillStep(filled, c, values, got);
    more := Next(s, more, filled, Advance(c));
    end := Step(filled, Advance(c));
  }

  /** So it goes on until it has `all` roots and the first `last` slots are used. */
  lemma {:induction false} TakeRoots(
      s: System, labels: seq<Label>, via: System, c: nat, values: seq<U64>, got: nat, n: nat, all: nat, last: nat)
    returns (more: seq<Label>, end: System)
    requires Inv(s) && Run(s, labels) == via && Seeks(via, c, values, got, 0) && Packed(via.roots, n)
    requires got <= all < |values| && last <= |via.roots.used| && all - got == last - n
    ensures Run(s, more) == end && Quiet(via, end, c) && Packed(end.roots, last) && Seeks(end, c, values, all, 0)
    decreases all - got
  {
    if got == all {
      more, end := labels, via;
    } else {
      var next;
      more, next := TakeRoot(s, labels, via, c, values, got, n);
      more, end := TakeRoots(s, more, next, c, values, got + 1, n + 1, all, last);
      QuietBoth(via, next, end, c);
    }
  }

  /** With every slot used it runs out. */
  lemma RunOut(s: System, labels: seq<Label>, via: System, c: nat, values: seq<U64>, got: nat)
    returns (more: seq<Label>, end: System)
    requires InBounds(s) && Run(s, labels) == via
    requires Seeks(via, c, values, got, 0) && got > 0 && Packed(via.roots, |via.roots.used|)
    ensures Run(s, more) == end && Quiet(via, end, c) && end.roots.used == via.roots.used
    ensures c in end.calls && end.calls[c] == Call(values, StoreNull(0, got, true))
  {
    var at;
    more, at := ScanPast(s, labels, via, c, values, got, 0, |via.roots.used|);
    SeekStep(at, c, values, got, |via.roots.used|);
    more := Next(s, more, at, Advance(c));
    end := Step(at, Advance(c));
  }

  lemma BackStep(s: System, c: nat)
    requires InBounds(s) && c in s.calls
    ensures var next := Step(s, Advance(c));
            && c in next.calls
            && match s.calls[c].phase
               case StoreNull(at, count, refused) => next.calls[c].phase == Clear(at, count, refused)
               case Clear(at, count, refused) =>
                 next.calls[c].phase == if at + 1 < count then StoreNull(at + 1, count, refused) else GiveLease(refused)
               case GiveLease(refused) => next.calls[c].phase == if refused then Busy else Idle
               case _ => true
  {
  }

  /** It gives back what it has, and its lease. */
  lemma {:induction false} GiveBack(
      s: System, labels: seq<Label>, via: System, c: nat, at: nat, count: nat, refused: bool)
    returns (more: seq<Label>, end: System)
    requires InBounds(s) && Run(s, labels) == via
    requires c in via.calls && via.calls[c].phase == StoreNull(at, count, refused) && at < count
    ensures Run(s, more) == end && Quiet(via, end, c) && c in end.calls && end.calls[c].phase == (if refused then Busy else Idle)
    decreases count - at
  {
    BackStep(via, c);
    more := Next(s, labels, via, Advance(c));
    end := Step(via, Advance(c));
    BackStep(end, c);
    more := Next(s, more, end, Advance(c));
    end := Step(end, Advance(c));
    if at + 1 < count {
      more, end := GiveBack(s, more, end, c, at + 1, count, refused);
    } else {
      BackStep(end, c);
      more := Next(s, more, end, Advance(c));
      end := Step(end, Advance(c));
    }
  }

  /** Call `c` looks for a lease, from lease `i` on, and for no root yet. */
  predicate SeeksLease(s: System, c: nat, values: seq<U64>, i: nat) {
    && c in s.calls && s.calls[c] == Call(values, SeekLease) && values != []
    && Slots.TaskAt(s.leases, Slots.Need(c, 0)) == Slots.Scanning(i)
    && !Slots.Active(Slots.TaskAt(s.roots, Slots.Need(c, 0)))
  }

  lemma LeaseStep(s: System, c: nat, values: seq<U64>, i: nat)
    requires InBounds(s) && SeeksLease(s, c, values, i) && i <= |s.leases.used|
    ensures var next := Step(s, Advance(c));
            && next.roots.used == s.roots.used
            && (i < |s.leases.used| && s.leases.used[i] ==>
                  SeeksLease(next, c, values, i + 1) && next.leases.used == s.leases.used)
            && (i < |s.leases.used| && !s.leases.used[i] ==>
                  Seeks(next, c, values, 0, 0) && next.leases.used == s.leases.used[i := true])
            && (i == |s.leases.used| ==>
                  c in next.calls && next.calls[c] == Call(values, Busy) && next.leases.used == s.leases.used)
  {
  }

  lemma {:induction false} ScanLeases(
      s: System, labels: seq<Label>, via: System, c: nat, values: seq<U64>, i: nat, n: nat)
    returns (more: seq<Label>, end: System)
    requires InBounds(s) && Run(s, labels) == via
    requires SeeksLease(via, c, values, i) && i <= n < |via.leases.used| && Packed(via.leases, n)
    ensures Run(s, more) == end && Quiet(via, end, c) && Seeks(end, c, values, 0, 0) && Packed(end.leases, n + 1)
    ensures end.roots.used == via.roots.used
    decreases n - i
  {
    LeaseStep(via, c, values, i);
    more := Next(s, labels, via, Advance(c));
    end := Step(via, Advance(c));
    if i < n {
      more, end := ScanLeases(s, more, end, c, values, i + 1, n);
    } else {
      UsedPacked(via.leases, end.leases, n);
    }
  }

  /** A new call gets the first free lease. */
  lemma GetLease(s: System, labels: seq<Label>, via: System, c: nat, values: seq<U64>, n: nat)
    returns (more: seq<Label>, end: System)
    requires Inv(s) && Run(s, labels) == via && c in via.calls && via.calls[c].phase == Idle
    requires 0 < |values| <= ROOTS_PER_LEASE && Packed(via.leases, n) && n < |via.leases.used|
    ensures Run(s, more) == end && Quiet(via, end, c) && Seeks(end, c, values, 0, 0) && Packed(end.leases, n + 1)
    ensures end.roots.used == via.roots.used
  {
    RunInv(s, labels);
    BeginStep(via, c, values);
    more := Next(s, labels, via, Begin(c, values));
    more, end := ScanLeases(s, more, Step(via, Begin(c, values)), c, values, 0, n);
  }

  lemma BeginStep(s: System, c: nat, values: seq<U64>)
    requires Inv(s) && c in s.calls && s.calls[c].phase == Idle && 0 < |values| <= ROOTS_PER_LEASE
    ensures var next := Step(s, Begin(c, values));
            SeeksLease(next, c, values, 0) && next.leases.used == s.leases.used && next.roots.used == s.roots.used
  {
    assert Agrees(s, c) && RootAs(s.calls[c], 0, Slots.TaskAt(s.roots, Slots.Need(c, 0)));
  }

  lemma {:induction false} ScanNoLease(s: System, labels: seq<Label>, via: System, c: nat, values: seq<U64>, i: nat)
    returns (more: seq<Label>, end: System)
    requires InBounds(s) && Run(s, labels) == via
    requires SeeksLease(via, c, values, i) && i <= |via.leases.used| && Packed(via.leases, |via.leases.used|)
    ensures Run(s, more) == end && Quiet(via, end, c) && c in end.calls && end.calls[c] == Call(values, Busy)
    ensures end.leases.used == via.leases.used && end.roots.used == via.roots.used
    decreases |via.leases.used| - i
  {
    LeaseStep(via, c, values, i);
    more := Next(s, labels, via, Advance(c));
    end := Step(via, Advance(c));
    if i < |via.leases.used| {
      more, end := ScanNoLease(s, more, end, c, values, i + 1);
    }
  }

  /** With every lease taken a new call is told that the pool is busy, and no slot or lease changes hands. */
  lemma NoLeaseLeft(s: System, c: nat, values: seq<U64>) returns (labels: seq<Label>, end: System)
    requires Inv(s) && c in s.calls && s.calls[c].phase == Idle && 0 < |values| <= ROOTS_PER_LEASE
    requires forall k :: 0 <= k < |s.leases.used| ==> s.leases.used[k]
    ensures Run(s, labels) == end && Quiet(s, end, c) && c in end.calls && end.calls[c] == Call(values, Busy)
    ensures end.leases.used == s.leases.used && end.roots.used == s.roots.used
  {
    BeginStep(s, c, values);
    labels := Next(s, [], s, Begin(c, values));
    labels, end := ScanNoLease(s, labels, Step(s, Begin(c, values)), c, values, 0);
    assert Quiet(s, Step(s, Begin(c, values)), c);
  }

  lemma SeeksKept(s: System, next: System, c: nat, d: nat, values: seq<U64>, got: nat, i: nat)
    requires Quiet(s, next, c) && c != d && Seeks(s, d, values, got, i)
    ensures Seeks(next, d, values, got, i)
  {
  }

  /** Each of two calls gets a lease. */
  lemma BothLeased(s: System, a: nat, b: nat, first: seq<U64>, second: seq<U64>) returns (labels: seq<Label>, end: System)
    requires Initial(s) && s.calls.Keys == {a, b} && a != b && |s.leases.used| >= 2
    requires 0 < |first| <= ROOTS_PER_LEASE && 0 < |second| <= ROOTS_PER_LEASE
    ensures Run(s, labels) == end && Seeks(end, a, first, 0, 0) && Seeks(end, b, second, 0, 0)
    ensures Packed(end.roots, 0)
  {
    InitialInv(s);
    var one;
    labels, one := GetLease(s, [], s, a, first, 0);
    labels, end := GetLease(s, labels, one, b, second, 1);
    SeeksKept(one, end, b, a, first, 0, 0);
  }

  /** One takes `x` slots, the other all that are left. */
  lemma BothTake(s: System, a: nat, b: nat, first: seq<U64>, second: seq<U64>, x: nat)
    returns (labels: seq<Label>, end: System)
    requires Initial(s) && s.calls.Keys == {a, b} && a != b && |s.leases.used| >= 2
    requires |first| <= ROOTS_PER_LEASE && |second| <= ROOTS_PER_LEASE
    requires 0 < x < |first| && 0 < |s.roots.used| - x < |second|
    ensures Run(s, labels) == end && Packed(end.roots, |end.roots.used|)
    ensures Seeks(end, a, first, x, 0) && Seeks(end, b, second, |s.roots.used| - x, 0)
  {
    InitialInv(s);
    var leased, one;
    labels, leased := BothLeased(s, a, b, first, second);
    labels, one := TakeRoots(s, labels, leased, a, first, 0, 0, x, x);
    SeeksKept(leased, one, a, b, second, 0, 0);
    labels, end := TakeRoots(s, labels, one, b, second, 0, x, |s.roots.used| - x, |s.roots.used|);
    SeeksKept(one, end, b, a, first, x, 0);
  }

  /** Two pins, nobody else, that between them have every slot and each too few: both are refused and give everything
      back, although there are slots enough for either alone. */
  lemma BothRefused(s: System, a: nat, b: nat, first: seq<U64>, second: seq<U64>, x: nat)
    returns (labels: seq<Label>, end: System)
    requires Initial(s) && s.calls.Keys == {a, b} && a != b && |s.leases.used| >= 2
    requires |first| <= ROOTS_PER_LEASE && |second| <= ROOTS_PER_LEASE
    requires 0 < x < |first| && 0 < |s.roots.used| - x < |second|
    ensures Run(s, labels) == end && end.calls.Keys == {a, b}
    ensures end.calls[a].phase == Busy && end.calls[b].phase == Busy
    ensures forall k :: 0 <= k < |end.roots.used| ==> !end.roots.used[k]
  {
    var taken, y := s, |s.roots.used| - x;
    labels, taken := BothTake(s, a, b, first, second, x);
    labels, end := BothGiveUp(s, labels, taken, a, b, first, second, x, y);
    RunKeys(s, labels);
    GivenBackAfter(s, labels);
  }

  lemma GivenBackAfter(s: System, labels: seq<Label>)
    requires Initial(s) && forall c :: c in Run(s, labels).calls ==> !Ongoing(Run(s, labels).calls[c].phase)
    ensures forall k :: 0 <= k < |s.roots.used| ==> !Run(s, labels).roots.used[k]
  {
    InitialInv(s);
    RunInv(s, labels);
    AllGivenBack(Run(s, labels));
  }

  lemma BothGiveUp(s: System, labels: seq<Label>, via: System, a: nat, b: nat, first: seq<U64>, second: seq<U64>, x: nat, y: nat)
    returns (more: seq<Label>, end: System)
    requires InBounds(s) && Run(s, labels) == via && a != b && x > 0 && y > 0
    requires Packed(via.roots, |via.roots.used|) && Seeks(via, a, first, x, 0) && Seeks(via, b, second, y, 0)
    ensures Run(s, more) == end && {a, b} <= end.calls.Keys
    ensures end.calls[a].phase == Busy && end.calls[b].phase == Busy
  {
    var one, two, three;
    more, one := RunOut(s, labels, via, a, first, x);
    SeeksKept(via, one, a, b, second, y, 0);
    more, two := RunOut(s, more, one, b, second, y);
    more, three := GiveBack(s, more, two, a, 0, x, true);
    more, end := GiveBack(s, more, three, b, 0, y, true);
  }

  lemma {:induction false} RunKeys(s: System, labels: seq<Label>)
    requires InBounds(s)
    ensures Run(s, labels).calls.Keys == s.calls.Keys
    decreases labels
  {
    if labels != [] {
      StepOnlyOf(s, labels[0]);
      RunKeys(Step(s, labels[0]), labels[1..]);
    }
  }

  /** With the adapter's 128 slots, two pins of 96 roots can starve each other. */
  lemma FullPinsStarve(s: System, first: seq<U64>, second: seq<U64>) returns (labels: seq<Label>, end: System)
    requires Initial(s) && s.calls.Keys == {0, 1} && |s.leases.used| == 4 && |s.roots.used| == 128
    requires |first| == |second| == ROOTS_PER_LEASE
    ensures Run(s, labels) == end && end.calls.Keys == {0, 1}
    ensures end.calls[0].phase == Busy && end.calls[1].phase == Busy
  {
    labels, end := BothRefused(s, 0, 1, first, second, 64);
  }

  // ---- One call alone ----

  lemma LastFill(s: System, c: nat, values: seq<U64>)
    requires InBounds(s) && c in s.calls && values != [] && s.calls[c] == Call(values, Fill(|values| - 1))
    ensures var next := Step(s, Advance(c));
            c in next.calls && next.calls[c] == Call(values, Pinned) && next.roots.used == s.roots.used
  {
  }

  /** A call with nobody else about is pinned on the first slots, if there are enough. */
  lemma PinsAlone(s: System, c: nat, values: seq<U64>) returns (labels: seq<Label>, end: System)
    requires Initial(s) && c in s.calls && |s.leases.used| > 0
    requires 0 < |values| <= ROOTS_PER_LEASE && |values| <= |s.roots.used|
    ensures Run(s, labels) == end && c in end.calls && end.calls[c] == Call(values, Pinned)
    ensures Packed(end.roots, |values|)
  {
    InitialInv(s);
    var leased, at;
    labels, leased := GetLease(s, [], s, c, values, 0);
    labels, at := TakeRoots(s, labels, leased, c, values, 0, 0, |values| - 1, |values| - 1);
    labels, end := TakeLast(s, labels, at, c, values);
  }

  lemma TakeLast(s: System, labels: seq<Label>, via: System, c: nat, values: seq<U64>)
    returns (more: seq<Label>, end: System)
    requires InBounds(s) && Run(s, labels) == via && 0 < |values| <= |via.roots.used|
    requires Seeks(via, c, values, |values| - 1, 0) && Packed(via.roots, |values| - 1)
    ensures Run(s, more) == end && c in end.calls && end.calls[c] == Call(values, Pinned) && Packed(end.roots, |values|)
  {
    var filled;
    more, filled := TakeSlot(s, labels, via, c, values, |values| - 1, |values| - 1);
    LastFill(filled, c, values);
    more := Next(s, more, filled, Advance(c));
    end := Step(filled, Advance(c));
  }

  /** And an unpin gives everything back: the call is idle again and every slot free. */
  lemma UnpinsAlone(s: System, c: nat, values: seq<U64>) returns (labels: seq<Label>, end: System)
    requires Initial(s) && s.calls.Keys == {c} && |s.leases.used| > 0
    requires 0 < |values| <= ROOTS_PER_LEASE && |values| <= |s.roots.used|
    ensures Run(s, labels) == end && c in end.calls && end.calls[c].phase == Idle
    ensures forall k :: 0 <= k < |end.roots.used| ==> !end.roots.used[k]
  {
    var pinned;
    labels, pinned := PinsAlone(s, c, values);
    labels := Next(s, labels, pinned, Unpin(c));
    labels, end := GiveBack(s, labels, Step(pinned, Unpin(c)), c, 0, |values|, false);
    RunKeys(s, labels);
    GivenBackAfter(s, labels);
  }
}
