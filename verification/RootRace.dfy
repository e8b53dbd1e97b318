/** Root slots under concurrency (adapters/flutter_vm/flutter_vm.cpp:1585-1606): threads race for the slots with
    compare-and-swap, one slot after the other, and give them back in two steps.

    Each label is one atomic access. A task is one need of one slot, so a thread that pins several roots is several
    tasks. The number of slots is that of `used`. The leases of generated roots are taken by the same loop
    (1778-1784); they store no value and are given back in one step. */
module RootRace {
  import opened Machine

  /** Which call needs the slot, and for which of its roots. */
  datatype Need = Need(call: nat, index: nat)

  /** `Acquired` has set the flag and not yet stored a value; `Releasing` has stored null and not yet cleared it. */
  datatype Task =
    | Idle | Scanning(index: nat) | Acquired(slot: nat) | Holding(slot: nat, value: U64) | Releasing(slot: nat) | Refused

  datatype System = System(used: seq<bool>, raw: seq<U64>, nullRaw: U64, tasks: map<Need, Task>)

  datatype Label = Begin(id: Need) | Try(id: Need) | Store(id: Need, value: U64) | StoreNull(id: Need) | Clear(id: Need)

  predicate Owns(t: Task) {
    t.Acquired? || t.Holding? || t.Releasing?
  }

  predicate Active(t: Task) {
    Owns(t) || t.Scanning?
  }

  /** The slot an active task owns or tries next. */
  function Position(t: Task): nat
    requires Active(t)
  {
    if t.Scanning? then t.index else t.slot
  }

  function Move(s: System, id: Need, t: Task): System {
    s.(tasks := s.tasks[id := t])
  }

  function Act(s: System, l: Label, t: Task): System
    requires Owns(t) ==> t.slot < |s.used| == |s.raw|
  {
    match l
    case Begin(id) => if t.Idle? || t.Refused? then Move(s, id, Scanning(0)) else s
    case Try(id) =>
      if !t.Scanning? then s
      else if t.index >= |s.used| then Move(s, id, Refused)
      else if s.used[t.index] then Move(s, id, Scanning(t.index + 1))
      else Move(s, id, Acquired(t.index)).(used := s.used[t.index := true])
    case Store(id, value) =>
      if t.Acquired? || t.Holding? then Move(s, id, Holding(t.slot, value)).(raw := s.raw[t.slot := value]) else s
    case StoreNull(id) =>
      if t.Holding? then Move(s, id, Releasing(t.slot)).(raw := s.raw[t.slot := s.nullRaw]) else s
    case Clear(id) =>
      if t.Acquired? || t.Releasing? then Move(s, id, Idle).(used := s.used[t.slot := false]) else s
  }

  function TaskAt(s: System, id: Need): Task {
    if id in s.tasks then s.tasks[id] else Idle
  }

  predicate InBounds(s: System) {
    |s.raw| == |s.used| && forall id :: id in s.tasks && Owns(s.tasks[id]) ==> s.tasks[id].slot < |s.used|
  }

  function Step(s: System, l: Label): (next: System)
    requires InBounds(s)
    ensures InBounds(next) && |next.used| == |s.used| && next.nullRaw == s.nullRaw
    ensures forall id :: id != l.id ==> TaskAt(next, id) == TaskAt(s, id)
  {
    Act(s, l, TaskAt(s, l.id))
  }

  function Run(s: System, labels: seq<Label>): (end: System)
    requires InBounds(s)
    ensures InBounds(end) && |end.used| == |s.used|
    decreases labels
  {
    if labels == [] then s else Run(Step(s, labels[0]), labels[1..])
  }

  predicate Initial(s: System) {
    && |s.raw| == |s.used|
    && (forall k :: 0 <= k < |s.used| ==> !s.used[k] && s.raw[k] == s.nullRaw)
    && forall id :: id in s.tasks ==> s.tasks[id] == Idle
  }

  /** `P` holds in every state of the run. */
  ghost predicate Throughout(s: System, labels: seq<Label>, P: System -> bool)
    requires InBounds(s)
    decreases labels
  {
    P(s) && (labels != [] ==> Throughout(Step(s, labels[0]), labels[1..], P))
  }

  // ---- What every step keeps ----

  predicate OwnsSlot(s: System, id: Need, slot: nat) {
    id in s.tasks && Owns(s.tasks[id]) && s.tasks[id].slot == slot
  }

  ghost predicate Owned(s: System, slot: nat) {
    exists id :: OwnsSlot(s, id, slot)
  }

  /** A used slot has exactly one owner. */
  ghost predicate OneOwner(s: System) {
    && InBounds(s)
    && (forall id, other, slot: nat :: OwnsSlot(s, id, slot) && OwnsSlot(s, other, slot) ==> id == other)
    && (forall id, slot: nat :: OwnsSlot(s, id, slot) ==> s.used[slot])
    && (forall slot :: 0 <= slot < |s.used| && s.used[slot] ==> Owned(s, slot))
  }

  /** It holds null until the owner has stored a value and after it has stored null again; a free slot holds null. */
  ghost predicate Stored(s: System) {
    && InBounds(s)
    && (forall slot :: 0 <= slot < |s.used| && !s.used[slot] ==> s.raw[slot] == s.nullRaw)
    && (forall id :: id in s.tasks && Owns(s.tasks[id]) ==>
          s.raw[s.tasks[id].slot] == if s.tasks[id].Holding? then s.tasks[id].value else s.nullRaw)
  }

  ghost predicate Inv(s: System) {
    OneOwner(s) && Stored(s)
  }

  lemma StepInv(s: System, l: Label)
    requires Inv(s)
    ensures Inv(Step(s, l))
  {
    ActOwned(s, l);
    ActStored(s, l);
  }

  lemma ActOwned(s: System, l: Label)
    requires Inv(s)
    ensures OneOwner(Step(s, l))
  {
    var next := Step(s, l);
    assert forall id, slot: nat :: id != l.id ==> OwnsSlot(next, id, slot) == OwnsSlot(s, id, slot);
    assert Owns(TaskAt(s, l.id)) ==> OwnsSlot(s, l.id, TaskAt(s, l.id).slot);
    forall slot | 0 <= slot < |s.used| && next.used[slot]
      ensures Owned(next, slot)
    {
      if id :| OwnsSlot(s, id, slot) {
        assert OwnsSlot(next, id, slot);
      } else {
        assert OwnsSlot(next, l.id, slot);
      }
    }
  }

  lemma ActStored(s: System, l: Label)
    requires Inv(s)
    ensures Stored(Step(s, l))
  {
    var next := Step(s, l);
    assert Owns(TaskAt(s, l.id)) ==> OwnsSlot(s, l.id, TaskAt(s, l.id).slot);
    forall id | id in next.tasks && Owns(next.tasks[id])
      ensures next.raw[next.tasks[id].slot] == if next.tasks[id].Holding? then next.tasks[id].value else next.nullRaw
    {
      if id != l.id {
        assert OwnsSlot(s, id, s.tasks[id].slot);
      }
    }
  }

  lemma {:induction false} RunInv(s: System, labels: seq<Label>)
    requires Inv(s)
    ensures Inv(Run(s, labels))
    decreases labels
  {
    if labels != [] {
      StepInv(s, labels[0]);
      RunInv(Step(s, labels[0]), labels[1..]);
    }
  }

  lemma InitialInv(s: System)
    requires Initial(s)
    ensures Inv(s)
  {
  }

  /** Whatever the others do, a slot keeps what its owner has stored. */
  lemma {:induction false} Undisturbed(s: System, labels: seq<Label>, id: Need)
    requires Inv(s) && id in s.tasks && s.tasks[id].Holding? && (forall l :: l in labels ==> l.id != id)
    ensures var end := Run(s, labels);
            id in end.tasks && end.tasks[id] == s.tasks[id] && end.raw[s.tasks[id].slot] == s.tasks[id].value
    decreases labels
  {
    if labels != [] {
      StepInv(s, labels[0]);
      Undisturbed(Step(s, labels[0]), labels[1..], id);
    }
  }

  // ---- Conservation ----

  ghost function Owners(s: System): set<Need> {
    set id | id in s.tasks && Owns(s.tasks[id])
  }

  ghost function Used(s: System): set<nat> {
    set slot: nat | slot < |s.used| && s.used[slot]
  }

  /** As many slots are used as tasks own one. */
  lemma {:induction false} Conserved(s: System)
    requires Inv(s)
    ensures |Used(s)| == |Owners(s)|
    decreases |Owners(s)|
  {
    if id :| id in Owners(s) {
      var slot := s.tasks[id].slot;
      var rest := s.(used := s.used[slot := false], raw := s.raw[slot := s.nullRaw], tasks := s.tasks - {id});
      assert Owners(s) == Owners(rest) + {id} && Used(s) == Used(rest) + {slot} by {
        assert OwnsSlot(s, id, slot);
      }
      WithoutOwner(s, id);
      Conserved(rest);
    } else {
      assert forall slot: nat, id :: OwnsSlot(s, id, slot) ==> id in Owners(s);
      assert Used(s) == {} && Owners(s) == {};
    }
  }

  lemma WithoutOwner(s: System, id: Need)
    requires Inv(s) && id in s.tasks && Owns(s.tasks[id])
    ensures var slot := s.tasks[id].slot;
            Inv(s.(used := s.used[slot := false], raw := s.raw[slot := s.nullRaw], tasks := s.tasks - {id}))
  {
    var slot := s.tasks[id].slot;
    var rest := s.(used := s.used[slot := false], raw := s.raw[slot := s.nullRaw], tasks := s.tasks - {id});
    assert OwnsSlot(s, id, slot);
    assert forall other, k: nat :: OwnsSlot(rest, other, k) <==> OwnsSlot(s, other, k) && other != id;
    forall k | 0 <= k < |s.used| && rest.used[k]
      ensures Owned(rest, k)
    {
      assert Owned(s, k);
      var owner :| OwnsSlot(s, owner, k);
      assert OwnsSlot(rest, owner, k);
    }
    forall other | other in rest.tasks && Owns(rest.tasks[other])
      ensures rest.used[rest.tasks[other].slot] && rest.raw[rest.tasks[other].slot] == s.raw[s.tasks[other].slot]
    {
      assert OwnsSlot(s, other, s.tasks[other].slot);
    }
  }

  // ---- When a task is refused ----

  /** The active tasks that stand at slot `i` or beyond. */
  ghost function Beyond(s: System, i: nat): set<Need> {
    set id | id in s.tasks && Active(s.tasks[id]) && Position(s.tasks[id]) >= i
  }

  ghost predicate AtMost(s: System, k: nat) {
    |Beyond(s, 0)| <= k
  }

  /** Each slot keeps one task from getting further: at most `k - i` stand at slot `i` or beyond. */
  ghost predicate Spread(s: System, k: nat) {
    forall i: nat :: i <= k ==> |Beyond(s, i)| <= k - i
  }

  lemma StepSpread(s: System, l: Label, k: nat)
    requires Inv(s) && Spread(s, k) && AtMost(Step(s, l), k)
    ensures Spread(Step(s, l), k)
  {
    var next := Step(s, l);
    forall i: nat | i <= k
      ensures |Beyond(next, i)| <= k - i
    {
      if i > 0 {
        Fewer(s, l, i - 1);
        Smaller(Beyond(next, i), Beyond(s, i));
        if Passes(s, l, i - 1) {
          var owner :| OwnsSlot(s, owner, i - 1);
          Smaller(Beyond(next, i), Beyond(s, i - 1) - {owner});
        }
      }
    }
  }

  /** The task finds slot `at` used and moves on. */
  predicate Passes(s: System, l: Label, at: nat) {
    l.Try? && TaskAt(s, l.id) == Scanning(at) && at < |s.used| && s.used[at]
  }

  /** Nobody gets to the slot after `at` but by passing `at`, whose owner stays behind. */
  lemma Fewer(s: System, l: Label, at: nat)
    requires Inv(s)
    ensures !Passes(s, l, at) ==> Beyond(Step(s, l), at + 1) <= Beyond(s, at + 1)
    ensures Passes(s, l, at) ==> Owned(s, at)
    ensures forall owner :: Passes(s, l, at) && OwnsSlot(s, owner, at) ==>
                              owner in Beyond(s, at) && Beyond(Step(s, l), at + 1) <= Beyond(s, at) - {owner}
  {
  }

  lemma Smaller(a: set<Need>, b: set<Need>)
    ensures a <= b ==> |a| <= |b|
  {
    if a <= b {
      assert b == a + (b - a);
    }
  }

  lemma {:induction false} RunSpread(s: System, labels: seq<Label>, k: nat)
    requires Inv(s) && Spread(s, k) && Throughout(s, labels, t => AtMost(t, k))
    ensures Spread(Run(s, labels), k)
    decreases labels
  {
    if labels != [] {
      StepInv(s, labels[0]);
      StepSpread(s, labels[0], k);
      RunSpread(Step(s, labels[0]), labels[1..], k);
    }
  }

  ghost predicate NobodyRefused(s: System) {
    forall id :: id in s.tasks ==> s.tasks[id] != Refused
  }

  lemma SpreadBounds(s: System, k: nat, id: Need)
    requires Spread(s, k) && id in s.tasks && Active(s.tasks[id])
    ensures Position(s.tasks[id]) < k
  {
    assert id in Beyond(s, 0) && |Beyond(s, k)| <= 0;
    assert Position(s.tasks[id]) >= k ==> id in Beyond(s, k);
  }

  lemma {:induction false} NobodyRefusedSince(s: System, labels: seq<Label>, k: nat)
    requires Inv(s) && Spread(s, k) && NobodyRefused(s) && k <= |s.used|
    requires Throughout(s, labels, t => AtMost(t, k))
    ensures NobodyRefused(Run(s, labels))
    decreases labels
  {
    if labels != [] {
      StepInv(s, labels[0]);
      StepSpread(s, labels[0], k);
      if labels[0].id in s.tasks && s.tasks[labels[0].id].Scanning? {
        SpreadBounds(s, k, labels[0].id);
      }
      NobodyRefusedSince(Step(s, labels[0]), labels[1..], k);
    }
  }

  /** While no more tasks are active than there are slots, no interleaving refuses any of them, and with `k` active
      ones only the first `k` slots are ever used. */
  lemma EnoughSlots(s: System, labels: seq<Label>, k: nat)
    requires Initial(s) && k <= |s.used| && Throughout(s, labels, t => AtMost(t, k))
    ensures NobodyRefused(Run(s, labels))
    ensures forall slot :: k <= slot < |s.used| ==> !Run(s, labels).used[slot]
  {
    assert forall i: nat :: Beyond(s, i) == {};
    NobodyRefusedSince(s, labels, k);
    RunSpread(s, labels, k);
    RunInv(s, labels);
    var end := Run(s, labels);
    forall slot | k <= slot < |s.used|
      ensures !end.used[slot]
    {
      if end.used[slot] {
        var id :| OwnsSlot(end, id, slot);
        SpreadBounds(end, k, id);
      }
    }
  }

  predicate FreeAt(s: System, slot: nat) {
    slot < |s.used| && !s.used[slot]
  }

  /** A slot that stays free is never passed: a scan that has not got beyond it is not refused. */
  lemma {:induction false} FreeSlotFound(s: System, labels: seq<Label>, slot: nat, id: Need)
    requires InBounds(s) && slot < |s.used| && id in s.tasks
    requires s.tasks[id] != Refused && (s.tasks[id].Scanning? ==> s.tasks[id].index <= slot)
    requires Throughout(s, labels, t => FreeAt(t, slot))
    ensures var end := Run(s, labels);
            id in end.tasks && end.tasks[id] != Refused && (end.tasks[id].Scanning? ==> end.tasks[id].index <= slot)
    decreases labels
  {
    if labels != [] {
      FreeSlotFound(Step(s, labels[0]), labels[1..], slot, id);
    }
  }

  // ---- One task too many ----

  ghost predicate SomeFree(s: System) {
    exists slot :: FreeAt(s, slot)
  }

  ghost predicate NeverFull(s: System, labels: seq<Label>)
    requires InBounds(s)
    decreases labels
  {
    SomeFree(s) && (labels != [] ==> NeverFull(Step(s, labels[0]), labels[1..]))
  }

  /** The run leads from `s` to `end`, with a free slot at every moment. */
  ghost predicate Leads(s: System, labels: seq<Label>, end: System)
    requires InBounds(s)
  {
    NeverFull(s, labels) && Run(s, labels) == end
  }

  lemma {:induction false} OneMoreStep(s: System, labels: seq<Label>, l: Label)
    requires InBounds(s) && NeverFull(s, labels) && SomeFree(Step(Run(s, labels), l))
    ensures NeverFull(s, labels + [l]) && Run(s, labels + [l]) == Step(Run(s, labels), l)
    decreases labels
  {
    if labels == [] {
      assert [l][1..] == [] && [] + [l] == [l];
    } else {
      assert (labels + [l])[0] == labels[0] && (labels + [l])[1..] == labels[1..] + [l];
      OneMoreStep(Step(s, labels[0]), labels[1..], l);
    }
  }

  lemma LeadsOn(s: System, labels: seq<Label>, via: System, l: Label, free: nat) returns (more: seq<Label>)
    requires InBounds(s) && InBounds(via) && Leads(s, labels, via) && FreeAt(Step(via, l), free)
    ensures Leads(s, more, Step(via, l))
  {
    OneMoreStep(s, labels, l);
    more := labels + [l];
  }

  /** Past used slots a scan goes on. */
  lemma {:induction false} ScanOn(s: System, labels: seq<Label>, via: System, id: Need, i: nat, last: nat, free: nat)
    returns (more: seq<Label>)
    requires InBounds(s) && InBounds(via) && Leads(s, labels, via) && FreeAt(via, free)
    requires id in via.tasks && via.tasks[id] == Scanning(i) && i <= last <= |via.used|
    requires forall k :: i <= k < last ==> via.used[k]
    ensures Leads(s, more, Move(via, id, Scanning(last)))
    decreases last - i
  {
    if i == last {
      assert Move(via, id, Scanning(i)) == via;
      more := labels;
    } else {
      var next := Move(via, id, Scanning(i + 1));
      assert Step(via, Try(id)) == next && FreeAt(next, free);
      more := LeadsOn(s, labels, via, Try(id), free);
      more := ScanOn(s, more, next, id, i + 1, last, free);
      assert Move(next, id, Scanning(last)) == Move(via, id, Scanning(last));
    }
  }

  /** An idle task scans up to slot `last`. */
  lemma ScansTo(s: System, labels: seq<Label>, via: System, id: Need, last: nat, free: nat) returns (more: seq<Label>)
    requires InBounds(s) && InBounds(via) && Leads(s, labels, via) && FreeAt(via, free)
    requires id in via.tasks && via.tasks[id] == Idle && last <= |via.used|
    requires forall k :: 0 <= k < last ==> via.used[k]
    ensures Leads(s, more, Move(via, id, Scanning(last)))
  {
    var begun := Move(via, id, Scanning(0));
    assert Step(via, Begin(id)) == begun && FreeAt(begun, free);
    more := LeadsOn(s, labels, via, Begin(id), free);
    more := ScanOn(s, more, begun, id, 0, last, free);
    assert Move(begun, id, Scanning(last)) == Move(via, id, Scanning(last));
  }

  /** The single needs of the calls 0 to n - 1 have taken a slot each. */
  function Filled(s: System, n: nat): System {
    s.(used := seq(|s.used|, k => k < n),
       tasks := map id | id in s.tasks :: if id.call < n then Acquired(id.call) else s.tasks[id])
  }

  predicate Single(s: System) {
    forall id :: id in s.tasks ==> id.index == 0
  }

  lemma FilledNone(s: System)
    requires Initial(s)
    ensures Filled(s, 0) == s
  {
    assert Filled(s, 0).used == s.used && Filled(s, 0).tasks == s.tasks;
  }

  lemma FilledOne(s: System, n: nat)
    requires Initial(s) && n < |s.used| && Need(n, 0) in s.tasks && Single(s)
    ensures Step(Move(Filled(s, n), Need(n, 0), Scanning(n)), Try(Need(n, 0))) == Filled(s, n + 1)
  {
    var next := Step(Move(Filled(s, n), Need(n, 0), Scanning(n)), Try(Need(n, 0)));
    assert next.used == Filled(s, n + 1).used && next.tasks == Filled(s, n + 1).tasks;
  }

  lemma {:induction false} Fill(s: System, n: nat) returns (labels: seq<Label>)
    requires Initial(s) && n < |s.used| && Single(s) && forall call :: 0 <= call < n ==> Need(call, 0) in s.tasks
    ensures Leads(s, labels, Filled(s, n))
    decreases n
  {
    if n == 0 {
      FilledNone(s);
      assert FreeAt(s, 0);
      labels := [];
    } else {
      labels := Fill(s, n - 1);
      labels := FillOne(s, labels, n - 1);
    }
  }

  lemma FillOne(s: System, labels: seq<Label>, n: nat) returns (more: seq<Label>)
    requires Initial(s) && n + 1 < |s.used| && Single(s) && Need(n, 0) in s.tasks && Leads(s, labels, Filled(s, n))
    ensures Leads(s, more, Filled(s, n + 1))
  {
    var before := Filled(s, n);
    more := ScansTo(s, labels, before, Need(n, 0), n, n);
    FilledOne(s, n);
    assert FreeAt(Filled(s, n + 1), n + 1);
    more := LeadsOn(s, more, Move(before, Need(n, 0), Scanning(n)), Try(Need(n, 0)), n + 1);
  }

  const FIRST: Need := Need(0, 0)

  /** Two scans stand at the last slot. The first task gives the first one back, `c` takes the last, `b` is refused. */
  lemma Overtaken(s: System, labels: seq<Label>, via: System, b: Need, c: Need) returns (more: seq<Label>, end: System)
    requires InBounds(s) && InBounds(via) && Leads(s, labels, via)
    requires |via.used| >= 2 && FIRST != b && FIRST != c && b != c
    requires {FIRST, b, c} <= via.tasks.Keys && via.tasks[FIRST] == Acquired(0)
    requires via.tasks[b] == via.tasks[c] == Scanning(|via.used| - 1) && FreeAt(via, |via.used| - 1)
    ensures Leads(s, more, end) && b in end.tasks && end.tasks[b] == Refused
  {
    var last := |via.used| - 1;
    more := LeadsOn(s, labels, via, Store(FIRST, 0), last);
    var stored := Step(via, Store(FIRST, 0));
    more := LeadsOn(s, more, stored, StoreNull(FIRST), last);
    var nulled := Step(stored, StoreNull(FIRST));
    more := LeadsOn(s, more, nulled, Clear(FIRST), 0);
    var cleared := Step(nulled, Clear(FIRST));
    more := LeadsOn(s, more, cleared, Try(c), 0);
    var taken := Step(cleared, Try(c));
    more := LeadsOn(s, more, taken, Try(b), 0);
    var passed := Step(taken, Try(b));
    more := LeadsOn(s, more, passed, Try(b), 0);
    end := Step(passed, Try(b));
  }

  lemma BothScan(s: System, labels: seq<Label>, via: System, b: Need, c: Need) returns (more: seq<Label>, end: System)
    requires InBounds(s) && InBounds(via) && Leads(s, labels, via)
    requires |via.used| >= 2 && FIRST != b && FIRST != c && b != c
    requires {FIRST, b, c} <= via.tasks.Keys && via.tasks[FIRST] == Acquired(0) && via.tasks[b] == via.tasks[c] == Idle
    requires FreeAt(via, |via.used| - 1) && forall k :: 0 <= k < |via.used| - 1 ==> via.used[k]
    ensures Leads(s, more, end) && b in end.tasks && end.tasks[b] == Refused
  {
    var last := |via.used| - 1;
    more := ScansTo(s, labels, via, b, last, last);
    var one := Move(via, b, Scanning(last));
    more := ScansTo(s, more, one, c, last, last);
    more, end := Overtaken(s, more, Move(one, c, Scanning(last)), b, c);
  }

  /** With one task more than slots a scan can be refused although some slot was free at every moment. */
  lemma RefusedForNothing(s: System) returns (labels: seq<Label>)
    requires Initial(s) && |s.used| >= 2 && forall id :: id in s.tasks <==> id.index == 0 && id.call <= |s.used|
    ensures NeverFull(s, labels) && !NobodyRefused(Run(s, labels))
  {
    var b, c := Need(|s.used| - 1, 0), Need(|s.used|, 0);
    labels := Fill(s, b.call);
    var end;
    labels, end := BothScan(s, labels, Filled(s, b.call), b, c);
  }
}
