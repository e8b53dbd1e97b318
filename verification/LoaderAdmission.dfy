/** Admission of loader callbacks through one packed word (adapters/lsposed/lsposed_module.cpp:21-72 and 141-167).
    Each label is one atomic operation on the word; the compare-and-swap loops keep a snapshot that may be stale, and
    a weak compare-and-swap may fail for no reason. */
module LoaderAdmission {
  import opened Machine
  import opened PackedWord

  const ACTIVE: U32 := 0
  const DRAINING: U32 := 1
  const CLOSED: U32 := 2
  const MOST: U32 := 0xffff_ffff

  datatype Thread = Outside | Entering(snapshot: U64) | Inside | Closing(snapshot: U64)

  datatype System = System(word: U64, threads: map<nat, Thread>)

  datatype Label =
    | StartEnter(id: nat) | TryEnter(id: nat, spurious: bool) | Exit(id: nat)
    | StartClose(id: nat) | TryClose(id: nat, spurious: bool) | Finish

  function Set(s: System, id: nat, t: Thread): System {
    s.(threads := s.threads[id := t])
  }

  /** One turn of the entry loop. */
  function EnterTurn(s: System, id: nat, snapshot: U64, spurious: bool): System {
    if StateOf(snapshot) != ACTIVE || CountOf(snapshot) == MOST then Set(s, id, Outside)
    else if s.word == snapshot && !spurious then Set(s, id, Inside).(word := AddOne(snapshot))
    else Set(s, id, Entering(s.word))
  }

  /** One turn of the closing loop. */
  function CloseTurn(s: System, id: nat, snapshot: U64, spurious: bool): System {
    if StateOf(snapshot) != ACTIVE then Set(s, id, Outside)
    else if s.word == snapshot && !spurious then Set(s, id, Outside).(word := WithState(snapshot, DRAINING))
    else Set(s, id, Closing(s.word))
  }

  /** `fetch_sub` wraps around in 64 bits. */
  function FetchSub(word: U64): U64 {
    (word + TWO_64 - TWO_32) % TWO_64
  }

  predicate Finishes(word: U64) {
    word == Pack(DRAINING, 0) || word == Pack(CLOSED, 0)
  }

  function Step(s: System, l: Label): System {
    match l
    case Finish => if s.word == Pack(DRAINING, 0) then s.(word := Pack(CLOSED, 0)) else s
    case _ => if l.id in s.threads then Act(s, l, s.threads[l.id]) else s
  }

  function Act(s: System, l: Label, t: Thread): System
    requires !l.Finish?
  {
    match l
    case StartEnter(id) => if t.Outside? then Set(s, id, Entering(s.word)) else s
    case TryEnter(id, spurious) => if t.Entering? then EnterTurn(s, id, t.snapshot, spurious) else s
    case Exit(id) => if t.Inside? then Set(s, id, Outside).(word := FetchSub(s.word)) else s
    case StartClose(id) => if t.Outside? then Set(s, id, Closing(s.word)) else s
    case TryClose(id, spurious) => if t.Closing? then CloseTurn(s, id, t.snapshot, spurious) else s
    case _ => s
  }

  function Run(s: System, labels: seq<Label>): System
    decreases labels
  {
    if labels == [] then s else Step(Run(s, labels[..|labels| - 1]), labels[|labels| - 1])
  }

  predicate Initial(s: System) {
    s.word == Pack(0, 0) && forall id :: id in s.threads ==> s.threads[id] == Outside
  }

  ghost function Insiders(threads: map<nat, Thread>): set<nat> {
    set id | id in threads && threads[id].Inside?
  }

  /** The word is the pair of the state and the number of threads inside. */
  ghost predicate Refines(s: System) {
    && StateOf(s.word) <= CLOSED && CountOf(s.word) == |Insiders(s.threads)|
    && (StateOf(s.word) == CLOSED ==> CountOf(s.word) == 0)
  }

  lemma InsidersAfter(threads: map<nat, Thread>, id: nat, t: Thread)
    requires id in threads
    ensures |Insiders(threads[id := t])|
         == |Insiders(threads)| - (if threads[id].Inside? then 1 else 0) + (if t.Inside? then 1 else 0)
  {
    var before, after := Insiders(threads), Insiders(threads[id := t]);
    assert after == if t.Inside? then (before - {id}) + {id} else before - {id};
    assert threads[id].Inside? <==> id in before;
  }

  lemma FetchSubTakesOne(word: U64)
    requires CountOf(word) > 0
    ensures FetchSub(word) == SubOne(word)
  {
  }

  /** The abstract protocol: the only changes of state and number of threads inside there are. */
  predicate Moves(state: U32, inside: nat, newState: U32, newInside: nat) {
    || (newState == state && newInside == inside)
    || (state == newState == ACTIVE && inside < MOST && newInside == inside + 1)
    || (newState == state != CLOSED && inside > 0 && newInside == inside - 1)
    || (state == ACTIVE && newState == DRAINING && newInside == inside)
    || (state == DRAINING && newState == CLOSED && inside == newInside == 0)
  }

  /** Every step of the word is a move of the abstract protocol. */
  ghost predicate Simulates(s: System, t: System) {
    Refines(t) && Moves(StateOf(s.word), |Insiders(s.threads)|, StateOf(t.word), |Insiders(t.threads)|)
  }

  lemma EnterSimulates(s: System, id: nat, snapshot: U64, spurious: bool)
    requires Refines(s) && id in s.threads && s.threads[id] == Entering(snapshot)
    ensures Simulates(s, EnterTurn(s, id, snapshot, spurious))
  {
    InsidersAfter(s.threads, id, EnterTurn(s, id, snapshot, spurious).threads[id]);
  }

  lemma CloseSimulates(s: System, id: nat, snapshot: U64, spurious: bool)
    requires Refines(s) && id in s.threads && s.threads[id] == Closing(snapshot)
    ensures Simulates(s, CloseTurn(s, id, snapshot, spurious))
  {
    InsidersAfter(s.threads, id, CloseTurn(s, id, snapshot, spurious).threads[id]);
  }

  lemma ExitSimulates(s: System, id: nat)
    requires Refines(s) && id in s.threads && s.threads[id] == Inside
    ensures Simulates(s, Set(s, id, Outside).(word := FetchSub(s.word)))
  {
    InsidersAfter(s.threads, id, Outside);
    FetchSubTakesOne(s.word);
  }

  /** Beginning a loop is nobody's entry or exit. */
  lemma StartSimulates(s: System, id: nat, t: Thread)
    requires Refines(s) && id in s.threads && s.threads[id] == Outside && !t.Inside?
    ensures Simulates(s, Set(s, id, t))
  {
    InsidersAfter(s.threads, id, t);
  }

  lemma FinishSimulates(s: System)
    requires Refines(s)
    ensures Simulates(s, Step(s, Finish))
  {
    PackedExactly(s.word, DRAINING, 0);
  }

  lemma StepRefines(s: System, l: Label)
    requires Refines(s)
    ensures Simulates(s, Step(s, l))
  {
    if l == Finish {
      FinishSimulates(s);
    } else if l.id in s.threads {
      ActSimulates(s, l);
    }
  }

  lemma ActSimulates(s: System, l: Label)
    requires Refines(s) && !l.Finish? && l.id in s.threads
    ensures Simulates(s, Act(s, l, s.threads[l.id]))
  {
    var id, t := l.id, s.threads[l.id];
    if l.StartEnter? && t.Outside? {
      StartSimulates(s, id, Entering(s.word));
    } else if l.StartClose? && t.Outside? {
      StartSimulates(s, id, Closing(s.word));
    } else if l.TryEnter? && t.Entering? {
      EnterSimulates(s, id, t.snapshot, l.spurious);
    } else if l.TryClose? && t.Closing? {
      CloseSimulates(s, id, t.snapshot, l.spurious);
    } else if l.Exit? && t.Inside? {
      ExitSimulates(s, id);
    }
  }

  lemma InitialRefines(s: System)
    requires Initial(s)
    ensures Refines(s)
  {
    assert Insiders(s.threads) == {};
  }

  /** In every interleaving the word refines the pair, and the state only moves forward. */
  lemma {:induction false} RunRefines(s: System, labels: seq<Label>)
    requires Refines(s)
    ensures Refines(Run(s, labels)) && StateOf(Run(s, labels).word) >= StateOf(s.word)
  {
    if labels != [] {
      var n := |labels| - 1;
      RunRefines(s, labels[..n]);
      StepRefines(Run(s, labels[..n]), labels[n]);
    }
  }

  lemma ClosedIsEmpty(s: System)
    requires Refines(s)
    ensures StateOf(s.word) == CLOSED <==> s.word == Pack(CLOSED, 0)
    ensures StateOf(s.word) == CLOSED ==> forall id :: id in s.threads ==> !s.threads[id].Inside?
  {
    PackedExactly(s.word, CLOSED, 0);
    if CountOf(s.word) == 0 {
      NobodyInside(s.threads);
    }
  }

  lemma NobodyInside(threads: map<nat, Thread>)
    requires |Insiders(threads)| == 0
    ensures forall id :: id in threads ==> !threads[id].Inside?
  {
    forall id | id in threads
      ensures !threads[id].Inside?
    {
      assert id !in Insiders(threads);
    }
  }

  /** Once closed, nobody is inside and nobody ever gets in again, whatever snapshots are still held. */
  lemma ClosedForGood(initial: System, before: seq<Label>, after: seq<Label>)
    requires Initial(initial) && StateOf(Run(initial, before).word) == CLOSED
    ensures var t := Run(Run(initial, before), after);
            t.word == Pack(CLOSED, 0) && forall id :: id in t.threads ==> !t.threads[id].Inside?
  {
    InitialRefines(initial);
    RunRefines(initial, before);
    RunRefines(Run(initial, before), after);
    ClosedIsEmpty(Run(Run(initial, before), after));
  }

  /** Finishing reports success exactly when admission is no longer active and nobody is inside; it is then closed. */
  lemma FinishExactly(initial: System, labels: seq<Label>)
    requires Initial(initial)
    ensures var s := Run(initial, labels);
            && (Finishes(s.word) <==> StateOf(s.word) != ACTIVE && Insiders(s.threads) == {})
            && (Finishes(s.word) <==> StateOf(Step(s, Finish).word) == CLOSED)
  {
    InitialRefines(initial);
    RunRefines(initial, labels);
    var s := Run(initial, labels);
    PackedExactly(s.word, DRAINING, 0);
    PackedExactly(s.word, CLOSED, 0);
    ClosedIsEmpty(s);
    ClosedIsEmpty(Step(s, Finish));
    StepRefines(s, Finish);
  }

  /** A thread in the entry loop gets in on its next undisturbed turn exactly when its snapshot is still the word and
      admits it; a full or inactive snapshot turns it away. */
  lemma EntryExactly(s: System, id: nat)
    requires Refines(s) && id in s.threads && s.threads[id].Entering?
    ensures var t, snapshot := Step(s, TryEnter(id, false)), s.threads[id].snapshot;
            && (t.threads[id].Inside? <==>
                  snapshot == s.word && StateOf(s.word) == ACTIVE && |Insiders(s.threads)| < MOST)
            && (t.threads[id].Outside? <==> StateOf(snapshot) != ACTIVE || CountOf(snapshot) == MOST)
  {
  }

  /** The same for the closing loop: its next undisturbed turn drains an active word whose snapshot is still good, keeping
      everybody who is inside; a snapshot that is no longer active ends the loop. */
  lemma CloseExactly(s: System, id: nat)
    requires Refines(s) && id in s.threads && s.threads[id].Closing?
    ensures var t, snapshot := Step(s, TryClose(id, false)), s.threads[id].snapshot;
            && (StateOf(snapshot) != ACTIVE ==> t == s.(threads := s.threads[id := Outside]))
            && (StateOf(snapshot) == ACTIVE && snapshot == s.word ==>
                  t == System(Pack(1, CountOf(s.word)), s.threads[id := Outside]))
            && (StateOf(snapshot) == ACTIVE && snapshot != s.word ==>
                  t == s.(threads := s.threads[id := Closing(s.word)]))
  {
    PackedExactly(WithState(s.word, DRAINING), 1, CountOf(s.word));
  }

  /** Undisturbed calls, by the numbers of the states - 0 active, 1 draining, 2 closed: entering an active word takes one
      more in, and closing it drains it. */
  lemma UndisturbedCalls(s: System, id: nat)
    requires id in s.threads && s.threads[id] == Outside
    ensures Run(s, [StartEnter(id), TryEnter(id, false)])
         == if StateOf(s.word) == 0 && CountOf(s.word) < 0xffff_ffff then
              System(Pack(0, CountOf(s.word) + 1), s.threads[id := Inside])
            else s
    ensures Run(s, [StartClose(id), TryClose(id, false)])
         == if StateOf(s.word) == 0 then System(Pack(1, CountOf(s.word)), s.threads) else s
  {
    TwoSteps(s, StartEnter(id), TryEnter(id, false));
    TwoSteps(s, StartClose(id), TryClose(id, false));
    EnterTwice(s, id);
    CloseTwice(s, id);
  }

  /** Leaving takes one out. */
  lemma UndisturbedExit(s: System, id: nat)
    requires Refines(s) && id in s.threads && s.threads[id] == Inside
    ensures CountOf(s.word) > 0
    ensures Step(s, Exit(id)) == System(Pack(StateOf(s.word), CountOf(s.word) - 1), s.threads[id := Outside])
  {
    assert id in Insiders(s.threads);
    FetchSubTakesOne(s.word);
    PackedExactly(SubOne(s.word), StateOf(s.word), CountOf(s.word) - 1);
  }

  /** Finishing an empty draining word closes it. */
  lemma UndisturbedFinish(s: System)
    ensures Step(s, Finish) == if s.word == Pack(1, 0) then s.(word := Pack(2, 0)) else s
  {
  }

  lemma TwoSteps(s: System, l: Label, m: Label)
    ensures Run(s, [l, m]) == Step(Step(s, l), m)
  {
    assert [l, m][..1] == [l] && [l][..0] == [];
    assert Run(s, [l]) == Step(Run(s, []), l);
  }

  lemma EnterTwice(s: System, id: nat)
    requires id in s.threads && s.threads[id] == Outside
    ensures Step(Step(s, StartEnter(id)), TryEnter(id, false))
         == if StateOf(s.word) == 0 && CountOf(s.word) < 0xffff_ffff then
              System(Pack(0, CountOf(s.word) + 1), s.threads[id := Inside])
            else s
  {
    if StateOf(s.word) == 0 && CountOf(s.word) < 0xffff_ffff {
      PackedExactly(AddOne(s.word), 0, CountOf(s.word) + 1);
      assert s.threads[id := Entering(s.word)][id := Inside] == s.threads[id := Inside];
    } else {
      assert s.threads[id := Entering(s.word)][id := Outside] == s.threads;
    }
  }

  lemma CloseTwice(s: System, id: nat)
    requires id in s.threads && s.threads[id] == Outside
    ensures Step(Step(s, StartClose(id)), TryClose(id, false))
         == if StateOf(s.word) == 0 then System(Pack(1, CountOf(s.word)), s.threads) else s
  {
    PackedExactly(WithState(s.word, DRAINING), 1, CountOf(s.word));
    assert s.threads[id := Closing(s.word)][id := Outside] == s.threads;
  }
}
