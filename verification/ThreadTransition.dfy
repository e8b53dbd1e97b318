/** The generated-to-native transition of a Dart thread and the live-heap observation
    (adapters/flutter_vm/flutter_vm.cpp:296-430, 1845-2013 and 2171-2255). */
module ThreadTransition {
  import opened Machine

  /** The words of a VM thread that a transition touches; the profile places them at distinct offsets. */
  datatype Words = Words(execution: U64, topExit: U64, exitMarker: U64, vmTag: U64, safepoint: U64)

  /** The values a VM build gives them; `enterTag` is the address of the adapter's entry function. */
  datatype Layout = Layout(
    generated: U64, native: U64, vm: U64, none: U64, ffi: U64, runtimeCall: U64, dartTag: U64, enterTag: U64)

  datatype Capability = Unverified | Verified | Failed

  /** What proving the transition capability answers when it is not verified yet. */
  datatype Proof = Proves | Unproven | Refutes

  /** A safepoint stub of the VM: any effect on the thread's words. */
  type Stub = Words -> Words

  predicate Distinct(l: Layout) {
    l.generated != l.native && l.native != l.vm && l.vm != l.generated
    && l.none != l.ffi && l.ffi != l.runtimeCall && l.runtimeCall != l.none
  }

  /** Equal but for the safepoint word. */
  predicate SameFour(w: Words, v: Words) {
    w.(safepoint := 0) == v.(safepoint := 0)
  }

  predicate InGenerated(l: Layout, w: Words) {
    w.execution == l.generated && w.topExit == l.none && w.vmTag == l.dartTag
  }

  predicate InNative(l: Layout, w: Words, frame: U64) {
    w.execution == l.native && w.topExit == frame && w.exitMarker == l.ffi
  }

  predicate Entered(l: Layout, w: Words, frame: U64) {
    InNative(l, w, frame) && w.vmTag == l.enterTag
  }

  function Native(l: Layout, w: Words, frame: U64): Words {
    Words(l.native, frame, l.ffi, l.enterTag, w.safepoint)
  }

  function Generated(l: Layout, w: Words): Words {
    Words(l.generated, l.none, l.none, l.dartTag, w.safepoint)
  }

  /** A stub that leaves the four words alone. */
  ghost predicate Tame(stub: Stub) {
    forall w :: SameFour(stub(w), w)
  }

  class Thread {
    const layout: Layout
    var words: Words
    var capability: Capability

    constructor (layout: Layout, words: Words, capability: Capability)
      ensures this.layout == layout && this.words == words && this.capability == capability
    {
      this.layout, this.words, this.capability := layout, words, capability;
    }

    /** `ready` holds when the identity, the other capabilities and the artifact binding are as they must be. */
    method EnterGeneratedToNative(frame: U64, ready: bool, proof: Proof, stub: Stub) returns (ok: bool)
      modifies this
      ensures ok <==>
                && ready && (old(capability) == Verified || (old(capability) == Unverified && proof == Proves))
                && old(words).execution == layout.generated && old(words).topExit == layout.none
                && old(words).vmTag == layout.dartTag && old(words).exitMarker in {layout.none, layout.runtimeCall}
                && var inside := stub(Words(layout.native, frame, layout.ffi, layout.enterTag, old(words).safepoint));
                inside == Words(layout.native, frame, layout.ffi, layout.enterTag, inside.safepoint)
      ensures ok ==> words == stub(Native(layout, old(words), frame)) && capability == Verified
      ensures !ok ==> words == old(words).(safepoint := words.safepoint)
      ensures !ok && words.safepoint != old(words).safepoint ==>
                words.safepoint == stub(Native(layout, old(words), frame)).safepoint && capability == Failed
      ensures !ok && ready && MayUse(old(capability), proof) && InGenerated(layout, old(words))
              && old(words).exitMarker in {layout.none, layout.runtimeCall} ==>
                words.safepoint == stub(Native(layout, old(words), frame)).safepoint
      ensures !ok && !(ready && MayUse(old(capability), proof) && InGenerated(layout, old(words))
                       && old(words).exitMarker in {layout.none, layout.runtimeCall}) ==>
                words == old(words)
      ensures !ok ==>
                capability == if !ready then old(capability)
                              else if MayUse(old(capability), proof) || proof == Refutes then Failed
                              else old(capability)
    {
      if !ready || capability == Failed {
        return false;
      }
      if capability != Verified {
        if proof != Proves {
          capability := if proof == Refutes then Failed else capability;
          return false;
        }
        capability := Verified;
      }
      var before := words;
      if words.execution != layout.generated || words.topExit != layout.none || words.vmTag != layout.dartTag {
        capability := Failed;
        return false;
      }
      if words.exitMarker == layout.runtimeCall {
        words := words.(exitMarker := layout.none);
      } else if words.exitMarker != layout.none {
        capability := Failed;
        return false;
      }
      words := words.(topExit := frame);
      words := words.(exitMarker := layout.ffi);
      words := words.(vmTag := layout.enterTag);
      words := words.(execution := layout.native);
      words := stub(words);
      if !Entered(layout, words, frame) {
        words := words.(vmTag := before.vmTag);
        words := words.(execution := before.execution);
        words := words.(topExit := before.topExit);
        words := words.(exitMarker := before.exitMarker);
        capability := Failed;
        return false;
      }
      return true;
    }

    /** `meanwhile` is what other threads do to the words before they are read back. */
    method LeaveNativeToGenerated(frame: U64, ready: bool, stub: Stub, meanwhile: Stub) returns (ok: bool)
      modifies this
      ensures ok <==>
                && ready && old(capability) == Verified
                && old(words).execution == layout.native && old(words).topExit == frame
                && old(words).exitMarker == layout.ffi
                && var back := meanwhile(Words(layout.generated, layout.none, layout.none, layout.dartTag,
                                               stub(old(words)).safepoint));
                back == Words(layout.generated, layout.none, layout.none, layout.dartTag, back.safepoint)
      ensures ok ==> words == meanwhile(Generated(layout, stub(old(words)))) && capability == Verified
      ensures !ok ==>
                words == if ready && old(capability) == Verified && InNative(layout, old(words), frame) then
                           old(words).(safepoint := meanwhile(Generated(layout, stub(old(words)))).safepoint)
                         else old(words)
      ensures !ok ==> capability == if ready && old(capability) == Verified then Failed else old(capability)
    {
      if !ready || capability != Verified {
        return false;
      }
      if !InNative(layout, words, frame) {
        capability := Failed;
        return false;
      }
      var before := words;
      words := stub(words);
      words := words.(vmTag := layout.dartTag);
      words := words.(execution := layout.generated);
      words := words.(topExit := layout.none);
      words := words.(exitMarker := layout.none);
      words := meanwhile(words);
      if !InGenerated(layout, words) || words.exitMarker != layout.none {
        words := words.(vmTag := before.vmTag);
        words := words.(execution := before.execution);
        words := words.(topExit := before.topExit);
        words := words.(exitMarker := before.exitMarker);
        capability := Failed;
        return false;
      }
      return true;
    }

    /** Whatever native code did in between: a successful enter and a successful leave end in generated state with
        no exit marker. Only a stale runtime-call marker is not put back. With the VM's own stubs, and a safepoint word
        that is the same when native code returns, that word is put back too. */
    method EnterAndLeave(frame: U64, stub: Stub, native: Stub, exit: Stub) returns (entered: bool, left: bool)
      modifies this
      ensures entered && left ==> words.(safepoint := 0) == old(words).(exitMarker := layout.none, safepoint := 0)
      ensures entered && left ==> (SameFour(words, old(words)) <==> old(words).exitMarker == layout.none)
      ensures Tame(stub) && Tame(native) && Tame(exit) && old(capability) == Verified ==>
                && (entered <==> InGenerated(layout, old(words))
                                 && old(words).exitMarker in {layout.none, layout.runtimeCall})
                && (entered ==> left)
      ensures SafepointStubs(exit, stub) && (forall w :: native(w).safepoint == w.safepoint)
              && !AtSafepoint(old(words)) && entered && left ==>
                words == old(words).(exitMarker := layout.none)
      ensures !entered ==> words == old(words).(safepoint := words.safepoint)
    {
      left := false;
      ghost var inside := Native(layout, words, frame);
      entered := EnterGeneratedToNative(frame, true, Proves, stub);
      if entered {
        assert words == stub(inside) && (SafepointStubs(exit, stub) ==> EntersAt(stub, inside));
        words := native(words);
        assert SafepointStubs(exit, stub) ==> ExitsAt(exit, words);
        left := LeaveNativeToGenerated(frame, true, exit, w => w);
      }
    }
  }

  predicate MayUse(capability: Capability, proof: Proof) {
    capability == Verified || (capability == Unverified && proof == Proves)
  }

  // ---- Sequences of calls ----

  /** A reset forgets the capability's proof, as retiring or revalidating the artifacts does. */
  datatype Call =
    | Enter(frame: U64, ready: bool, proof: Proof, stub: Stub)
    | Leave(frame: U64, ready: bool, stub: Stub)
    | Reset

  /** In native code with no verified capability to come back with, or without the exit marker that goes with it. */
  predicate Stranded(l: Layout, w: Words, capability: Capability) {
    w.execution == l.native && (capability != Verified || w.exitMarker != l.ffi)
  }

  /** A failed capability refuses every transition until it is reset. A stranded thread stays in native code for good:
      no sequence of transitions and resets brings it back. */
  method Perform(thread: Thread, calls: seq<Call>) returns (oks: seq<bool>)
    modifies thread
    ensures |oks| == |calls|
    ensures old(thread.capability) == Failed ==>
              forall i :: 0 <= i < |oks| && (forall k :: 0 <= k <= i ==> !calls[k].Reset?) ==> !oks[i]
    ensures old(thread.capability) == Failed && (forall k :: 0 <= k < |calls| ==> !calls[k].Reset?) ==>
              thread.capability == Failed && SameFour(thread.words, old(thread.words))
    ensures Distinct(thread.layout) && Stranded(thread.layout, old(thread.words), old(thread.capability)) ==>
              && Stranded(thread.layout, thread.words, thread.capability) && SameFour(thread.words, old(thread.words))
              && forall i :: 0 <= i < |oks| && oks[i] ==> calls[i].Reset?
  {
    oks := [];
    for i := 0 to |calls|
      invariant |oks| == i
      invariant old(thread.capability) == Failed ==>
                  forall k :: 0 <= k < i && (forall m :: 0 <= m <= k ==> !calls[m].Reset?) ==> !oks[k]
      invariant old(thread.capability) == Failed && (forall k :: 0 <= k < i ==> !calls[k].Reset?) ==>
                  thread.capability == Failed && SameFour(thread.words, old(thread.words))
      invariant Distinct(thread.layout) && Stranded(thread.layout, old(thread.words), old(thread.capability)) ==>
                  && Stranded(thread.layout, thread.words, thread.capability)
                  && SameFour(thread.words, old(thread.words))
                  && forall k :: 0 <= k < i && oks[k] ==> calls[k].Reset?
    {
      var ok := true;
      match calls[i] {
        case Enter(frame, ready, proof, stub) => ok := thread.EnterGeneratedToNative(frame, ready, proof, stub);
        case Leave(frame, ready, stub) => ok := thread.LeaveNativeToGenerated(frame, ready, stub, w => w);
        case Reset => thread.capability := Unverified;
      }
      oks := oks + [ok];
    }
  }

  /** Any other thread in native code comes back by one call with its own exit frame, when the stub does nothing
      else. With `Perform`: a thread in native code can come back exactly when it is not stranded. */
  method ComesBack(thread: Thread) returns (ok: bool)
    requires Distinct(thread.layout) && thread.words.execution == thread.layout.native
    modifies thread
    ensures ok <==> !Stranded(thread.layout, old(thread.words), old(thread.capability))
    ensures thread.words.execution == thread.layout.generated <==> ok
    ensures ok ==> InGenerated(thread.layout, thread.words) && thread.capability == Verified
  {
    ok := thread.LeaveNativeToGenerated(thread.words.topExit, true, w => w, w => w);
  }

  /** A reset while the thread is in native code strands it. */
  method ResetInNativeStrands(thread: Thread, frame: U64, stub: Stub, later: seq<Call>) returns (entered: bool, oks: seq<bool>)
    requires Distinct(thread.layout)
    modifies thread
    ensures entered ==>
              && Stranded(thread.layout, thread.words, thread.capability) && InNative(thread.layout, thread.words, frame)
              && |oks| == |later| && forall i :: 0 <= i < |oks| && oks[i] ==> later[i].Reset?
  {
    oks := [];
    entered := thread.EnterGeneratedToNative(frame, true, Proves, stub);
    if entered {
      thread.capability := Unverified;
      oks := Perform(thread, later);
    }
  }

  /** Entering twice is refused and costs the capability, which strands the thread in native code. */
  method EnteredTwiceIsStranded(thread: Thread, frame: U64, again: U64, stub: Stub, later: seq<Call>)
    returns (first: bool, second: bool, oks: seq<bool>)
    requires Distinct(thread.layout)
    modifies thread
    ensures first ==>
              && !second && Stranded(thread.layout, thread.words, thread.capability)
              && InNative(thread.layout, thread.words, frame)
              && |oks| == |later| && forall i :: 0 <= i < |oks| && oks[i] ==> later[i].Reset?
  {
    second, oks := false, [];
    first := thread.EnterGeneratedToNative(frame, true, Proves, stub);
    if first {
      second := thread.EnterGeneratedToNative(again, true, Proves, stub);
      oks := Perform(thread, later);
    }
  }

  /** A refused leave too: a thread whose stub has taken it out of its safepoint stays outside, in native code. */
  method RefusedOutsideSafepoint(thread: Thread, frame: U64, meanwhile: Stub) returns (ok: bool)
    requires thread.capability == Verified && InNative(thread.layout, thread.words, frame) && thread.words.safepoint == 1
    requires forall w: Words :: meanwhile(w) == w.(vmTag := thread.layout.enterTag)
    requires thread.layout.enterTag != thread.layout.dartTag
    modifies thread
    ensures !ok && SameFour(thread.words, old(thread.words)) && thread.words.safepoint == 0 && thread.capability == Failed
  {
    ok := thread.LeaveNativeToGenerated(frame, true, (w: Words) => w.(safepoint := 0), meanwhile);
  }

  /** A refused enter undoes the four words only: a thread its stub has put at a safepoint stays there. */
  method RefusedAtSafepoint(thread: Thread, frame: U64) returns (ok: bool)
    requires thread.layout.enterTag != 0 && thread.capability == Verified && thread.words.safepoint == 0
    requires InGenerated(thread.layout, thread.words) && thread.words.exitMarker == thread.layout.none
    modifies thread
    ensures !ok && SameFour(thread.words, old(thread.words)) && thread.words.safepoint == 1
  {
    ok := thread.EnterGeneratedToNative(frame, true, Proves, (w: Words) => w.(safepoint := 1, vmTag := 0));
  }

  // ---- Live-heap observation ----

  datatype Observation = Rejected | Aborted | Active(owns: bool)

  predicate AtSafepoint(w: Words) {
    w.safepoint % 2 == 1
  }

  predicate NativeAtSafepoint(l: Layout, w: Words) {
    w.execution == l.native && AtSafepoint(w)
  }

  predicate VmOutsideSafepoint(l: Layout, w: Words) {
    w.execution == l.vm && !AtSafepoint(w)
  }

  method BeginObservation(l: Layout, thread: Thread, isolateMatches: bool, resolved: bool, exit: Stub) returns (o: Observation)
    modifies thread`words
    ensures var w := old(thread.words);
            var admissible := isolateMatches && w.topExit != l.none && w.exitMarker == l.ffi;
            var outside := admissible && w.execution == l.vm && w.safepoint % 2 == 0;
            var parked := admissible && w.execution == l.native && w.safepoint % 2 == 1;
            && (o == Rejected <==> !outside && !(parked && resolved))
            && (o == Active(false) <==> outside)
            && (o == Active(true) <==> !outside && parked && resolved && exit(w).safepoint % 2 == 0)
            && thread.words == if o == Rejected || o == Active(false) then w else exit(w).(execution := l.vm)
    ensures o == Rejected || o == Active(false) ==> thread.words == old(thread.words)
    ensures o == Active(true) ==> NativeAtSafepoint(l, old(thread.words))
  {
    var w := thread.words;
    if !isolateMatches || w.topExit == l.none || w.exitMarker != l.ffi {
      return Rejected;
    }
    var nativeAtSafepoint := w.execution == l.native && w.safepoint % 2 != 0;
    var vmOutsideSafepoint := w.execution == l.vm && w.safepoint % 2 == 0;
    if !nativeAtSafepoint && !vmOutsideSafepoint {
      return Rejected;
    }
    if vmOutsideSafepoint {
      return Active(false);
    }
    if !resolved {
      return Rejected;
    }
    thread.words := exit(thread.words);
    thread.words := thread.words.(execution := l.vm);
    if thread.words.safepoint % 2 != 0 || thread.words.execution != l.vm {
      return Aborted;
    }
    return Active(true);
  }

  /** Ends an observation; `aborted` when the thread is not as the observation left it. */
  method EndObservation(l: Layout, thread: Thread, owns: bool, enter: Stub) returns (aborted: bool)
    modifies thread`words
    ensures var w := old(thread.words);
            aborted <==> w.execution != l.vm
                         || (if owns then enter(w.(execution := l.native)).execution != l.native
                                          || enter(w.(execution := l.native)).safepoint % 2 == 0
                             else w.safepoint % 2 == 1)
    ensures !aborted && owns ==> thread.words == enter(old(thread.words).(execution := l.native))
    ensures !aborted && !owns ==> thread.words == old(thread.words)
  {
    if thread.words.execution != l.vm {
      return true;
    }
    if !owns {
      return thread.words.safepoint % 2 != 0;
    }
    thread.words := thread.words.(execution := l.native);
    thread.words := enter(thread.words);
    return thread.words.safepoint % 2 == 0 || thread.words.execution != l.native;
  }

  predicate ExitsAt(exit: Stub, w: Words) {
    AtSafepoint(w) ==> exit(w) == w.(safepoint := w.safepoint - 1)
  }

  predicate EntersAt(enter: Stub, w: Words) {
    !AtSafepoint(w) ==> enter(w) == w.(safepoint := w.safepoint + 1)
  }

  /** The stubs of a VM: they move the thread out of and into a safepoint and touch nothing else. */
  ghost predicate SafepointStubs(exit: Stub, enter: Stub) {
    forall w :: ExitsAt(exit, w) && EntersAt(enter, w)
  }

  lemma StubsRestore(l: Layout, w: Words, exit: Stub, enter: Stub)
    requires SafepointStubs(exit, enter) && NativeAtSafepoint(l, w)
    ensures var inside := exit(w).(execution := l.vm);
            && inside == w.(execution := l.vm, safepoint := w.safepoint - 1) && !AtSafepoint(exit(w))
            && enter(inside.(execution := l.native)) == w
  {
    assert ExitsAt(exit, w);
    var back := w.(safepoint := w.safepoint - 1);
    assert exit(w).(execution := l.vm).(execution := l.native) == back;
    assert EntersAt(enter, back);
  }

  /** Whatever the stubs and the observer do, an observation that ends without aborting leaves the thread in the
      admissible state it began in. With the VM's own stubs and an observer that only looks it never aborts and
      puts every word back. */
  method Observe(l: Layout, thread: Thread, exit: Stub, enter: Stub, look: Stub) returns (begun: Observation, aborted: bool)
    requires Distinct(l)
    modifies thread`words
    ensures begun.Active? && !aborted ==>
              && thread.words.execution == old(thread.words).execution
              && AtSafepoint(thread.words) == AtSafepoint(old(thread.words))
    ensures begun == Rejected ==> thread.words == old(thread.words)
    ensures SafepointStubs(exit, enter) && (forall w :: look(w) == w) ==>
              begun != Aborted && !aborted && thread.words == old(thread.words)
  {
    var start := thread.words;
    aborted := false;
    begun := BeginObservation(l, thread, true, true, exit);
    if SafepointStubs(exit, enter) && NativeAtSafepoint(l, start) {
      StubsRestore(l, start, exit, enter);
    }
    if begun.Active? {
      thread.words := look(thread.words);
      aborted := EndObservation(l, thread, begun.owns, enter);
    }
  }
}
