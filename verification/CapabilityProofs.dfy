/** Generation-stamped capability proofs and the quiesce, retire and revalidate calls of the VM adapter
    (adapters/flutter_vm/flutter_vm.cpp:527-652, 1498-1502 and 2689-2789, src/vm/object_bridge.cpp:169-181). */
module CapabilityProofs {
  import opened Wrappers

  /** Capabilities are named by their bit. */
  type Capabilities = set<nat>

  datatype ProofState = Unavailable | Unverified | Verified | FailedForIncarnation | AmbiguousRows

  datatype Identity = Identity(isolateGeneration: nat, isolateGroup: nat, engineLoadBias: nat)

  datatype Stamp = Stamp(artifactGeneration: nat, identity: Identity)

  datatype ProofRecord = ProofRecord(state: ProofState, stamp: Option<Stamp>)

  /** What an adapter supports, what its creation and revalidation mark at once, and the lifecycle capability. */
  datatype Profile = Profile(size: nat, supported: Capabilities, eager: Capabilities, lifecycle: nat, identity: Identity)

  datatype State = State(
    verified: Capabilities, failed: Capabilities, records: seq<ProofRecord>, generation: nat,
    valid: bool, quiescing: bool, open: bool)

  datatype Status = Ok | BridgeUnavailable | Busy | ProfileMismatch

  predicate ValidProfile(p: Profile) {
    p.lifecycle < p.size && forall b :: b in p.supported + p.eager ==> b < p.size
  }

  predicate Within(p: Profile, caps: Capabilities) {
    forall b :: b in caps ==> b < p.size
  }

  // ---- The operations on proofs ----

  function Stamped(p: Profile, s: State, caps: Capabilities, state: ProofState): seq<ProofRecord>
    requires |s.records| == p.size
  {
    seq(p.size, b requires 0 <= b < p.size =>
      if b in caps then ProofRecord(state, Some(Stamp(s.generation, p.identity))) else s.records[b])
  }

  function Mark(p: Profile, s: State, caps: Capabilities): State
    requires |s.records| == p.size
  {
    s.(failed := s.failed - caps, verified := s.verified + caps, records := Stamped(p, s, caps, Verified))
  }

  function Fail(p: Profile, s: State, caps: Capabilities): State
    requires |s.records| == p.size
  {
    s.(verified := s.verified - caps, failed := s.failed + caps, records := Stamped(p, s, caps, FailedForIncarnation))
  }

  /** The second critical section of `MarkCapabilityAmbiguous`; the first is `Fail`. */
  function CallAmbiguous(p: Profile, s: State, caps: Capabilities): State
    requires |s.records| == p.size
  {
    s.(records := seq(p.size, b requires 0 <= b < p.size =>
         if b in caps then s.records[b].(state := AmbiguousRows) else s.records[b]))
  }

  function Reset(p: Profile, s: State, caps: Capabilities): State
    requires |s.records| == p.size
  {
    s.(verified := s.verified - caps, failed := s.failed - caps,
       records := seq(p.size, b requires 0 <= b < p.size =>
         if b in caps then ProofRecord(if b in p.supported then Unverified else Unavailable, None) else s.records[b]))
  }

  function InvalidateBinding(p: Profile, s: State): State
    requires |s.records| == p.size
  {
    Reset(p, s, p.supported).(valid := false, generation := s.generation + 1)
  }

  predicate Proven(p: Profile, s: State, b: nat)
    requires |s.records| == p.size
  {
    && b in s.verified && b < p.size
    && s.records[b] == ProofRecord(Verified, Some(Stamp(s.generation, p.identity)))
  }

  // ---- The adapter ----

  class Adapter {
    const profile: Profile
    const records: array<ProofRecord>
    var verified: Capabilities
    var failed: Capabilities
    var generation: nat
    var valid: bool
    var quiescing: bool
    var open: bool

    function Current(): (s: State)
      reads this, records
    {
      State(verified, failed, records[..], generation, valid, quiescing, open)
    }

    predicate Shaped()
      reads this
    {
      ValidProfile(profile) && records.Length == profile.size
    }

    /** The adapter before creation marks its first proofs. */
    constructor (profile: Profile)
      requires ValidProfile(profile)
      ensures Shaped() && this.profile == profile && Initial(profile, Current())
    {
      this.profile := profile;
      records := new ProofRecord[profile.size](b =>
        if b in profile.supported then ProofRecord(Unverified, Some(Stamp(1, profile.identity)))
        else ProofRecord(Unavailable, None));
      verified, failed, generation, valid, quiescing, open := {}, {}, 1, true, false, true;
    }

    method MarkCapabilityVerified(caps: Capabilities)
      requires Shaped() && Within(profile, caps)
      modifies this`verified, this`failed, records
      ensures Current() == Mark(profile, old(Current()), caps)
      ensures verified == old(verified) + caps && failed == old(failed) - caps
      ensures forall b :: 0 <= b < records.Length ==>
                records[b] == if b in caps then ProofRecord(Verified, Some(Stamp(generation, profile.identity)))
                              else old(records[b])
    {
      failed := failed - caps;
      verified := verified + caps;
      StampRecords(caps, Verified);
      assert records[..] == Stamped(profile, old(Current()), caps, Verified);
    }

    method StampRecords(caps: Capabilities, state: ProofState)
      requires Shaped() && Within(profile, caps)
      modifies records
      ensures forall b :: 0 <= b < records.Length ==>
                records[b] == if b in caps then ProofRecord(state, Some(Stamp(generation, profile.identity)))
                              else old(records[b])
    {
      for bit := 0 to records.Length
        invariant forall b :: 0 <= b < bit ==>
                    records[b] == if b in caps then ProofRecord(state, Some(Stamp(generation, profile.identity)))
                                  else old(records[b])
        invariant forall b :: bit <= b < records.Length ==> records[b] == old(records[b])
      {
        if bit in caps {
          records[bit] := ProofRecord(state, Some(Stamp(generation, profile.identity)));
        }
      }
    }

    method MarkCapabilityFailed(caps: Capabilities)
      requires Shaped() && Within(profile, caps)
      modifies this`verified, this`failed, records
      ensures Current() == Fail(profile, old(Current()), caps)
      ensures verified == old(verified) - caps && failed == old(failed) + caps
      ensures forall b :: 0 <= b < records.Length ==>
                records[b] == if b in caps then ProofRecord(FailedForIncarnation, Some(Stamp(generation, profile.identity)))
                              else old(records[b])
    {
      verified := verified - caps;
      failed := failed + caps;
      StampRecords(caps, FailedForIncarnation);
      assert records[..] == Stamped(profile, old(Current()), caps, FailedForIncarnation);
    }

    method MarkCapabilityAmbiguous(caps: Capabilities)
      requires Shaped() && Within(profile, caps)
      modifies this`verified, this`failed, records
      ensures Current() == CallAmbiguous(profile, Fail(profile, old(Current()), caps), caps)
      ensures verified == old(verified) - caps && failed == old(failed) + caps
      ensures forall b :: 0 <= b < records.Length ==>
                records[b] == if b in caps then ProofRecord(AmbiguousRows, Some(Stamp(generation, profile.identity)))
                              else old(records[b])
    {
      MarkCapabilityFailed(caps);
      label failedFirst:
      for bit := 0 to records.Length
        invariant verified == old@failedFirst(verified) && failed == old@failedFirst(failed)
        invariant forall b :: 0 <= b < bit ==>
                    records[b] == if b in caps then old@failedFirst(records[b]).(state := AmbiguousRows)
                                  else old@failedFirst(records[b])
        invariant forall b :: bit <= b < records.Length ==> records[b] == old@failedFirst(records[b])
      {
        if bit in caps {
          records[bit] := records[bit].(state := AmbiguousRows);
        }
      }
      assert records[..] == CallAmbiguous(profile, old@failedFirst(Current()), caps).records;
    }

    method ResetCapabilityProof(caps: Capabilities)
      requires Shaped()
      modifies this`verified, this`failed, records
      ensures Current() == Reset(profile, old(Current()), caps)
      ensures verified == old(verified) - caps && failed == old(failed) - caps
      ensures forall b :: 0 <= b < records.Length ==>
                records[b] == if b !in caps then old(records[b])
                              else ProofRecord(if b in profile.supported then Unverified else Unavailable, None)
    {
      verified := verified - caps;
      failed := failed - caps;
      for bit := 0 to records.Length
        invariant verified == old(verified) - caps && failed == old(failed) - caps
        invariant forall b :: 0 <= b < bit ==>
                    records[b] == if b in caps then
                                    ProofRecord(if b in profile.supported then Unverified else Unavailable, None)
                                  else old(records[b])
        invariant forall b :: bit <= b < records.Length ==> records[b] == old(records[b])
      {
        if bit in caps {
          records[bit] := ProofRecord(if bit in profile.supported then Unverified else Unavailable, None);
        }
      }
      assert records[..] == Reset(profile, old(Current()), caps).records;
    }

    method HasVerifiedCapability(caps: Capabilities) returns (has: bool)
      requires Shaped()
      ensures has <==> forall b :: b in caps ==> Proven(profile, Current(), b)
      ensures has <==> forall b :: b in caps ==>
                         && b in verified && b < records.Length && records[b].state == Verified
                         && records[b].stamp == Some(Stamp(generation, profile.identity))
    {
      if !(caps <= verified) {
        return false;
      }
      var rest := caps;
      while rest != {}
        invariant rest <= caps && forall b :: b in caps - rest ==> Proven(profile, Current(), b)
        decreases |rest|
      {
        var bit :| bit in rest;
        if bit >= records.Length
           || records[bit] != ProofRecord(Verified, Some(Stamp(generation, profile.identity))) {
          return false;
        }
        rest := rest - {bit};
      }
      return true;
    }

    method InvalidateArtifactBinding() returns (artifactGeneration: nat)
      requires Shaped()
      modifies this, records
      ensures Current() == InvalidateBinding(profile, old(Current())) && artifactGeneration == generation
      ensures !valid && generation == old(generation) + 1 && quiescing == old(quiescing) && open == old(open)
      ensures verified == old(verified) - profile.supported && failed == old(failed) - profile.supported
      ensures forall b :: 0 <= b < records.Length ==>
                records[b] == if b in profile.supported then ProofRecord(Unverified, None) else old(records[b])
    {
      valid := false;
      ResetCapabilityProof(profile.supported);
      generation := generation + 1;
      return generation;
    }

    /** The whole call under the artifact mutex. */
    method RevalidateArtifacts(answer: Answer) returns (status: Status)
      requires Shaped() && AnswerWithin(profile, answer)
      modifies this, records
      ensures Current() == Revalidated(profile, old(Current()), answer)
      ensures status == RevalidateStatus(profile, old(Current()), answer)
      ensures status == Busy <==> answer != NoCandidates && old(quiescing) && old(valid)
      ensures status == Ok <==> answer == Reproved && profile.lifecycle in profile.supported && !(old(quiescing) && old(valid))
      ensures status == ProfileMismatch <==>
                answer.RowsRejected? && profile.lifecycle in profile.supported && !(old(quiescing) && old(valid))
      ensures status == Busy ==> Current() == old(Current())
      ensures status == BridgeUnavailable ==> Current() == old(Current()).(valid := false)
      ensures status == ProfileMismatch ==>
                && !valid && quiescing == old(quiescing) && open == old(open) && generation == old(generation)
                && verified == old(verified) - answer.caps && failed == old(failed) + answer.caps
                && forall b :: 0 <= b < records.Length ==>
                     records[b] == if b !in answer.caps then old(records[b])
                                   else ProofRecord(if answer.ambiguous then AmbiguousRows else FailedForIncarnation,
                                                    Some(Stamp(generation, profile.identity)))
      ensures status == Ok ==>
                && valid && !quiescing && open && generation == old(generation)
                && verified == old(verified) + profile.supported * profile.eager + {profile.lifecycle}
                && failed == old(failed) - profile.supported * profile.eager - {profile.lifecycle}
                && forall b :: 0 <= b < records.Length ==>
                     records[b] == if b == profile.lifecycle || (b in profile.supported && b in profile.eager)
                                   then ProofRecord(Verified, Some(Stamp(generation, profile.identity)))
                                   else old(records[b])
    {
      if answer == NoCandidates {
        valid := false;
        return BridgeUnavailable;
      }
      if quiescing && valid {
        return Busy;
      }
      valid := profile.lifecycle in profile.supported && answer != ModulesDiffer;
      if !valid {
        return BridgeUnavailable;
      }
      if answer.RowsRejected? {
        RejectRows(answer.caps, answer.ambiguous);
        valid := false;
        return ProfileMismatch;
      }
      MarkReproved();
      quiescing := false;
      open := true;
      return Ok;
    }

    method RejectRows(caps: Capabilities, ambiguous: bool)
      requires Shaped() && Within(profile, caps)
      modifies this`verified, this`failed, records
      ensures Current() == Rejected(profile, old(Current()), caps, ambiguous)
      ensures verified == old(verified) - caps && failed == old(failed) + caps
      ensures forall b :: 0 <= b < records.Length ==>
                records[b] == if b !in caps then old(records[b])
                              else ProofRecord(if ambiguous then AmbiguousRows else FailedForIncarnation,
                                               Some(Stamp(generation, profile.identity)))
    {
      if ambiguous {
        MarkCapabilityAmbiguous(caps);
      } else {
        MarkCapabilityFailed(caps);
      }
    }

    /** The eager proofs that are supported, and then the lifecycle's. */
    method MarkReproved()
      requires Shaped()
      modifies this`verified, this`failed, records
      ensures Current()
           == Mark(profile, Mark(profile, old(Current()), profile.supported * profile.eager), {profile.lifecycle})
      ensures verified == old(verified) + profile.supported * profile.eager + {profile.lifecycle}
      ensures failed == old(failed) - profile.supported * profile.eager - {profile.lifecycle}
      ensures forall b :: 0 <= b < records.Length ==>
                records[b] == if b == profile.lifecycle || (b in profile.supported && b in profile.eager)
                              then ProofRecord(Verified, Some(Stamp(generation, profile.identity)))
                              else old(records[b])
    {
      assert forall b :: b in profile.supported * profile.eager ==> b in profile.supported + profile.eager;
      MarkCapabilityVerified(profile.supported * profile.eager);
      MarkCapabilityVerified({profile.lifecycle});
    }
  }

  // ---- Steps of concurrent calls ----

  /** What the environment answers a revalidation. `RowsRejected` names the eager capabilities it fails, if any, and
      whether for ambiguity. */
  datatype Answer = NoCandidates | ModulesDiffer | RowsRejected(caps: Capabilities, ambiguous: bool) | Reproved

  predicate AnswerWithin(p: Profile, answer: Answer) {
    answer.RowsRejected? ==> Within(p, answer.caps)
  }

  function RevalidateStatus(p: Profile, s: State, answer: Answer): Status {
    if answer == NoCandidates then BridgeUnavailable
    else if s.quiescing && s.valid then Busy
    else if p.lifecycle !in p.supported || answer == ModulesDiffer then BridgeUnavailable
    else if answer.RowsRejected? then ProfileMismatch
    else Ok
  }

  function Rejected(p: Profile, s: State, caps: Capabilities, ambiguous: bool): State
    requires |s.records| == p.size
  {
    if ambiguous then CallAmbiguous(p, Fail(p, s, caps), caps) else Fail(p, s, caps)
  }

  function Revalidated(p: Profile, s: State, answer: Answer): State
    requires |s.records| == p.size
  {
    match RevalidateStatus(p, s, answer)
    case Busy => s
    case BridgeUnavailable => s.(valid := false)
    case ProfileMismatch => if answer.RowsRejected? then Rejected(p, s, answer.caps, answer.ambiguous).(valid := false) else s
    case Ok => Mark(p, Mark(p, s, p.supported * p.eager), {p.lifecycle}).(valid := true, quiescing := false, open := true)
  }

  /** One critical section each. Calls of several threads interleave between them in any order. */
  datatype Op =
    | Verify(caps: Capabilities) | Refuse(caps: Capabilities) | CallAmbiguousOf(caps: Capabilities)
    | ResetOf(caps: Capabilities)
    | SetQuiescing | CloseAdmission | RetireBinding | DropBinding | Revalidate(answer: Answer)

  function Step(p: Profile, s: State, op: Op): (t: State)
    requires |s.records| == p.size
    ensures |t.records| == p.size
  {
    match op
    case Verify(caps) => Mark(p, s, caps)
    case Refuse(caps) => Fail(p, s, caps)
    case CallAmbiguousOf(caps) => CallAmbiguous(p, s, caps)
    case ResetOf(caps) => Reset(p, s, caps)
    case SetQuiescing => s.(quiescing := true)
    case CloseAdmission => s.(open := false)
    case RetireBinding => if s.valid then InvalidateBinding(p, s) else s
    case DropBinding => InvalidateBinding(p, s).(quiescing := true)
    case Revalidate(answer) => Revalidated(p, s, answer)
  }

  function Run(p: Profile, s: State, ops: seq<Op>): (t: State)
    requires |s.records| == p.size
    ensures |t.records| == p.size
    decreases ops
  {
    if ops == [] then s else Step(p, Run(p, s, ops[..|ops| - 1]), ops[|ops| - 1])
  }

  predicate Initial(p: Profile, s: State) {
    && |s.records| == p.size && s.verified == s.failed == {} && s.generation == 1
    && s.valid && !s.quiescing && s.open
    && forall b :: 0 <= b < p.size ==>
                     && s.records[b].state != Verified
                     && (s.records[b].stamp.Some? ==> s.records[b].stamp.value.artifactGeneration <= s.generation)
  }

  /** No capability is both verified and failed, and no stamp comes from a generation still to come. */
  predicate Sound(p: Profile, s: State) {
    && |s.records| == p.size && s.verified * s.failed == {}
    && forall b :: 0 <= b < p.size && s.records[b].stamp.Some? ==> s.records[b].stamp.value.artifactGeneration <= s.generation
  }

  lemma {:induction false} RunSound(p: Profile, s: State, ops: seq<Op>)
    requires ValidProfile(p) && Sound(p, s)
    ensures Sound(p, Run(p, s, ops))
  {
    if ops != [] {
      RunSound(p, s, ops[..|ops| - 1]);
      StepSound(p, Run(p, s, ops[..|ops| - 1]), ops[|ops| - 1]);
    }
  }

  lemma StepSound(p: Profile, s: State, op: Op)
    requires ValidProfile(p) && Sound(p, s)
    ensures Sound(p, Step(p, s, op))
  {
    match op {
      case Revalidate(answer) => RevalidatedSound(p, s, answer);
      case _ =>
    }
  }

  lemma RevalidatedSound(p: Profile, s: State, answer: Answer)
    requires ValidProfile(p) && Sound(p, s)
    ensures Sound(p, Revalidated(p, s, answer))
  {
    var once := Mark(p, s, p.supported * p.eager);
    assert Sound(p, once) && Sound(p, Mark(p, once, {p.lifecycle}));
  }

  /** While retirement drains a valid binding, no answer but a missing candidate gets through. */
  lemma QuiescingIsBusy(p: Profile, s: State, answer: Answer)
    requires |s.records| == p.size && s.quiescing && s.valid
    ensures answer != NoCandidates ==> Step(p, s, Revalidate(answer)) == s && RevalidateStatus(p, s, answer) == Busy
    ensures answer == NoCandidates ==> Step(p, s, Revalidate(answer)) == s.(valid := false)
  {
  }

  /** In every interleaving: admission that a retirement has closed on a valid binding stays closed until a step has made
      the binding invalid. */
  lemma {:induction false} StaysClosed(p: Profile, s: State, ops: seq<Op>)
    requires |s.records| == p.size && s.quiescing && !s.open
    requires forall n :: 0 <= n < |ops| ==> Run(p, s, ops[..n]).valid
    ensures Run(p, s, ops).quiescing && !Run(p, s, ops).open
  {
    if ops != [] {
      var m := |ops| - 1;
      forall n | 0 <= n < m
        ensures Run(p, s, ops[..m][..n]).valid
      {
        assert ops[..m][..n] == ops[..n];
      }
      StaysClosed(p, s, ops[..m]);
      if ops[m].Revalidate? {
        QuiescingIsBusy(p, Run(p, s, ops[..m]), ops[m].answer);
      }
    }
  }

  /** Which steps put a capability into the failed mask, keep it there, or take it out. */
  lemma FailedStep(p: Profile, s: State, op: Op, b: nat)
    requires ValidProfile(p) && Sound(p, s) && b < p.size
    ensures b in Step(p, s, op).failed <==>
            || (op.Refuse? && b in op.caps)
            || (op.Revalidate? && op.answer.RowsRejected? && b in op.answer.caps && p.lifecycle in p.supported
                && !(s.quiescing && s.valid))
            || (b in s.failed && !Marks(p, s, op, b) && !(op.ResetOf? && b in op.caps)
                && !(b in p.supported && (op.DropBinding? || (op.RetireBinding? && s.valid))))
  {
  }

  predicate Revalidates(p: Profile, s: State, op: Op) {
    op.Revalidate? && RevalidateStatus(p, s, op.answer) == Ok
  }

  predicate Marks(p: Profile, s: State, op: Op, b: nat) {
    b < p.size && ((op.Verify? && b in op.caps)
    || (Revalidates(p, s, op) && (b in p.supported * p.eager || b == p.lifecycle)))
  }

  predicate Kills(p: Profile, s: State, op: Op, b: nat) {
    || ((op.Refuse? || op.CallAmbiguousOf? || op.ResetOf?) && b in op.caps)
    || (op.RetireBinding? && s.valid) || op.DropBinding?
    || (op.Revalidate? && op.answer.RowsRejected? && RevalidateStatus(p, s, op.answer) == ProfileMismatch && b in op.answer.caps)
  }

  lemma ProvenStep(p: Profile, s: State, op: Op, b: nat)
    requires ValidProfile(p) && Sound(p, s)
    ensures Proven(p, Step(p, s, op), b) <==> Marks(p, s, op, b) || (Proven(p, s, b) && !Kills(p, s, op, b))
  {
  }

  predicate MarkedAt(p: Profile, s: State, ops: seq<Op>, n: nat, b: nat)
    requires |s.records| == p.size && n < |ops|
  {
    Marks(p, Run(p, s, ops[..n]), ops[n], b)
  }

  predicate KilledAt(p: Profile, s: State, ops: seq<Op>, n: nat, b: nat)
    requires |s.records| == p.size && n < |ops|
  {
    Kills(p, Run(p, s, ops[..n]), ops[n], b)
  }

  predicate MarkedSince(p: Profile, s: State, ops: seq<Op>, b: nat)
    requires |s.records| == p.size
  {
    exists n :: 0 <= n < |ops| && MarkedAt(p, s, ops, n, b) && forall k :: n < k < |ops| ==> !KilledAt(p, s, ops, k, b)
  }

  lemma ShorterRun(p: Profile, s: State, ops: seq<Op>, n: nat, b: nat)
    requires |s.records| == p.size && n < |ops| - 1
    ensures MarkedAt(p, s, ops[..|ops| - 1], n, b) == MarkedAt(p, s, ops, n, b)
    ensures KilledAt(p, s, ops[..|ops| - 1], n, b) == KilledAt(p, s, ops, n, b)
  {
    assert ops[..|ops| - 1][..n] == ops[..n];
  }

  /** In every interleaving, a capability is reported verified exactly when some step marked it and no later step
      failed or reset it or changed the artifact generation. */
  lemma {:induction false} ProvenExactly(p: Profile, s: State, ops: seq<Op>, b: nat)
    requires ValidProfile(p) && Initial(p, s)
    ensures Proven(p, Run(p, s, ops), b) <==> MarkedSince(p, s, ops, b)
  {
    if ops != [] {
      var m := |ops| - 1;
      var before := ops[..m];
      ProvenExactly(p, s, before, b);
      RunSound(p, s, before);
      ProvenStep(p, Run(p, s, before), ops[m], b);
      assert MarkedAt(p, s, ops, m, b) == Marks(p, Run(p, s, before), ops[m], b);
      assert KilledAt(p, s, ops, m, b) == Kills(p, Run(p, s, before), ops[m], b);
      LastOp(p, s, ops, b);
    }
  }

  lemma LastOp(p: Profile, s: State, ops: seq<Op>, b: nat)
    requires |s.records| == p.size && ops != []
    ensures var m := |ops| - 1;
            MarkedSince(p, s, ops, b) <==>
              MarkedAt(p, s, ops, m, b) || (MarkedSince(p, s, ops[..m], b) && !KilledAt(p, s, ops, m, b))
  {
    var m := |ops| - 1;
    forall n | 0 <= n < m
      ensures MarkedAt(p, s, ops[..m], n, b) == MarkedAt(p, s, ops, n, b)
      ensures KilledAt(p, s, ops[..m], n, b) == KilledAt(p, s, ops, n, b)
    {
      ShorterRun(p, s, ops, n, b);
    }
  }

  /** So the mark was made in the generation it is reported in. */
  lemma {:induction false} MarkedInThisGeneration(p: Profile, s: State, ops: seq<Op>, b: nat)
    requires ValidProfile(p) && Initial(p, s) && Proven(p, Run(p, s, ops), b)
    ensures exists n :: 0 <= n < |ops| && MarkedAt(p, s, ops, n, b)
                     && Run(p, s, ops[..n]).generation == Run(p, s, ops).generation
  {
    if ops != [] {
      var m := |ops| - 1;
      RunSound(p, s, ops[..m]);
      ProvenStep(p, Run(p, s, ops[..m]), ops[m], b);
      if MarkedAt(p, s, ops, m, b) {
        assert Run(p, s, ops[..m]).generation == Run(p, s, ops).generation;
      } else {
        MarkedInThisGeneration(p, s, ops[..m], b);
        var n :| 0 <= n < m && MarkedAt(p, s, ops[..m], n, b)
                 && Run(p, s, ops[..m][..n]).generation == Run(p, s, ops[..m]).generation;
        ShorterRun(p, s, ops, n, b);
        assert ops[..m][..n] == ops[..n];
      }
    }
  }

  // ---- Retirement and admission ----

  /** Closed admission, or an invalid binding, comes back only through a successful revalidation. */
  lemma {:induction false} OnlyRevalidationReopens(p: Profile, s: State, ops: seq<Op>)
    requires |s.records| == p.size
    requires (!s.open && Run(p, s, ops).open) || (!s.valid && Run(p, s, ops).valid)
    ensures exists n :: 0 <= n < |ops| && Revalidates(p, Run(p, s, ops[..n]), ops[n])
  {
    var m := |ops| - 1;
    var before := Run(p, s, ops[..m]);
    if !Revalidates(p, before, ops[m]) {
      OnlyRevalidationReopens(p, s, ops[..m]);
      var n :| 0 <= n < m && Revalidates(p, Run(p, s, ops[..m][..n]), ops[..m][n]);
      assert ops[..m][..n] == ops[..n];
    }
  }

  /** `retire_artifacts`, when its hooks and handles are idle. */
  function RetireCall(p: Profile, s: State): State
    requires |s.records| == p.size
  {
    Run(p, s, [SetQuiescing, CloseAdmission, RetireBinding])
  }

  /** It moves to the next generation once, proves nothing any more, and repeating it changes nothing. */
  lemma RetiredOnce(p: Profile, s: State)
    requires ValidProfile(p) && Sound(p, s)
    ensures var t := RetireCall(p, s);
            && t.generation == (if s.valid then s.generation + 1 else s.generation)
            && !t.valid && t.quiescing && !t.open
            && (s.valid ==> forall b :: !Proven(p, t, b))
            && RetireCall(p, t) == t
  {
    RetireCallIs(p, s);
    RetireCallIs(p, RetireCall(p, s));
  }

  lemma RetireCallIs(p: Profile, s: State)
    requires |s.records| == p.size
    ensures var q := s.(quiescing := true, open := false);
            RetireCall(p, s) == if s.valid then InvalidateBinding(p, q) else q
  {
    var ops := [SetQuiescing, CloseAdmission, RetireBinding];
    assert ops[..2] == [SetQuiescing, CloseAdmission] && ops[..2][..1] == [SetQuiescing] && ops[..1][..0] == [];
    assert Run(p, s, [SetQuiescing]) == s.(quiescing := true);
    assert Run(p, s, ops[..2]) == s.(quiescing := true, open := false);
  }

  /** Admission is left open on an invalid binding exactly by a step that invalidates while it is open: the locked
      part of a retirement or invalidation that a revalidation overtook, or a failed revalidation. */
  lemma LeftOpen(p: Profile, s: State, op: Op)
    requires |s.records| == p.size && (s.open ==> s.valid)
    ensures var t := Step(p, s, op);
            t.open && !t.valid <==>
              s.open && Invalidates(p, s, op)
  {
  }

  /** The guards of the branches that leave the binding invalid. */
  predicate Invalidates(p: Profile, s: State, op: Op) {
    || op.RetireBinding? || op.DropBinding?
    || (op.Revalidate?
        && (op.answer == NoCandidates
            || (!(s.quiescing && s.valid)
                && (p.lifecycle !in p.supported || op.answer == ModulesDiffer || op.answer.RowsRejected?))))
  }

  /** Step `n` has left admission open on an invalid binding, and nothing since has closed it or made the binding
      valid again. */
  predicate LeftOpenAt(p: Profile, s: State, ops: seq<Op>, n: nat)
    requires |s.records| == p.size && n < |ops|
  {
    && Run(p, s, ops[..n]).open && Invalidates(p, Run(p, s, ops[..n]), ops[n])
    && forall k :: n < k < |ops| ==> !MendedAt(p, s, ops, k)
  }

  predicate MendedAt(p: Profile, s: State, ops: seq<Op>, k: nat)
    requires |s.records| == p.size && k < |ops|
  {
    ops[k].CloseAdmission? || Revalidates(p, Run(p, s, ops[..k]), ops[k])
  }

  predicate LeftOpenSince(p: Profile, s: State, ops: seq<Op>)
    requires |s.records| == p.size
  {
    exists n :: 0 <= n < |ops| && LeftOpenAt(p, s, ops, n)
  }

  /** In every interleaving, admission ends up open on an invalid binding exactly when some step left it so and no
      later one closed it or revalidated. */
  lemma {:induction false} OpenOnInvalidExactly(p: Profile, s: State, ops: seq<Op>)
    requires |s.records| == p.size && s.open && s.valid
    ensures Run(p, s, ops).open && !Run(p, s, ops).valid <==> LeftOpenSince(p, s, ops)
  {
    if ops != [] {
      var m := |ops| - 1;
      var before := Run(p, s, ops[..m]);
      OpenOnInvalidExactly(p, s, ops[..m]);
      LastLeftOpen(p, s, ops);
      OpenStep(p, before, ops[m]);
    }
  }

  lemma OpenStep(p: Profile, s: State, op: Op)
    requires |s.records| == p.size
    ensures var t := Step(p, s, op);
            t.open && !t.valid <==>
              (s.open && Invalidates(p, s, op)) || (s.open && !s.valid && !op.CloseAdmission? && !Revalidates(p, s, op))
  {
  }

  lemma LastLeftOpen(p: Profile, s: State, ops: seq<Op>)
    requires |s.records| == p.size && ops != []
    ensures var m := |ops| - 1;
            var before := Run(p, s, ops[..m]);
            LeftOpenSince(p, s, ops) <==>
              || (before.open && Invalidates(p, before, ops[m]))
              || (LeftOpenSince(p, s, ops[..m]) && !ops[m].CloseAdmission? && !Revalidates(p, before, ops[m]))
  {
    var m := |ops| - 1;
    forall n | 0 <= n < m
      ensures LeftOpenAt(p, s, ops, n) <==> LeftOpenAt(p, s, ops[..m], n) && !MendedAt(p, s, ops, m)
    {
      LeftOpenEarlier(p, s, ops, n);
    }
    assert LeftOpenAt(p, s, ops, m) == (Run(p, s, ops[..m]).open && Invalidates(p, Run(p, s, ops[..m]), ops[m]));
  }

  lemma LeftOpenEarlier(p: Profile, s: State, ops: seq<Op>, n: nat)
    requires |s.records| == p.size && n < |ops| - 1
    ensures var m := |ops| - 1;
            LeftOpenAt(p, s, ops, n) <==> LeftOpenAt(p, s, ops[..m], n) && !MendedAt(p, s, ops, m)
  {
    var m := |ops| - 1;
    assert ops[..m][..n] == ops[..n];
    forall k | n < k < m
      ensures MendedAt(p, s, ops[..m], k) == MendedAt(p, s, ops, k)
    {
      assert ops[..m][..k] == ops[..k];
    }
  }

  /** A revalidation that slips between the two parts of a second retirement does it. */
  lemma RevalidationOvertakesRetirement(p: Profile, s: State)
    requires ValidProfile(p) && Initial(p, s) && p.lifecycle in p.supported
    ensures var t := RetireCall(p, s);
            var u := Run(p, t, [SetQuiescing, CloseAdmission, Revalidate(Reproved), RetireBinding]);
            u.open && !u.valid && u.generation == s.generation + 2
  {
    RetireCallIs(p, s);
    var t := RetireCall(p, s);
    var ops := [SetQuiescing, CloseAdmission, Revalidate(Reproved), RetireBinding];
    assert ops[..3][..2] == ops[..2] == [SetQuiescing, CloseAdmission];
    assert ops[..2][..1] == [SetQuiescing] && ops[..1][..0] == [];
    assert Run(p, t, [SetQuiescing]) == t;
    assert Run(p, t, ops[..2]) == t;
    assert ops[..3][2] == Revalidate(Reproved);
    assert Run(p, t, ops[..3]) == Revalidated(p, t, Reproved);
  }
}
