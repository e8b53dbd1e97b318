/** What installs, unhooks and third-party writes do to the managed image, and that each of them keeps it sound
    (src/core/hook_registry.cpp:338-387, 534-638, 893-962 and 1284-1478, src/interceptor/arm64_bridge.cpp:902-1119). */
module PatchSteps {
  import opened Wrappers
  import opened Machine
  import opened ManagedPatches

  // ---- Installing ----

  predicate Mapped(memory: map<nat, Byte>, start: nat, size: nat) {
    forall a: nat :: start <= a < start + size ==> a in memory
  }

  /** `SnapshotEntryTarget` and `CaptureManagedPatchedBytes` copy the whole entry range. */
  function Snapshot(memory: map<nat, Byte>, start: nat, size: nat): (bytes: seq<Byte>)
    requires Mapped(memory, start, size)
    ensures |bytes| == size && forall k :: 0 <= k < size ==> bytes[k] == memory[start + k]
  {
    seq(size, k requires 0 <= k < size => memory[start + k])
  }

  /** What one install leaves: the entry range it snapshots, the return sites it claims for a payload with the branch
      written at each new one, and the bytes its backend writes and holds. */
  datatype Install = Install(
    entry: nat, size: nat, payload: Option<nat>, claimed: set<nat>, branch: map<nat, seq<Byte>>, writes: map<nat, Byte>)

  /** How an install that leaves a record ends. One that fails after publication is never captured; it keeps the
      backend's bytes when the backend could not roll back, and its return sites when they could not be restored. */
  datatype Outcome = Captures | Fails(state: HookState, holds: bool)

  predicate Leaves(d: Install, outcome: Outcome) {
    outcome.Fails? ==>
      && outcome.state in {Failed, FailedAfterPublished}
      && (!outcome.holds ==> d.writes == map[])
  }

  /** Different hooks write disjoint bytes, apart from return sites they share; return sites lie in the entry. */
  ghost predicate Admissible(hooks: seq<Hook>, sites: map<nat, ReturnSite>, memory: map<nat, Byte>, d: Install) {
    && Shaped(sites, memory, d)
    && (forall a :: a in d.writes ==> Free(hooks, sites, a) && InstructionOf(a) !in d.claimed)
    && (forall at :: at in d.claimed ==> Claimable(hooks, sites, d, at))
  }

  predicate Shaped(sites: map<nat, ReturnSite>, memory: map<nat, Byte>, d: Install) {
    && Mapped(memory, d.entry, d.size) && d.writes.Keys <= memory.Keys
    && (d.claimed != {} ==> d.payload.Some?)
    && forall at :: at in d.claimed ==>
                      && d.entry <= at && at + 4 <= d.entry + d.size
                      && (at !in sites ==> at in d.branch && |d.branch[at]| == 4)
  }

  ghost predicate Claimable(hooks: seq<Hook>, sites: map<nat, ReturnSite>, d: Install, at: nat) {
    && at % 4 == 0
    && (at in sites ==> d.payload == Some(sites[at].payload))
    && (at !in sites ==> forall a :: at <= a < at + 4 ==> Free(hooks, sites, a))
  }

  predicate NewlyBranched(sites: map<nat, ReturnSite>, d: Install, a: nat) {
    InstructionOf(a) in d.claimed && InstructionOf(a) !in sites
  }

  /** Memory once the new return branches and the backend's bytes are written. */
  function AfterInstall(sites: map<nat, ReturnSite>, memory: map<nat, Byte>, d: Install): (after: map<nat, Byte>)
    requires Shaped(sites, memory, d)
    ensures after.Keys == memory.Keys
  {
    (map a | a in memory ::
       if NewlyBranched(sites, d, a) then d.branch[InstructionOf(a)][a % 4] else memory[a]) + d.writes
  }

  function ClaimedSites(sites: map<nat, ReturnSite>, memory: map<nat, Byte>, d: Install): map<nat, ReturnSite>
    requires Shaped(sites, memory, d)
  {
    map at | at in sites.Keys + d.claimed ::
      if at !in sites then ReturnSite(d.payload.value, Snapshot(memory, at, 4), d.branch[at], 1)
      else if at in d.claimed then sites[at].(consumers := sites[at].consumers + 1)
      else sites[at]
  }

  /** The record the install leaves. Snapshots are taken from what really stands in memory. */
  function NewHook(sites: map<nat, ReturnSite>, actual: map<nat, Byte>, d: Install, outcome: Outcome): Hook
    requires Shaped(sites, actual, d)
  {
    Hook(d.entry, if outcome.Captures? then Installed else outcome.state,
         if d.size == 0 then None
         else Some(CodePatch(d.entry, Snapshot(actual, d.entry, d.size), PatchedBytes(sites, actual, d, outcome))),
         d.payload, d.claimed, outcome.Captures?, outcome.Captures? || outcome.holds,
         map a | a in d.writes :: actual[a])
  }

  /** The bytes after the install, or the zeros the record was prepared with. */
  function PatchedBytes(sites: map<nat, ReturnSite>, actual: map<nat, Byte>, d: Install, outcome: Outcome): (bytes: seq<Byte>)
    requires Shaped(sites, actual, d)
    ensures |bytes| == d.size
  {
    if outcome.Captures? then Snapshot(AfterInstall(sites, actual, d), d.entry, d.size) else seq(d.size, _ => 0)
  }

  /** What the record of an install says: the entry before and after it, or zeros after a failed one; no entry of size 0. */
  lemma RecordSays(sites: map<nat, ReturnSite>, actual: map<nat, Byte>, d: Install, outcome: Outcome)
    requires Shaped(sites, actual, d)
    ensures var h := NewHook(sites, actual, d, outcome);
            && h.target == d.entry && h.payload == d.payload && h.sites == d.claimed && (h.patch.None? <==> d.size == 0)
            && (outcome.Captures? ==> h.state == Installed && h.captured && h.installed)
            && (outcome.Fails? ==> h.state == outcome.state && !h.captured && h.installed == outcome.holds)
            && h.saved.Keys == d.writes.Keys && (forall a :: a in h.saved ==> h.saved[a] == actual[a])
            && (h.patch.Some? ==>
                  && h.patch.value.address == d.entry && |h.patch.value.original| == |h.patch.value.patched| == d.size
                  && forall k :: 0 <= k < d.size ==>
                       && h.patch.value.original[k] == actual[d.entry + k]
                       && h.patch.value.patched[k]
                          == if outcome.Captures? then AfterInstall(sites, actual, d)[d.entry + k] else 0)
  {
  }

  /** `actual` memory differs from the managed one only where some patch stands or would be taken off. */
  ghost predicate Overlaid(hooks: seq<Hook>, sites: map<nat, ReturnSite>, memory: map<nat, Byte>, actual: map<nat, Byte>) {
    && actual.Keys == memory.Keys
    && forall a {:trigger Free(hooks, sites, a)} :: a in memory && Free(hooks, sites, a) ==> actual[a] == memory[a]
  }

  /** Bytes written outside the record are not managed: they join the base image. */
  function Unrecorded(d: Install): map<nat, Byte> {
    map a | a in d.writes && !(d.entry <= a < d.entry + d.size) :: d.writes[a]
  }

  lemma {:induction false} ConsumersAppend(hooks: seq<Hook>, h: Hook, at: nat)
    ensures Consumers(hooks + [h], at) == Consumers(hooks, at) + (if at in h.sites then 1 else 0)
  {
    assert (hooks + [h])[..|hooks|] == hooks;
  }

  lemma {:induction false} NoConsumers(hooks: seq<Hook>, at: nat)
    requires forall i :: 0 <= i < |hooks| ==> at !in hooks[i].sites
    ensures Consumers(hooks, at) == 0
  {
    if hooks != [] {
      NoConsumers(hooks[..|hooks| - 1], at);
    }
  }

  /** Installing keeps the image sound, whatever earlier patches and foreign bytes its snapshots caught, and whether
      or not it was captured. */
  lemma InstallSound(hooks: seq<Hook>, sites: map<nat, ReturnSite>, memory: map<nat, Byte>, actual: map<nat, Byte>,
      base: map<nat, Byte>, d: Install, outcome: Outcome)
    requires Sound(hooks, sites, memory, base) && Admissible(hooks, sites, memory, d) && Leaves(d, outcome)
    requires Overlaid(hooks, sites, memory, actual)
    ensures Sound(hooks + [NewHook(sites, actual, d, outcome)], ClaimedSites(sites, actual, d),
                  AfterInstall(sites, memory, d), base + Unrecorded(d))
  {
    var after, h := AfterInstall(sites, memory, d), NewHook(sites, actual, d, outcome);
    var sites', base' := ClaimedSites(sites, actual, d), base + Unrecorded(d);
    forall i | 0 <= i < |hooks|
      ensures HookSound(hooks[i], sites', after, base') && Apart(hooks[i], h) && Apart(h, hooks[i])
    {
      OldHookSound(hooks, sites, memory, actual, base, d, outcome, i);
      NewHookApart(hooks, sites, memory, actual, base, d, outcome, i);
    }
    NewHookSound(hooks, sites, memory, actual, base, d, outcome);
    forall at | at in sites'
      ensures SiteSound(hooks + [h], sites'[at], at, after, base')
    {
      ClaimedSiteSound(hooks, sites, memory, actual, base, d, outcome, at);
    }
    forall a | a in after && Unpatched(hooks + [h], sites', a)
      ensures after[a] == base'[a]
    {
      StillUnpatched(hooks, sites, memory, actual, base, d, outcome, a);
    }
  }

  lemma InstallOverlaid(hooks: seq<Hook>, sites: map<nat, ReturnSite>, memory: map<nat, Byte>, actual: map<nat, Byte>,
      base: map<nat, Byte>, d: Install, outcome: Outcome)
    requires Sound(hooks, sites, memory, base) && Admissible(hooks, sites, memory, d) && Leaves(d, outcome)
    requires Overlaid(hooks, sites, memory, actual)
    ensures Overlaid(hooks + [NewHook(sites, actual, d, outcome)], ClaimedSites(sites, actual, d),
                     AfterInstall(sites, memory, d), AfterInstall(sites, actual, d))
  {
    forall a | a in memory && Free(hooks + [NewHook(sites, actual, d, outcome)], ClaimedSites(sites, actual, d), a)
      ensures AfterInstall(sites, actual, d)[a] == AfterInstall(sites, memory, d)[a]
    {
      StillOverlaid(hooks, sites, memory, actual, base, d, outcome, a);
    }
  }

  lemma StillUnpatched(hooks: seq<Hook>, sites: map<nat, ReturnSite>, memory: map<nat, Byte>, actual: map<nat, Byte>,
      base: map<nat, Byte>, d: Install, outcome: Outcome, a: nat)
    requires Sound(hooks, sites, memory, base) && Admissible(hooks, sites, memory, d) && Leaves(d, outcome)
    requires Overlaid(hooks, sites, memory, actual)
    requires a in memory && Unpatched(hooks + [NewHook(sites, actual, d, outcome)], ClaimedSites(sites, actual, d), a)
    ensures AfterInstall(sites, memory, d)[a] == (base + Unrecorded(d))[a]
  {
    UnpatchedBefore(hooks, sites, actual, d, outcome, a);
    assert memory[a] == base[a];
  }

  /** Where nobody's patch stands after the install, none stood before, and the install has left the byte alone. */
  lemma UnpatchedBefore(hooks: seq<Hook>, sites: map<nat, ReturnSite>, actual: map<nat, Byte>, d: Install,
                        outcome: Outcome, a: nat)
    requires Shaped(sites, actual, d) && Leaves(d, outcome)
    requires Unpatched(hooks + [NewHook(sites, actual, d, outcome)], ClaimedSites(sites, actual, d), a)
    ensures Unpatched(hooks, sites, a) && a !in d.writes && !NewlyBranched(sites, d, a)
  {
    var h := NewHook(sites, actual, d, outcome);
    assert !BackendOwns((hooks + [h])[|hooks|], a);
    assert forall i :: 0 <= i < |hooks| ==> (hooks + [h])[i] == hooks[i];
  }

  lemma StillOverlaid(hooks: seq<Hook>, sites: map<nat, ReturnSite>, memory: map<nat, Byte>, actual: map<nat, Byte>,
      base: map<nat, Byte>, d: Install, outcome: Outcome, a: nat)
    requires Sound(hooks, sites, memory, base) && Admissible(hooks, sites, memory, d) && Leaves(d, outcome)
    requires Overlaid(hooks, sites, memory, actual)
    requires a in memory && Free(hooks + [NewHook(sites, actual, d, outcome)], ClaimedSites(sites, actual, d), a)
    ensures AfterInstall(sites, actual, d)[a] == AfterInstall(sites, memory, d)[a]
  {
    var h := NewHook(sites, actual, d, outcome);
    ChangedBytes(hooks, sites, memory, actual, base, d, a);
    assert forall i :: 0 <= i < |hooks| ==> (hooks + [h])[i] == hooks[i];
    assert Free(hooks, sites, a);
  }

  /** A byte that is still free was free before and has not been written. */
  lemma FreeUnchanged(hooks: seq<Hook>, sites: map<nat, ReturnSite>, memory: map<nat, Byte>, actual: map<nat, Byte>,
      base: map<nat, Byte>, d: Install, outcome: Outcome, a: nat)
    requires Sound(hooks, sites, memory, base) && Admissible(hooks, sites, memory, d) && Leaves(d, outcome)
    requires Overlaid(hooks, sites, memory, actual)
    requires a in memory && Free(hooks + [NewHook(sites, actual, d, outcome)], ClaimedSites(sites, actual, d), a)
    ensures Free(hooks, sites, a) && AfterInstall(sites, actual, d)[a] == actual[a]
  {
    var h := NewHook(sites, actual, d, outcome);
    ChangedBytes(hooks, sites, memory, actual, base, d, a);
    assert forall i :: 0 <= i < |hooks| ==> (hooks + [h])[i] == hooks[i];
    assert !BackendOwns((hooks + [h])[|hooks|], a);
  }

  /** Only free bytes change, and each of them held its base value, with nothing foreign on it. */
  lemma ChangedBytes(hooks: seq<Hook>, sites: map<nat, ReturnSite>, memory: map<nat, Byte>, actual: map<nat, Byte>,
                     base: map<nat, Byte>, d: Install, a: nat)
    requires Sound(hooks, sites, memory, base) && Admissible(hooks, sites, memory, d) && a in base
    requires Overlaid(hooks, sites, memory, actual)
    ensures var after, actual' := AfterInstall(sites, memory, d), AfterInstall(sites, actual, d);
            && (a in d.writes || NewlyBranched(sites, d, a) ==>
                  Free(hooks, sites, a) && memory[a] == base[a] == actual[a] && after[a] == actual'[a])
            && (a !in d.writes && !NewlyBranched(sites, d, a) ==> after[a] == memory[a] && actual'[a] == actual[a])
            && (a in d.writes ==> after[a] == d.writes[a] && InstructionOf(a) !in d.claimed)
            && (NewlyBranched(sites, d, a) ==>
                  after[a] == d.branch[InstructionOf(a)][a % 4] && d.entry <= a < d.entry + d.size)
  {
    if NewlyBranched(sites, d, a) {
      var at: nat := InstructionOf(a);
      assert Claimable(hooks, sites, d, at) && at <= a < at + 4;
      assert Free(hooks, sites, a) && Unpatched(hooks, sites, a);
    } else if a in d.writes {
      assert Free(hooks, sites, a) && Unpatched(hooks, sites, a);
    }
  }

  lemma OldHookSound(hooks: seq<Hook>, sites: map<nat, ReturnSite>, memory: map<nat, Byte>, actual: map<nat, Byte>,
      base: map<nat, Byte>, d: Install, outcome: Outcome, i: nat)
    requires Sound(hooks, sites, memory, base) && Admissible(hooks, sites, memory, d) && Leaves(d, outcome)
    requires Overlaid(hooks, sites, memory, actual)
    requires i < |hooks|
    ensures HookSound(hooks[i], ClaimedSites(sites, actual, d), AfterInstall(sites, memory, d), base + Unrecorded(d))
  {
    var h, after, sites', base' :=
      hooks[i], AfterInstall(sites, memory, d), ClaimedSites(sites, actual, d), base + Unrecorded(d);
    assert HookSound(h, sites, memory, base);
    forall a | BackendOwns(h, a)
      ensures !SiteOwns(sites', a) && BackendByteSound(h, a, after, base')
    {
      assert BackendByteSound(h, a, memory, base);
      ChangedBytes(hooks, sites, memory, actual, base, d, a);
      NotClaimed(hooks, sites, memory, base, d, i, a);
    }
    forall a | a in base'
      ensures Honest(h, a, base'[a])
    {
      ChangedBytes(hooks, sites, memory, actual, base, d, a);
      assert Honest(h, a, base[a]);
    }
  }

  /** A byte another backend owns is neither written nor claimed. */
  lemma NotClaimed(hooks: seq<Hook>, sites: map<nat, ReturnSite>, memory: map<nat, Byte>, base: map<nat, Byte>,
                   d: Install, i: nat, a: nat)
    requires Sound(hooks, sites, memory, base) && Admissible(hooks, sites, memory, d)
    requires i < |hooks| && BackendOwns(hooks[i], a)
    ensures a in base && a !in d.writes && InstructionOf(a) !in d.claimed && !SiteOwns(sites, a)
  {
    assert HookSound(hooks[i], sites, memory, base);
    assert BackendByteSound(hooks[i], a, memory, base);
    assert !Free(hooks, sites, a);
    assert InstructionOf(a) in d.claimed ==> Claimable(hooks, sites, d, InstructionOf(a));
  }

  /** The new record at `a`: what was there before and, when captured, what is there after. */
  lemma NewRecord(sites: map<nat, ReturnSite>, actual: map<nat, Byte>, d: Install, outcome: Outcome, a: nat)
    requires Shaped(sites, actual, d)
    ensures var h := NewHook(sites, actual, d, outcome);
            && (h.patch.Some? && Covers(h.patch.value, a) <==> d.entry <= a < d.entry + d.size)
            && (d.entry <= a < d.entry + d.size ==>
                  && a in actual && OriginalAt(h.patch.value, a) == actual[a]
                  && PatchedAt(h.patch.value, a) == if outcome.Captures? then AfterInstall(sites, actual, d)[a] else 0)
  {
  }

  lemma NewHookSound(hooks: seq<Hook>, sites: map<nat, ReturnSite>, memory: map<nat, Byte>, actual: map<nat, Byte>,
      base: map<nat, Byte>, d: Install, outcome: Outcome)
    requires Sound(hooks, sites, memory, base) && Admissible(hooks, sites, memory, d) && Leaves(d, outcome)
    requires Overlaid(hooks, sites, memory, actual)
    ensures HookSound(NewHook(sites, actual, d, outcome), ClaimedSites(sites, actual, d), AfterInstall(sites, memory, d),
                      base + Unrecorded(d))
  {
    var h, after, sites', base' :=
      NewHook(sites, actual, d, outcome), AfterInstall(sites, memory, d), ClaimedSites(sites, actual, d), base + Unrecorded(d);
    forall a | a in h.sites
      ensures a in sites' && h.payload == Some(sites'[a].payload)
    {
      assert Claimable(hooks, sites, d, a);
    }
    forall a | BackendOwns(h, a)
      ensures !SiteOwns(sites', a) && BackendByteSound(h, a, after, base')
    {
      NewBackendByte(hooks, sites, memory, actual, base, d, outcome, a);
    }
    forall a | a in base'
      ensures Honest(h, a, base'[a])
    {
      NewHookHonest(hooks, sites, memory, actual, base, d, outcome, a);
    }
  }

  lemma NewBackendByte(hooks: seq<Hook>, sites: map<nat, ReturnSite>, memory: map<nat, Byte>, actual: map<nat, Byte>,
      base: map<nat, Byte>, d: Install, outcome: Outcome, a: nat)
    requires Sound(hooks, sites, memory, base) && Admissible(hooks, sites, memory, d) && Leaves(d, outcome)
    requires Overlaid(hooks, sites, memory, actual) && BackendOwns(NewHook(sites, actual, d, outcome), a)
    ensures !SiteOwns(ClaimedSites(sites, actual, d), a)
    ensures BackendByteSound(NewHook(sites, actual, d, outcome), a, AfterInstall(sites, memory, d), base + Unrecorded(d))
  {
    ChangedBytes(hooks, sites, memory, actual, base, d, a);
    NewRecord(sites, actual, d, outcome, a);
  }

  lemma NewHookHonest(hooks: seq<Hook>, sites: map<nat, ReturnSite>, memory: map<nat, Byte>, actual: map<nat, Byte>,
      base: map<nat, Byte>, d: Install, outcome: Outcome, a: nat)
    requires Sound(hooks, sites, memory, base) && Admissible(hooks, sites, memory, d) && Leaves(d, outcome)
    requires Overlaid(hooks, sites, memory, actual) && a in base
    ensures Honest(NewHook(sites, actual, d, outcome), a, (base + Unrecorded(d))[a])
  {
    ChangedBytes(hooks, sites, memory, actual, base, d, a);
    NewRecord(sites, actual, d, outcome, a);
  }

  /** The new record rewrites only what was free. */
  lemma NewHookNeutral(hooks: seq<Hook>, sites: map<nat, ReturnSite>, memory: map<nat, Byte>, actual: map<nat, Byte>,
      base: map<nat, Byte>, d: Install, outcome: Outcome, a: nat)
    requires Sound(hooks, sites, memory, base) && Admissible(hooks, sites, memory, d) && Leaves(d, outcome)
    requires Overlaid(hooks, sites, memory, actual)
    ensures Neutral(NewHook(sites, actual, d, outcome), a) || Free(hooks, sites, a)
  {
    NewRecord(sites, actual, d, outcome, a);
    if d.entry <= a < d.entry + d.size {
      ChangedBytes(hooks, sites, memory, actual, base, d, a);
    }
  }

  lemma NewHookApart(hooks: seq<Hook>, sites: map<nat, ReturnSite>, memory: map<nat, Byte>, actual: map<nat, Byte>,
      base: map<nat, Byte>, d: Install, outcome: Outcome, i: nat)
    requires Sound(hooks, sites, memory, base) && Admissible(hooks, sites, memory, d) && Leaves(d, outcome)
    requires Overlaid(hooks, sites, memory, actual)
    requires i < |hooks|
    ensures Apart(hooks[i], NewHook(sites, actual, d, outcome)) && Apart(NewHook(sites, actual, d, outcome), hooks[i])
  {
    var h := NewHook(sites, actual, d, outcome);
    forall a
      ensures Neutral(hooks[i], a) || Neutral(h, a)
      ensures BackendOwns(hooks[i], a) ==> Neutral(h, a) && !BackendOwns(h, a)
      ensures BackendOwns(h, a) ==> Neutral(hooks[i], a) && !BackendOwns(hooks[i], a)
    {
      NewHookNeutral(hooks, sites, memory, actual, base, d, outcome, a);
      assert a in d.writes ==> Free(hooks, sites, a);
      assert Free(hooks, sites, a) ==> Neutral(hooks[i], a) && !BackendOwns(hooks[i], a);
    }
  }

  lemma ClaimedSiteSound(hooks: seq<Hook>, sites: map<nat, ReturnSite>, memory: map<nat, Byte>, actual: map<nat, Byte>,
      base: map<nat, Byte>, d: Install, outcome: Outcome, at: nat)
    requires Sound(hooks, sites, memory, base) && Admissible(hooks, sites, memory, d) && Leaves(d, outcome)
    requires Overlaid(hooks, sites, memory, actual)
    requires at in sites.Keys + d.claimed
    ensures SiteSound(hooks + [NewHook(sites, actual, d, outcome)], ClaimedSites(sites, actual, d)[at], at,
                      AfterInstall(sites, memory, d), base + Unrecorded(d))
  {
    ConsumersAppend(hooks, NewHook(sites, actual, d, outcome), at);
    if at in sites {
      assert SiteSound(hooks, sites[at], at, memory, base);
    } else {
      assert Claimable(hooks, sites, d, at);
      UnclaimedSite(hooks, sites, memory, base, at);
    }
    var s := ClaimedSites(sites, actual, d)[at];
    forall a | at <= a < at + 4
      ensures |s.original| == |s.patched| == 4
      ensures SiteByteSound(s, at, a, AfterInstall(sites, memory, d), base + Unrecorded(d))
    {
      ClaimedSiteByte(hooks, sites, memory, actual, base, d, at, a);
    }
    assert |s.original| == |s.patched| == 4 by {
      ClaimedSiteByte(hooks, sites, memory, actual, base, d, at, at);
    }
  }

  /** No hook consumes a site that does not exist. */
  lemma UnclaimedSite(hooks: seq<Hook>, sites: map<nat, ReturnSite>, memory: map<nat, Byte>, base: map<nat, Byte>, at: nat)
    requires Sound(hooks, sites, memory, base) && at !in sites
    ensures Consumers(hooks, at) == 0
  {
    forall i | 0 <= i < |hooks|
      ensures at !in hooks[i].sites
    {
      assert HookSound(hooks[i], sites, memory, base);
    }
    NoConsumers(hooks, at);
  }

  lemma ClaimedSiteByte(hooks: seq<Hook>, sites: map<nat, ReturnSite>, memory: map<nat, Byte>, actual: map<nat, Byte>,
                        base: map<nat, Byte>, d: Install, at: nat, a: nat)
    requires Sound(hooks, sites, memory, base) && Admissible(hooks, sites, memory, d)
    requires Overlaid(hooks, sites, memory, actual)
    requires at in sites.Keys + d.claimed && at % 4 == 0 && at <= a < at + 4
    ensures var s := ClaimedSites(sites, actual, d)[at];
            && |s.original| == |s.patched| == 4
            && SiteByteSound(s, at, a, AfterInstall(sites, memory, d), base + Unrecorded(d))
  {
    SiteByteBefore(hooks, sites, memory, actual, base, d, at, a);
    if at in sites {
      OldSiteByte(sites, memory, actual, d, at, a);
    } else {
      NewSiteByte(sites, memory, actual, d, at, a);
    }
  }

  lemma SiteByteBefore(hooks: seq<Hook>, sites: map<nat, ReturnSite>, memory: map<nat, Byte>, actual: map<nat, Byte>,
                       base: map<nat, Byte>, d: Install, at: nat, a: nat)
    requires Sound(hooks, sites, memory, base) && Admissible(hooks, sites, memory, d)
    requires Overlaid(hooks, sites, memory, actual)
    requires at in sites.Keys + d.claimed && at % 4 == 0 && at <= a < at + 4
    ensures a in memory && a in base && a !in d.writes
    ensures at in sites ==>
              && |sites[at].original| == |sites[at].patched| == 4
              && SiteByteSound(sites[at], at, a, memory, base)
    ensures at !in sites ==> actual[a] == base[a]
  {
    SiteAddress(at, a);
    if at in sites {
      assert SiteSound(hooks, sites[at], at, memory, base);
      assert SiteByteSound(sites[at], at, a, memory, base);
      assert !Free(hooks, sites, a);
    } else {
      assert Claimable(hooks, sites, d, at);
      assert Free(hooks, sites, a);
    }
  }

  lemma OldSiteByte(sites: map<nat, ReturnSite>, memory: map<nat, Byte>, actual: map<nat, Byte>, d: Install, at: nat, a: nat)
    requires Shaped(sites, memory, d) && actual.Keys == memory.Keys && at in sites && at % 4 == 0 && at <= a < at + 4
    requires a in memory && a !in d.writes
    ensures AfterInstall(sites, memory, d)[a] == memory[a]
    ensures ClaimedSites(sites, actual, d)[at].(consumers := 0) == sites[at].(consumers := 0)
  {
    SiteAddress(at, a);
    assert !NewlyBranched(sites, d, a);
  }

  lemma NewSiteByte(sites: map<nat, ReturnSite>, memory: map<nat, Byte>, actual: map<nat, Byte>, d: Install, at: nat, a: nat)
    requires Shaped(sites, memory, d) && actual.Keys == memory.Keys
    requires at in d.claimed && at !in sites && at % 4 == 0 && at <= a < at + 4
    requires a in memory && a !in d.writes
    ensures AfterInstall(sites, memory, d)[a] == d.branch[at][a - at]
    ensures ClaimedSites(sites, actual, d)[at] == ReturnSite(d.payload.value, Snapshot(actual, at, 4), d.branch[at], 1)
  {
    SiteAddress(at, a);
    assert NewlyBranched(sites, d, a);
  }

  // ---- Unhooking ----

  lemma {:induction false} ConsumersUpdate(hooks: seq<Hook>, i: nat, h: Hook, at: nat)
    requires i < |hooks|
    ensures Consumers(hooks[i := h], at)
         == Consumers(hooks, at) - (if at in hooks[i].sites then 1 else 0) + (if at in h.sites then 1 else 0)
  {
    var n := |hooks| - 1;
    if i == n {
      assert hooks[i := h][..n] == hooks[..n];
    } else {
      assert hooks[i := h][..n] == hooks[..n][i := h];
      ConsumersUpdate(hooks[..n], i, h, at);
    }
  }

  /** It holds and rewrites no byte that `h` did not. */
  ghost predicate Less(less: Hook, h: Hook) {
    && (forall a :: BackendOwns(less, a) ==> BackendOwns(h, a))
    && (forall a :: Neutral(h, a) ==> Neutral(less, a))
  }

  lemma StillApart(h: Hook, other: Hook, less: Hook, otherLess: Hook)
    requires Apart(h, other) && Less(less, h) && Less(otherLess, other)
    ensures Apart(less, otherLess)
  {
    forall a | BackendOwns(less, a)
      ensures Neutral(otherLess, a) && !BackendOwns(otherLess, a)
    {
      assert BackendOwns(h, a);
    }
  }

  /** A live record may change its state freely, but becomes unhooked only when it owns nothing any more. */
  lemma RelabelSound(hooks: seq<Hook>, sites: map<nat, ReturnSite>, memory: map<nat, Byte>, base: map<nat, Byte>,
                     i: nat, state: HookState)
    requires Sound(hooks, sites, memory, base) && i < |hooks| && Live(hooks[i])
    requires state == Unhooked ==> !hooks[i].installed && hooks[i].sites == {}
    ensures Sound(hooks[i := hooks[i].(state := state)], sites, memory, base)
  {
    var hooks' := hooks[i := hooks[i].(state := state)];
    forall j | 0 <= j < |hooks|
      ensures HookSound(hooks'[j], sites, memory, base)
    {
      assert HookSound(hooks[j], sites, memory, base);
      forall a | a in base
        ensures Honest(hooks'[j], a, base[a])
      {
        assert Honest(hooks[j], a, base[a]);
      }
      forall a | BackendOwns(hooks'[j], a)
        ensures !SiteOwns(sites, a) && BackendByteSound(hooks'[j], a, memory, base)
      {
        assert BackendOwns(hooks[j], a) && BackendByteSound(hooks[j], a, memory, base);
        assert Records(hooks'[j], a) == Records(hooks[j], a);
      }
    }
    forall j, k | 0 <= j < |hooks| && 0 <= k < |hooks| && j != k
      ensures Apart(hooks'[j], hooks'[k])
    {
      StillApart(hooks[j], hooks[k], hooks'[j], hooks'[k]);
    }
    forall at | at in sites
      ensures SiteSound(hooks', sites[at], at, memory, base)
    {
      assert SiteSound(hooks, sites[at], at, memory, base);
      ConsumersUpdate(hooks, i, hooks'[i], at);
    }
    forall a | a in memory && Unpatched(hooks', sites, a)
      ensures memory[a] == base[a]
    {
      assert forall j :: 0 <= j < |hooks| && BackendOwns(hooks[j], a) ==> BackendOwns(hooks'[j], a);
      assert Unpatched(hooks, sites, a);
    }
  }

  /** What the backend puts back outside the record joins the base image. */
  function Unmanaged(h: Hook): map<nat, Byte> {
    map a | a in h.saved && !Records(h, a) :: h.saved[a]
  }

  /** The backend puts its saved bytes back. */
  lemma BackendRestoredSound(hooks: seq<Hook>, sites: map<nat, ReturnSite>, memory: map<nat, Byte>,
                             base: map<nat, Byte>, i: nat)
    requires Sound(hooks, sites, memory, base) && i < |hooks| && hooks[i].installed
    ensures Sound(hooks[i := hooks[i].(installed := false)], sites, memory + hooks[i].saved, base + Unmanaged(hooks[i]))
  {
    var h := hooks[i];
    var hooks', memory', base' := hooks[i := h.(installed := false)], memory + h.saved, base + Unmanaged(h);
    assert HookSound(h, sites, memory, base);
    assert forall a :: a in h.saved ==> BackendOwns(h, a) && BackendByteSound(h, a, memory, base);
    assert memory'.Keys == memory.Keys && base'.Keys == base.Keys;
    forall j | 0 <= j < |hooks|
      ensures HookSound(hooks'[j], sites, memory', base')
    {
      RestoredHookSound(hooks, sites, memory, base, i, j);
    }
    forall j, k | 0 <= j < |hooks| && 0 <= k < |hooks| && j != k
      ensures Apart(hooks'[j], hooks'[k])
    {
      StillApart(hooks[j], hooks[k], hooks'[j], hooks'[k]);
    }
    forall at | at in sites
      ensures SiteSound(hooks', sites[at], at, memory', base')
    {
      RestoredSiteSound(hooks, sites, memory, base, i, at);
    }
    forall a | a in memory' && Unpatched(hooks', sites, a)
      ensures memory'[a] == base'[a]
    {
      RestoredByte(hooks, sites, memory, base, i, a);
    }
  }

  lemma RestoredSiteSound(hooks: seq<Hook>, sites: map<nat, ReturnSite>, memory: map<nat, Byte>, base: map<nat, Byte>,
                          i: nat, at: nat)
    requires Sound(hooks, sites, memory, base) && i < |hooks| && hooks[i].installed && at in sites
    ensures SiteSound(hooks[i := hooks[i].(installed := false)], sites[at], at, memory + hooks[i].saved,
                      base + Unmanaged(hooks[i]))
  {
    var h := hooks[i];
    assert SiteSound(hooks, sites[at], at, memory, base) && HookSound(h, sites, memory, base);
    ConsumersUpdate(hooks, i, h.(installed := false), at);
    forall a | at <= a < at + 4
      ensures SiteByteSound(sites[at], at, a, memory + h.saved, base + Unmanaged(h))
    {
      SiteAddress(at, a);
      assert SiteByteSound(sites[at], at, a, memory, base);
      assert !BackendOwns(h, a);
    }
  }

  lemma RestoredByte(hooks: seq<Hook>, sites: map<nat, ReturnSite>, memory: map<nat, Byte>, base: map<nat, Byte>,
                     i: nat, a: nat)
    requires Sound(hooks, sites, memory, base) && i < |hooks| && hooks[i].installed && a in memory
    requires Unpatched(hooks[i := hooks[i].(installed := false)], sites, a)
    ensures (memory + hooks[i].saved)[a] == (base + Unmanaged(hooks[i]))[a]
  {
    var h := hooks[i];
    var hooks' := hooks[i := h.(installed := false)];
    if a in h.saved {
      assert HookSound(h, sites, memory, base) && BackendOwns(h, a) && BackendByteSound(h, a, memory, base);
    } else {
      assert forall j :: 0 <= j < |hooks| && BackendOwns(hooks[j], a) ==> BackendOwns(hooks'[j], a);
      assert Unpatched(hooks, sites, a);
    }
  }

  lemma RestoredHookSound(hooks: seq<Hook>, sites: map<nat, ReturnSite>, memory: map<nat, Byte>,
                          base: map<nat, Byte>, i: nat, j: nat)
    requires Sound(hooks, sites, memory, base) && i < |hooks| && j < |hooks| && hooks[i].installed
    ensures HookSound(hooks[i := hooks[i].(installed := false)][j], sites, memory + hooks[i].saved,
                      base + Unmanaged(hooks[i]))
  {
    var h, other := hooks[i], hooks[i := hooks[i].(installed := false)][j];
    var memory', base' := memory + h.saved, base + Unmanaged(h);
    assert HookSound(h, sites, memory, base) && HookSound(hooks[j], sites, memory, base);
    forall a | BackendOwns(other, a)
      ensures !SiteOwns(sites, a) && BackendByteSound(other, a, memory', base')
    {
      assert other == hooks[j] && Apart(other, h) && BackendByteSound(other, a, memory, base);
    }
    forall a | a in base'
      ensures Honest(other, a, base'[a])
    {
      assert a in h.saved ==> BackendOwns(h, a) && BackendByteSound(h, a, memory, base);
      assert a in base && Honest(hooks[j], a, base[a]);
      assert j != i && a in h.saved ==> Apart(h, hooks[j]);
    }
  }

  predicate LastConsumer(sites: map<nat, ReturnSite>, released: set<nat>, at: nat) {
    at in released && at in sites && sites[at].consumers == 1
  }

  /** `RestoreArm64ReturnInterception`: one consumer fewer at each of the hook's sites, none kept at zero. */
  function ReleasedSites(sites: map<nat, ReturnSite>, released: set<nat>): map<nat, ReturnSite> {
    map at | at in sites && !LastConsumer(sites, released, at) ::
      if at in released && sites[at].consumers > 0 then sites[at].(consumers := sites[at].consumers - 1) else sites[at]
  }

  /** The last consumer puts the original instruction back. */
  function AfterRelease(sites: map<nat, ReturnSite>, memory: map<nat, Byte>, released: set<nat>): (after: map<nat, Byte>)
    ensures after.Keys == memory.Keys
  {
    map a | a in memory ::
      if LastConsumer(sites, released, InstructionOf(a)) && |sites[InstructionOf(a)].original| == 4 then sites[InstructionOf(a)].original[a % 4] else memory[a]
  }

  lemma SharedSiteKept(hooks: seq<Hook>, i: nat, j: nat, at: nat)
    requires i < |hooks| && j < |hooks| && i != j && at in hooks[i].sites && at in hooks[j].sites
    ensures Consumers(hooks, at) >= 2
  {
    ConsumersUpdate(hooks, i, hooks[i].(sites := {}), at);
    var fewer := hooks[i := hooks[i].(sites := {})];
    ConsumersUpdate(fewer, j, hooks[j].(sites := {}), at);
  }

  lemma SitesReleasedSound(hooks: seq<Hook>, sites: map<nat, ReturnSite>, memory: map<nat, Byte>,
                           base: map<nat, Byte>, i: nat)
    requires Sound(hooks, sites, memory, base) && i < |hooks|
    ensures Sound(hooks[i := hooks[i].(sites := {})], ReleasedSites(sites, hooks[i].sites),
                  AfterRelease(sites, memory, hooks[i].sites), base)
  {
    var h := hooks[i];
    var hooks', sites', memory' := hooks[i := h.(sites := {})], ReleasedSites(sites, h.sites), AfterRelease(sites, memory, h.sites);
    forall j | 0 <= j < |hooks|
      ensures HookSound(hooks'[j], sites', memory', base)
    {
      ReleasedHookSound(hooks, sites, memory, base, i, j);
    }
    forall j, k | 0 <= j < |hooks| && 0 <= k < |hooks| && j != k
      ensures Apart(hooks'[j], hooks'[k])
    {
      StillApart(hooks[j], hooks[k], hooks'[j], hooks'[k]);
    }
    forall at | at in sites'
      ensures SiteSound(hooks', sites'[at], at, memory', base)
    {
      KeptSiteSound(hooks, sites, memory, base, i, at);
    }
    forall a | a in memory' && Unpatched(hooks', sites', a)
      ensures memory'[a] == base[a]
    {
      ReleasedByte(hooks, sites, memory, base, i, a);
    }
  }

  lemma KeptSiteSound(hooks: seq<Hook>, sites: map<nat, ReturnSite>, memory: map<nat, Byte>,
                      base: map<nat, Byte>, i: nat, at: nat)
    requires Sound(hooks, sites, memory, base) && i < |hooks| && at in ReleasedSites(sites, hooks[i].sites)
    ensures SiteSound(hooks[i := hooks[i].(sites := {})], ReleasedSites(sites, hooks[i].sites)[at], at,
                      AfterRelease(sites, memory, hooks[i].sites), base)
  {
    assert SiteSound(hooks, sites[at], at, memory, base);
    ConsumersUpdate(hooks, i, hooks[i].(sites := {}), at);
    forall a | at <= a < at + 4
      ensures SiteByteSound(ReleasedSites(sites, hooks[i].sites)[at], at, a, AfterRelease(sites, memory, hooks[i].sites), base)
    {
      SiteAddress(at, a);
      assert SiteByteSound(sites[at], at, a, memory, base);
    }
  }

  lemma ReleasedHookSound(hooks: seq<Hook>, sites: map<nat, ReturnSite>, memory: map<nat, Byte>,
                          base: map<nat, Byte>, i: nat, j: nat)
    requires Sound(hooks, sites, memory, base) && i < |hooks| && j < |hooks|
    ensures HookSound(hooks[i := hooks[i].(sites := {})][j], ReleasedSites(sites, hooks[i].sites),
                      AfterRelease(sites, memory, hooks[i].sites), base)
  {
    if i == j {
      WithoutSitesSound(hooks[i], sites, memory, base);
      ReleaseKeepsHook(hooks[i].(sites := {}), sites, memory, base, hooks[i].sites);
    } else {
      ConsumedSitesKept(hooks, sites, memory, base, i, j);
      ReleaseKeepsHook(hooks[j], sites, memory, base, hooks[i].sites);
    }
  }

  lemma WithoutSitesSound(h: Hook, sites: map<nat, ReturnSite>, memory: map<nat, Byte>, base: map<nat, Byte>)
    requires HookSound(h, sites, memory, base)
    ensures HookSound(h.(sites := {}), sites, memory, base)
  {
    forall a | BackendOwns(h.(sites := {}), a)
      ensures !SiteOwns(sites, a) && BackendByteSound(h.(sites := {}), a, memory, base)
    {
      assert BackendOwns(h, a) && BackendByteSound(h, a, memory, base);
    }
    forall a | a in base
      ensures Honest(h.(sites := {}), a, base[a])
    {
      assert Honest(h, a, base[a]);
    }
  }

  lemma ReleaseKeepsHook(h: Hook, sites: map<nat, ReturnSite>, memory: map<nat, Byte>, base: map<nat, Byte>,
                         released: set<nat>)
    requires HookSound(h, sites, memory, base)
    requires forall at :: at in h.sites ==>
                            && at in ReleasedSites(sites, released)
                            && h.payload == Some(ReleasedSites(sites, released)[at].payload)
    ensures HookSound(h, ReleasedSites(sites, released), AfterRelease(sites, memory, released), base)
  {
    forall a | BackendOwns(h, a)
      ensures !SiteOwns(ReleasedSites(sites, released), a)
      ensures BackendByteSound(h, a, AfterRelease(sites, memory, released), base)
    {
      assert !SiteOwns(sites, a) && BackendByteSound(h, a, memory, base);
    }
  }

  /** A site another hook consumes outlives the release. */
  lemma ConsumedSitesKept(hooks: seq<Hook>, sites: map<nat, ReturnSite>, memory: map<nat, Byte>,
                          base: map<nat, Byte>, i: nat, j: nat)
    requires Sound(hooks, sites, memory, base) && i < |hooks| && j < |hooks| && i != j
    ensures forall at :: at in hooks[j].sites ==>
                           && at in ReleasedSites(sites, hooks[i].sites)
                           && hooks[j].payload == Some(ReleasedSites(sites, hooks[i].sites)[at].payload)
  {
    assert HookSound(hooks[j], sites, memory, base);
    forall at | at in hooks[j].sites
      ensures !LastConsumer(sites, hooks[i].sites, at)
    {
      assert SiteSound(hooks, sites[at], at, memory, base);
      if at in hooks[i].sites {
        SharedSiteKept(hooks, i, j, at);
      }
    }
  }

  lemma ReleasedByte(hooks: seq<Hook>, sites: map<nat, ReturnSite>, memory: map<nat, Byte>,
                     base: map<nat, Byte>, i: nat, a: nat)
    requires Sound(hooks, sites, memory, base) && i < |hooks| && a in memory
    requires Unpatched(hooks[i := hooks[i].(sites := {})], ReleasedSites(sites, hooks[i].sites), a)
    ensures AfterRelease(sites, memory, hooks[i].sites)[a] == base[a]
  {
    var hooks' := hooks[i := hooks[i].(sites := {})];
    var at: nat := InstructionOf(a);
    if at in sites {
      assert SiteSound(hooks, sites[at], at, memory, base);
      assert a == at + a % 4;
      assert SiteByteSound(sites[at], at, a, memory, base);
    } else {
      assert forall j :: 0 <= j < |hooks| && BackendOwns(hooks[j], a) ==> BackendOwns(hooks'[j], a);
      assert Unpatched(hooks, sites, a);
    }
  }

  /** The image with every free byte taken over from what really stands there: third-party code at free bytes is
      nobody's patch and joins the image. */
  ghost function TakenOver(hooks: seq<Hook>, sites: map<nat, ReturnSite>, image: map<nat, Byte>, actual: map<nat, Byte>):
    (taken: map<nat, Byte>)
    ensures taken.Keys == image.Keys
  {
    map a | a in image :: if a in actual && Free(hooks, sites, a) then actual[a] else image[a]
  }

  lemma TakenOverSound(hooks: seq<Hook>, sites: map<nat, ReturnSite>, memory: map<nat, Byte>, actual: map<nat, Byte>,
                       base: map<nat, Byte>)
    requires Sound(hooks, sites, memory, base) && actual.Keys == memory.Keys
    ensures Sound(hooks, sites, TakenOver(hooks, sites, memory, actual), TakenOver(hooks, sites, base, actual))
    ensures Overlaid(hooks, sites, TakenOver(hooks, sites, memory, actual), actual)
  {
    var memory', base' := TakenOver(hooks, sites, memory, actual), TakenOver(hooks, sites, base, actual);
    forall j | 0 <= j < |hooks|
      ensures HookSound(hooks[j], sites, memory', base')
    {
      TakenOverHook(hooks, sites, memory, actual, base, j);
    }
    forall at | at in sites
      ensures SiteSound(hooks, sites[at], at, memory', base')
    {
      assert SiteSound(hooks, sites[at], at, memory, base);
      forall b | at <= b < at + 4
        ensures SiteByteSound(sites[at], at, b, memory', base')
      {
        SiteAddress(at, b);
        assert SiteByteSound(sites[at], at, b, memory, base) && !Free(hooks, sites, b);
      }
    }
  }

  lemma TakenOverHook(hooks: seq<Hook>, sites: map<nat, ReturnSite>, memory: map<nat, Byte>, actual: map<nat, Byte>,
                      base: map<nat, Byte>, j: nat)
    requires Sound(hooks, sites, memory, base) && actual.Keys == memory.Keys && j < |hooks|
    ensures HookSound(hooks[j], sites, TakenOver(hooks, sites, memory, actual), TakenOver(hooks, sites, base, actual))
  {
    var memory', base' := TakenOver(hooks, sites, memory, actual), TakenOver(hooks, sites, base, actual);
    assert HookSound(hooks[j], sites, memory, base);
    forall b | BackendOwns(hooks[j], b)
      ensures !SiteOwns(sites, b) && BackendByteSound(hooks[j], b, memory', base')
    {
      assert BackendByteSound(hooks[j], b, memory, base) && !Free(hooks, sites, b);
    }
    forall b | b in base'
      ensures Honest(hooks[j], b, base'[b])
    {
      assert Honest(hooks[j], b, base[b]);
      assert Free(hooks, sites, b) ==> Neutral(hooks[j], b);
    }
  }

  /** Once every hook is unhooked, memory is the base image again. */
  lemma AllUnhookedRestored(hooks: seq<Hook>, sites: map<nat, ReturnSite>, memory: map<nat, Byte>, base: map<nat, Byte>)
    requires Sound(hooks, sites, memory, base) && forall i :: 0 <= i < |hooks| ==> !Live(hooks[i])
    ensures sites == map[] && memory == base
  {
    assert forall i :: 0 <= i < |hooks| ==> HookSound(hooks[i], sites, memory, base);
    forall at | at in sites
      ensures false
    {
      assert SiteSound(hooks, sites[at], at, memory, base);
      ConsumerExists(hooks, at);
    }
    assert sites == map[];
    assert forall a :: a in memory ==> Unpatched(hooks, sites, a);
  }

  // ---- Overlapping backends ----

  /** What two backends save when the second is installed over the first, return sites apart. */
  function SavedBy(memory: map<nat, Byte>, writes: map<nat, Byte>): map<nat, Byte>
    requires writes.Keys <= memory.Keys
  {
    map a | a in writes :: memory[a]
  }

  lemma BackendOnly(sites: map<nat, ReturnSite>, memory: map<nat, Byte>, d: Install)
    requires Shaped(sites, memory, d) && d.claimed == {}
    ensures AfterInstall(sites, memory, d) == memory + d.writes
    ensures NewHook(sites, memory, d, Captures).saved == SavedBy(memory, d.writes)
    ensures ClaimedSites(sites, memory, d) == sites
  {
  }

  /** Nothing keeps two backends with different entries from writing the same bytes. Put back newest first, they always
      leave memory as it was; oldest first, exactly when the first had changed none of the bytes they share. */
  lemma OverlapRestored(sites: map<nat, ReturnSite>, memory: map<nat, Byte>, first: Install, second: Install)
    requires Shaped(sites, memory, first) && Shaped(sites, memory, second) && first.claimed == second.claimed == {}
    ensures var between := AfterInstall(sites, memory, first);
            && Shaped(sites, between, second)
            && var older, newer := NewHook(sites, memory, first, Captures), NewHook(sites, between, second, Captures);
               var both := AfterInstall(sites, between, second);
               && both + newer.saved + older.saved == memory
               && (both + older.saved + newer.saved == memory <==>
                     forall a :: a in first.writes && a in second.writes ==> first.writes[a] == memory[a])
  {
    var between := AfterInstall(sites, memory, first);
    BackendOnly(sites, memory, first);
    BackendOnly(sites, between, second);
    RestoredOutOfOrder(memory, first.writes, second.writes);
  }

  lemma RestoredOutOfOrder(memory: map<nat, Byte>, first: map<nat, Byte>, second: map<nat, Byte>)
    requires first.Keys <= memory.Keys && second.Keys <= memory.Keys
    ensures var between := memory + first;
            && between + second + SavedBy(between, second) + SavedBy(memory, first) == memory
            && (between + second + SavedBy(memory, first) + SavedBy(between, second) == memory <==>
                  forall a :: a in first && a in second ==> first[a] == memory[a])
  {
    var end := memory + first + second + SavedBy(memory, first) + SavedBy(memory + first, second);
    assert forall a :: a in memory ==> a in end && end[a] == if a in second && a in first then first[a] else memory[a];
    assert end == memory ==> forall a :: a in first && a in second ==> first[a] == end[a];
    if forall a :: a in first && a in second ==> first[a] == memory[a] {
      assert forall a :: a in memory ==> end[a] == memory[a];
      assert end == memory;
    }
  }

  // ---- An install and its unhook ----

  /** Return sites with a consumer and four original bytes at aligned addresses. */
  predicate Kept(sites: map<nat, ReturnSite>) {
    forall at :: at in sites ==> at % 4 == 0 && |sites[at].original| == 4 && sites[at].consumers > 0
  }

  /** Backend bytes put back and return sites released, an install leaves neither a byte nor a site behind. */
  lemma InstallUndone(sites: map<nat, ReturnSite>, memory: map<nat, Byte>, d: Install)
    requires Shaped(sites, memory, d) && Kept(sites)
    requires forall at :: at in d.claimed ==> at % 4 == 0
    requires forall a :: a in d.writes ==> InstructionOf(a) !in d.claimed
    ensures var h := NewHook(sites, memory, d, Captures);
            && AfterRelease(ClaimedSites(sites, memory, d), AfterInstall(sites, memory, d) + h.saved, h.sites) == memory
            && ReleasedSites(ClaimedSites(sites, memory, d), h.sites) == sites
  {
    var h := NewHook(sites, memory, d, Captures);
    SitesUndone(sites, memory, d);
    BytesUndone(sites, memory, d, AfterInstall(sites, memory, d) + h.saved);
  }

  /** Only a site that the install has made is given up with it. */
  lemma OwnSites(sites: map<nat, ReturnSite>, memory: map<nat, Byte>, d: Install, at: nat)
    requires Shaped(sites, memory, d) && Kept(sites)
    ensures LastConsumer(ClaimedSites(sites, memory, d), d.claimed, at) <==> at in d.claimed && at !in sites
  {
  }

  lemma SitesUndone(sites: map<nat, ReturnSite>, memory: map<nat, Byte>, d: Install)
    requires Shaped(sites, memory, d) && Kept(sites)
    ensures ReleasedSites(ClaimedSites(sites, memory, d), d.claimed) == sites
  {
    var released := ReleasedSites(ClaimedSites(sites, memory, d), d.claimed);
    forall at: nat
      ensures at in released <==> at in sites
      ensures at in sites ==> released[at] == sites[at]
    {
      OwnSites(sites, memory, d, at);
    }
  }

  lemma BytesUndone(sites: map<nat, ReturnSite>, memory: map<nat, Byte>, d: Install, restored: map<nat, Byte>)
    requires Shaped(sites, memory, d) && Kept(sites)
    requires forall at :: at in d.claimed ==> at % 4 == 0
    requires forall a :: a in d.writes ==> InstructionOf(a) !in d.claimed
    requires restored == AfterInstall(sites, memory, d) + NewHook(sites, memory, d, Captures).saved
    ensures AfterRelease(ClaimedSites(sites, memory, d), restored, d.claimed) == memory
  {
    var after := AfterRelease(ClaimedSites(sites, memory, d), restored, d.claimed);
    forall a | a in memory
      ensures a in after && after[a] == memory[a]
    {
      OwnSites(sites, memory, d, InstructionOf(a));
      SavedByte(sites, memory, d, restored, a);
      if NewlyBranched(sites, d, a) {
        OwnOriginal(sites, memory, d, a);
      }
    }
  }

  lemma SavedByte(sites: map<nat, ReturnSite>, memory: map<nat, Byte>, d: Install, restored: map<nat, Byte>, a: nat)
    requires Shaped(sites, memory, d) && a in memory
    requires restored == AfterInstall(sites, memory, d) + NewHook(sites, memory, d, Captures).saved
    ensures restored.Keys == memory.Keys && (!NewlyBranched(sites, d, a) ==> restored[a] == memory[a])
  {
  }

  lemma OwnOriginal(sites: map<nat, ReturnSite>, memory: map<nat, Byte>, d: Install, a: nat)
    requires Shaped(sites, memory, d) && a in memory && NewlyBranched(sites, d, a)
    ensures var s := ClaimedSites(sites, memory, d)[InstructionOf(a)];
            |s.original| == 4 && s.original[a % 4] == memory[a]
  {
    var at: nat := InstructionOf(a);
    assert ClaimedSites(sites, memory, d)[at].original == Snapshot(memory, at, 4) && at + a % 4 == a;
  }
}
