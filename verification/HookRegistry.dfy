/** The registry that owns the managed patches: install, unhook and code normalization
    (src/core/hook_registry.cpp:414-477, 498-504, 534-638, 708-777, 893-962 and 1345-1420,
    src/interceptor/arm64_bridge.cpp:902-1119). */
module HookRegistry {
  import opened Wrappers
  import opened Machine
  import opened ManagedPatches
  import opened PatchSteps

  datatype Status = Ok | AlreadyHooked | HookFailed | UnhookFailed

  // ---- Normalization of a byte range ----

  /** Overlays the patches of every live hook, newest first. */
  method OverlayHooks(start: nat, hooks: seq<Hook>, bytes: array<Byte>)
    requires start + bytes.Length < TWO_64
    modifies bytes
    ensures forall k :: 0 <= k < bytes.Length ==> bytes[k] == PeelHooks(hooks, start + k, old(bytes[k]))
  {
    var i := |hooks|;
    assert hooks[..i] == hooks;
    while i > 0
      invariant 0 <= i <= |hooks|
      invariant forall k :: 0 <= k < bytes.Length ==>
                  PeelHooks(hooks[..i], start + k, bytes[k]) == PeelHooks(hooks, start + k, old(bytes[k]))
    {
      assert hooks[..i][..i - 1] == hooks[..i - 1];
      i := i - 1;
      if Live(hooks[i]) && hooks[i].patch.Some? {
        OverlayOriginalBytes(start, hooks[i].patch.value, bytes);
      }
    }
  }

  predicate AlignedSites(sites: map<nat, ReturnSite>) {
    forall at :: at in sites ==> at % 4 == 0 && |sites[at].original| == |sites[at].patched| == 4
  }

  function PeelSitesOf(sites: map<nat, ReturnSite>, payloads: set<nat>, a: nat, v: Byte): Byte {
    var at: nat := InstructionOf(a);
    if at in sites && sites[at].payload in payloads then PeelSite(sites, a, v) else v
  }

  /** Overlays every return site of one payload, in any order. */
  method OverlayPayload(start: nat, sites: map<nat, ReturnSite>, payload: nat, bytes: array<Byte>)
    requires start + bytes.Length < TWO_64 && AlignedSites(sites)
    modifies bytes
    ensures forall k :: 0 <= k < bytes.Length ==> bytes[k] == PeelSitesOf(sites, {payload}, start + k, old(bytes[k]))
  {
    var rest: set<nat> := set at | at in sites && sites[at].payload == payload;
    while rest != {}
      invariant forall at :: at in rest ==> at in sites && sites[at].payload == payload
      invariant forall k :: 0 <= k < bytes.Length ==>
                  bytes[k] == if InstructionOf(start + k) in rest then old(bytes[k])
                              else PeelSitesOf(sites, {payload}, start + k, old(bytes[k]))
      decreases |rest|
    {
      var at: nat :| at in rest;
      ghost var before := bytes[..];
      OverlayOriginalBytes(start, CodePatch(at, sites[at].original, sites[at].patched), bytes);
      forall k | 0 <= k < bytes.Length
        ensures bytes[k] == if InstructionOf(start + k) == at then PeelSite(sites, start + k, before[k]) else before[k]
      {
        OneSite(sites, at, start + k, before[k]);
      }
      rest := rest - {at};
    }
  }

  /** A site covers exactly the bytes of its own instruction. */
  lemma OneSite(sites: map<nat, ReturnSite>, at: nat, a: nat, v: Byte)
    requires AlignedSites(sites) && at in sites
    ensures PeelByte(CodePatch(at, sites[at].original, sites[at].patched), a, v)
         == if InstructionOf(a) == at then PeelSite(sites, a, v) else v
  {
    if at <= a < at + 4 {
      SiteAddress(at, a);
    }
  }

  /** Visits the payloads of live hooks once each. */
  method OverlayPayloads(start: nat, hooks: seq<Hook>, sites: map<nat, ReturnSite>, bytes: array<Byte>)
    requires start + bytes.Length < TWO_64 && AlignedSites(sites)
    modifies bytes
    ensures forall k :: 0 <= k < bytes.Length ==> bytes[k] == PeelSites(hooks, sites, start + k, old(bytes[k]))
  {
    var seen, i := {}, |hooks|;
    while i > 0
      invariant 0 <= i <= |hooks|
      invariant forall p :: p in seen <==> exists j :: i <= j < |hooks| && Live(hooks[j]) && hooks[j].payload == Some(p)
      invariant forall k :: 0 <= k < bytes.Length ==> bytes[k] == PeelSitesOf(sites, seen, start + k, old(bytes[k]))
    {
      i := i - 1;
      if Live(hooks[i]) && hooks[i].payload.Some? && hooks[i].payload.value !in seen {
        OverlayPayload(start, sites, hooks[i].payload.value, bytes);
        seen := seen + {hooks[i].payload.value};
      }
    }
    assert forall p :: p in seen <==> Visited(hooks, p);
  }

  /** Copies `size` live bytes from `start` and takes the managed patches back out of them. */
  method NormalizeManagedCodeBytesLocked(
      hooks: seq<Hook>, sites: map<nat, ReturnSite>, current: map<nat, Byte>, start: nat, size: nat)
    returns (r: Option<seq<Byte>>)
    requires Mapped(current, start, size) && AlignedSites(sites)
    ensures r.Some? <==> start != 0 && size != 0 && start + size < TWO_64
    ensures r.Some? ==>
              && |r.value| == size
              && forall k :: 0 <= k < size ==> r.value[k] == Peel(hooks, sites, start + k, current[start + k])
  {
    if start == 0 || size == 0 || start > TWO_64 - 1 - size {
      return None;
    }
    var copy := Snapshot(current, start, size);
    var bytes := new Byte[size](k requires 0 <= k < size => copy[k]);
    OverlayHooks(start, hooks, bytes);
    OverlayPayloads(start, hooks, sites, bytes);
    return Some(bytes[..]);
  }

  // ---- The registry ----

  predicate HookedAt(hooks: seq<Hook>, target: nat) {
    exists i :: 0 <= i < |hooks| && Live(hooks[i]) && hooks[i].target == target
  }

  method FindHookLocked(hooks: seq<Hook>, target: nat) returns (found: Option<nat>)
    ensures found.Some? <==> HookedAt(hooks, target)
    ensures found.Some? ==> found.value < |hooks| && Live(hooks[found.value]) && hooks[found.value].target == target
  {
    for i := 0 to |hooks|
      invariant forall j :: 0 <= j < i ==> !(Live(hooks[j]) && hooks[j].target == target)
    {
      if hooks[i].target == target && hooks[i].state != Unhooked {
        return Some(i);
      }
    }
    return None;
  }

  /** Every byte a backend took over lies in its record, or is one of the `loose` ones. */
  ghost predicate Contained(h: Hook, loose: set<nat>) {
    forall a :: a in h.saved ==> a in loose || (h.patch.Some? && Covers(h.patch.value, a))
  }

  /** Away from the loose bytes the base image is the pristine code. */
  ghost predicate KeepsPristine(hooks: seq<Hook>, base: map<nat, Byte>, pristine: map<nat, Byte>, loose: set<nat>) {
    && pristine.Keys == base.Keys
    && (forall a :: a in base && a !in loose ==> base[a] == pristine[a])
    && (forall i :: 0 <= i < |hooks| ==> Contained(hooks[i], loose))
  }

  /** A return site still holds the branch DartPlant wrote. */
  predicate IntactSite(s: ReturnSite, at: nat, memory: map<nat, Byte>) {
    |s.patched| == 4 && forall a: nat :: at <= a < at + 4 ==> a in memory && memory[a] == s.patched[a - at]
  }

  predicate SitesIntact(sites: map<nat, ReturnSite>, memory: map<nat, Byte>, consumed: set<nat>) {
    forall at :: at in consumed && at in sites ==> IntactSite(sites[at], at, memory)
  }

  /** What the backend makes of an install. `Breaks` leaves a record that is never captured. */
  datatype HostAnswer = Accepts | Refuses | Breaks(state: HookState, holds: bool)

  function OutcomeOf(answer: HostAnswer): Outcome {
    if answer.Breaks? then Fails(answer.state, answer.holds) else Captures
  }

  /** What becomes of the return sites at unhook. `Partly` restores some instructions and can neither go on nor go
      back. */
  datatype SitesAnswer = Restores | Keeps | Partly(stuck: set<nat>)

  function SitesStatus(sites: map<nat, ReturnSite>, memory: map<nat, Byte>, consumed: set<nat>, answer: SitesAnswer): Status {
    if consumed == {} || (SitesIntact(sites, memory, consumed) && answer == Restores) then Ok else UnhookFailed
  }

  function SitesMemory(sites: map<nat, ReturnSite>, memory: map<nat, Byte>, consumed: set<nat>, answer: SitesAnswer):
    map<nat, Byte>
  {
    if SitesStatus(sites, memory, consumed, answer) == Ok then AfterRelease(sites, memory, consumed)
    else if SitesIntact(sites, memory, consumed) && answer.Partly? then PartlyRestored(sites, memory, answer.stuck)
    else memory
  }

  function AfterSites(h: Hook, status: Status): Hook {
    if status == Ok then h.(sites := {}, state := Unhooked) else h.(state := Failed)
  }

  /** Memory when the instructions at `stuck` are back although their sites are still recorded. */
  function PartlyRestored(sites: map<nat, ReturnSite>, memory: map<nat, Byte>, stuck: set<nat>): (after: map<nat, Byte>)
    ensures after.Keys == memory.Keys
  {
    map a | a in memory ::
      if InstructionOf(a) in stuck && InstructionOf(a) in sites && |sites[InstructionOf(a)].original| == 4 then
        sites[InstructionOf(a)].original[a % 4]
      else memory[a]
  }

  ghost predicate Consistent(
    hooks: seq<Hook>, sites: map<nat, ReturnSite>, memory: map<nat, Byte>, managed: map<nat, Byte>,
    base: map<nat, Byte>, pristine: map<nat, Byte>, loose: set<nat>)
  {
    Sound(hooks, sites, managed, base) && Overlaid(hooks, sites, managed, memory)
    && KeepsPristine(hooks, base, pristine, loose) && Settled(hooks, sites, memory, pristine)
  }

  /** At a free byte the pristine code is what stands there. */
  ghost predicate Settled(hooks: seq<Hook>, sites: map<nat, ReturnSite>, memory: map<nat, Byte>, pristine: map<nat, Byte>) {
    forall a {:trigger Free(hooks, sites, a)} :: a in pristine && a in memory && Free(hooks, sites, a) ==> pristine[a] == memory[a]
  }

  ghost predicate Unmoved(now: map<nat, Byte>, was: map<nat, Byte>, except: set<nat>) {
    now.Keys == was.Keys && forall a :: a in was && a !in except ==> now[a] == was[a]
  }

  ghost function Differing(memory: map<nat, Byte>, managed: map<nat, Byte>): set<nat> {
    set a | a in memory && a in managed && memory[a] != managed[a]
  }

  /** `memory` is what stands in the process, third-party code included. `managed` is what would stand there without
      it, `base` without the managed patches either. `pristine` is the code as loaded, with the third-party writes
      that met no patch or outlived it; `loose` are the bytes backends have written outside their records. */
  class Registry {
    var hooks: seq<Hook>
    var sites: map<nat, ReturnSite>
    var memory: map<nat, Byte>
    ghost var managed: map<nat, Byte>
    ghost var base: map<nat, Byte>
    ghost var pristine: map<nat, Byte>
    ghost var loose: set<nat>

    ghost predicate Valid()
      reads this
    {
      Consistent(hooks, sites, memory, managed, base, pristine, loose)
    }

    /** Where third-party code stands over a patch. */
    ghost function Foreign(): (f: set<nat>)
      reads this
    {
      Differing(memory, managed)
    }

    constructor (image: map<nat, Byte>)
      ensures Valid() && memory == managed == base == pristine == image && loose == {} && hooks == [] && sites == map[]
    {
      hooks, sites, memory, managed, base, pristine, loose := [], map[], image, image, image, image, {};
    }

    /** No third-party code stands on these return sites. */
    ghost predicate Clean(consumed: set<nat>)
      reads this
    {
      forall a :: a in Foreign() && InstructionOf(a) in sites ==> InstructionOf(a) !in consumed
    }

    /** The pristine code stands where neither third-party code nor a loose byte was. */
    ghost predicate Stands(was: map<nat, Byte>, foreign: set<nat>)
      reads this
    {
      Unmoved(pristine, was, loose + foreign)
    }

    /** Whatever stands at free bytes is nobody's patch. */
    ghost method TakeOver(foreign: set<nat>)
      requires Sound(hooks, sites, managed, base) && memory.Keys == managed.Keys
      requires KeepsPristine(hooks, base, pristine, loose) && Foreign() <= foreign
      modifies this`managed, this`base, this`pristine
      ensures Valid() && Stands(old(pristine), foreign) && Foreign() <= foreign
      ensures pristine == TakenOver(hooks, sites, old(pristine), memory)
    {
      TakenOverSound(hooks, sites, managed, memory, base);
      StandsAfter(hooks, sites, managed, base, pristine, memory, loose);
      managed, base, pristine :=
        TakenOver(hooks, sites, managed, memory), TakenOver(hooks, sites, base, memory),
        TakenOver(hooks, sites, pristine, memory);
    }

    /** An install that is refused changes nothing; any other leaves exactly the record, sites and bytes described.
        The registry stays valid when what was written overlaps nobody's patch. */
    method InstallHook(d: Install, answer: HostAnswer) returns (status: Status)
      requires Valid()
      requires !HookedAt(hooks, d.entry) && answer != Refuses ==>
                 Shaped(sites, memory, d) && Leaves(d, OutcomeOf(answer))
      modifies this
      ensures HookedAt(old(hooks), d.entry) || answer == Refuses || !SitesIntact(old(sites), old(memory), d.claimed)
              || Admissible(old(hooks), old(sites), old(managed), d) ==>
                Valid() && pristine == old(pristine) && Foreign() == old(Foreign())
      ensures var leaves := !HookedAt(old(hooks), d.entry) && answer != Refuses
                            && SitesIntact(old(sites), old(memory), d.claimed);
              && status == (if HookedAt(old(hooks), d.entry) then AlreadyHooked
                            else if leaves && answer == Accepts then Ok else HookFailed)
              && (!leaves ==> hooks == old(hooks) && sites == old(sites) && memory == old(memory) && loose == old(loose))
              && (leaves ==>
                    && Shaped(old(sites), old(memory), d)
                    && hooks == old(hooks) + [NewHook(old(sites), old(memory), d, OutcomeOf(answer))]
                    && sites == ClaimedSites(old(sites), old(memory), d)
                    && memory == AfterInstall(old(sites), old(memory), d)
                    && loose == old(loose) + Unrecorded(d).Keys)
      ensures status == Ok <==> !HookedAt(old(hooks), d.entry) && answer == Accepts && old(Clean(d.claimed))
      ensures status == Ok ==>
                && var h := hooks[|old(hooks)|];
                h.target == d.entry && h.state == Installed && h.captured && h.installed && h.payload == d.payload
                && h.sites == d.claimed && HookedAt(hooks, d.entry)
      ensures answer.Breaks? && !HookedAt(old(hooks), d.entry) && old(Clean(d.claimed)) ==>
                && |hooks| == |old(hooks)| + 1
                && var h := hooks[|old(hooks)|];
                h.target == d.entry && h.state == answer.state && !h.captured && h.installed == answer.holds
                && h.payload == d.payload && h.sites == d.claimed
    {
      IntactIfClean(hooks, sites, memory, managed, base, d.claimed);
      var found := FindHookLocked(hooks, d.entry);
      if found.Some? {
        return AlreadyHooked;
      }
      if answer == Refuses || !SitesIntact(sites, memory, d.claimed) {
        return HookFailed;
      }
      RecordInstall(d, OutcomeOf(answer));
      return if answer == Accepts then Ok else HookFailed;
    }

    method RecordInstall(d: Install, outcome: Outcome)
      requires Valid() && Shaped(sites, memory, d) && Leaves(d, outcome)
      modifies this
      ensures Admissible(old(hooks), old(sites), old(managed), d) ==>
                Valid() && pristine == old(pristine) && Foreign() == old(Foreign())
      ensures hooks == old(hooks) + [NewHook(old(sites), old(memory), d, outcome)]
      ensures sites == ClaimedSites(old(sites), old(memory), d) && memory == AfterInstall(old(sites), old(memory), d)
      ensures loose == old(loose) + Unrecorded(d).Keys
    {
      if Admissible(hooks, sites, managed, d) {
        InstallConsistent(hooks, sites, memory, managed, base, pristine, loose, d, outcome);
      }
      var h, sites', memory' := NewHook(sites, memory, d, outcome), ClaimedSites(sites, memory, d), AfterInstall(sites, memory, d);
      Become(hooks + [h], sites', memory', AfterInstall(sites, managed, d), base + Unrecorded(d), loose + Unrecorded(d).Keys);
    }

    method Become(hooks': seq<Hook>, sites': map<nat, ReturnSite>, memory': map<nat, Byte>,
                  ghost managed': map<nat, Byte>, ghost base': map<nat, Byte>, ghost loose': set<nat>)
      modifies this`hooks, this`sites, this`memory, this`managed, this`base, this`loose
      ensures Consistent(hooks', sites', memory', managed', base', pristine, loose') ==> Valid()
      ensures hooks == hooks' && sites == sites' && memory == memory'
      ensures managed == managed' && base == base' && loose == loose' && Foreign() == Differing(memory', managed')
    {
      hooks, sites, memory, managed, base, loose := hooks', sites', memory', managed', base', loose';
    }

    /** The logical half of `UnhookRecordLocked`: the patch stays in place. */
    method BeginUnhook(i: nat) returns (status: Status)
      requires Valid() && i < |hooks|
      modifies this`hooks, this`managed, this`base, this`pristine
      ensures Valid() && pristine == old(pristine) && Foreign() == old(Foreign())
      ensures var state := old(hooks)[i].state;
              && status == (if state == Retired then UnhookFailed else Ok)
              && hooks == if state == Unhooked || state == Retired then old(hooks)
                          else old(hooks)[i := old(hooks)[i].(state := Unhooking)]
    {
      if hooks[i].state == Unhooked {
        return Ok;
      }
      if hooks[i].state == Retired {
        return UnhookFailed;
      }
      if hooks[i].state == Unhooking {
        assert hooks == hooks[i := hooks[i].(state := Unhooking)];
        return Ok;
      }
      SetState(i, Unhooking);
      return Ok;
    }

    /** Only becoming unhooked takes the record out of normalization. */
    method SetState(i: nat, state: HookState)
      requires Valid() && i < |hooks| && Live(hooks[i])
      requires state == Unhooked ==> !hooks[i].installed && hooks[i].sites == {}
      modifies this`hooks, this`managed, this`base, this`pristine
      ensures Valid() && hooks == old(hooks)[i := old(hooks)[i].(state := state)]
      ensures Stands(old(pristine), old(Foreign())) && Foreign() <= old(Foreign())
      ensures state != Unhooked ==> pristine == old(pristine) && Foreign() == old(Foreign())
    {
      if state != Unhooked {
        RelabelConsistent(hooks, sites, memory, managed, base, pristine, loose, i, state);
        hooks := hooks[i := hooks[i].(state := state)];
      } else {
        RelabelSound(hooks, sites, managed, base, i, state);
        assert Contained(hooks[i], loose);
        hooks := hooks[i := hooks[i].(state := state)];
        TakeOver(old(Foreign()));
      }
    }

    /** The backend puts back what it took over, over whatever stands there. */
    method RestoreBackend(i: nat)
      requires Valid() && i < |hooks| && hooks[i].installed
      modifies this`hooks, this`memory, this`managed, this`base, this`pristine
      ensures Valid() && hooks == old(hooks)[i := old(hooks)[i].(installed := false)] && sites == old(sites)
      ensures memory == old(memory) + old(hooks)[i].saved
      ensures Stands(old(pristine), old(Foreign())) && Foreign() <= old(Foreign())
    {
      BackendRestoredSound(hooks, sites, managed, base, i);
      SavedMapped(hooks, sites, managed, base, i);
      RestoreKeepsPristine(hooks, base, pristine, loose, i);
      managed, base := managed + hooks[i].saved, base + Unmanaged(hooks[i]);
      memory := memory + hooks[i].saved;
      hooks := hooks[i := hooks[i].(installed := false)];
      TakeOver(old(Foreign()));
    }

    /** Gives up the hook's return sites, all of them intact; the last consumer of each puts its instruction back. */
    method ReleaseSites(i: nat)
      requires Valid() && i < |hooks|
      modifies this`hooks, this`sites, this`memory, this`managed, this`base, this`pristine
      ensures Valid() && hooks == old(hooks)[i := old(hooks)[i].(sites := {})]
      ensures sites == ReleasedSites(old(sites), old(hooks)[i].sites)
      ensures memory == AfterRelease(old(sites), old(memory), old(hooks)[i].sites)
      ensures Stands(old(pristine), old(Foreign())) && Foreign() <= old(Foreign())
    {
      SitesReleasedSound(hooks, sites, managed, base, i);
      ReleaseKeepsPristine(hooks, sites, memory, managed, base, pristine, loose, i);
      managed := AfterRelease(sites, managed, hooks[i].sites);
      sites, memory := ReleasedSites(sites, hooks[i].sites), AfterRelease(sites, memory, hooks[i].sites);
      hooks := hooks[i := hooks[i].(sites := {})];
      TakeOver(old(Foreign()));
    }

    /** Some instructions are back, their sites still recorded: like third-party code over a patch. */
    method LeaveSitesStuck(stuck: set<nat>)
      requires Valid()
      modifies this`memory
      ensures Valid() && memory == PartlyRestored(sites, old(memory), stuck)
      ensures forall a :: a in Foreign() ==> a in old(Foreign()) || InstructionOf(a) in stuck
    {
      memory := PartlyRestored(sites, memory, stuck);
    }

    /** `FinishUnhookLocked` once nobody runs through the backup any more: backend first, then return sites. */
    method FinishUnhook(i: nat, hostRestores: bool, answer: SitesAnswer) returns (status: Status)
      requires Valid() && i < |hooks| && hooks[i].state == Unhooking
      requires answer.Partly? ==> answer.stuck <= hooks[i].sites
      modifies this`hooks, this`sites, this`memory, this`managed, this`base, this`pristine
      ensures Valid() && Stands(old(pristine), old(Foreign()))
      ensures var h, keeps := old(hooks)[i], old(hooks)[i].installed && !hostRestores;
              var rewritten := if h.installed && hostRestores then old(memory) + h.saved else old(memory);
              && (keeps ==>
                    && status == UnhookFailed && hooks == old(hooks)[i := h.(state := Failed)]
                    && sites == old(sites) && memory == old(memory))
              && (!keeps ==> status == SitesStatus(old(sites), rewritten, h.sites, answer)
                             && hooks == old(hooks)[i := AfterSites(h.(installed := false), status)]
                             && sites == (if status == Ok then ReleasedSites(old(sites), h.sites) else old(sites))
                             && memory == SitesMemory(old(sites), rewritten, h.sites, answer))
    {
      if hooks[i].installed {
        if !hostRestores {
          SetState(i, Failed);
          return UnhookFailed;
        }
        RestoreBackend(i);
      }
      status := FinishSites(i, answer);
    }

    /** With a backend and a code writer that succeed, an unhook finishes exactly when no third-party code stands on the
        hook's return sites. */
    method FinishRestoring(i: nat) returns (status: Status)
      requires Valid() && i < |hooks| && hooks[i].state == Unhooking
      modifies this`hooks, this`sites, this`memory, this`managed, this`base, this`pristine
      ensures Valid() && |hooks| == |old(hooks)|
      ensures status == (if old(Clean(hooks[i].sites)) then Ok else UnhookFailed)
      ensures hooks[i].state == (if old(Clean(hooks[i].sites)) then Unhooked else Failed) && !hooks[i].installed
      ensures hooks[i].sites == if old(Clean(hooks[i].sites)) then {} else old(hooks)[i].sites
      ensures forall j :: 0 <= j < |hooks| && j != i ==> hooks[j] == old(hooks)[j]
      ensures sites == if status == Ok then ReleasedSites(old(sites), old(hooks)[i].sites) else old(sites)
      ensures var rewritten := if old(hooks)[i].installed then old(memory) + old(hooks)[i].saved else old(memory);
              memory == if status == Ok then AfterRelease(old(sites), rewritten, old(hooks)[i].sites) else rewritten
    {
      IntactIfClean(hooks, sites, memory, managed, base, hooks[i].sites);
      if hooks[i].installed {
        SavedMapped(hooks, sites, managed, base, i);
        IntactBesides(hooks, sites, memory, managed, base, i, hooks[i].sites);
      }
      status := FinishUnhook(i, true, Restores);
    }

    /** An install and its undisturbed unhook leave the code, the return sites and everybody else's record as they were. */
    method InstallAndUnhook(d: Install) returns (installed: Status, unhooked: Status)
      requires Valid() && !HookedAt(hooks, d.entry) && Admissible(hooks, sites, managed, d) && Clean(d.claimed)
      modifies this
      ensures Valid() && installed == unhooked == Ok && memory == old(memory) && sites == old(sites)
      ensures |hooks| == |old(hooks)| + 1 && hooks[..|old(hooks)|] == old(hooks) && hooks[|old(hooks)|].state == Unhooked
    {
      SoundKept(hooks, sites, managed, base);
      InstallUndone(sites, memory, d);
      installed := InstallClean(d);
      unhooked := UnhookClean(|hooks| - 1);
    }

    /** No third-party byte stands on the sites of the new hook. */
    method InstallClean(d: Install) returns (status: Status)
      requires Valid() && !HookedAt(hooks, d.entry) && Admissible(hooks, sites, managed, d) && Clean(d.claimed)
      modifies this
      ensures Valid() && status == Ok && hooks == old(hooks) + [NewHook(old(sites), old(memory), d, Captures)]
      ensures sites == ClaimedSites(old(sites), old(memory), d) && memory == AfterInstall(old(sites), old(memory), d)
      ensures Clean(d.claimed)
    {
      StillClean(hooks, sites, managed, memory, base, d);
      status := InstallHook(d, Accepts);
    }

    method UnhookClean(i: nat) returns (status: Status)
      requires Valid() && i < |hooks| && hooks[i].state == Installed && hooks[i].installed && Clean(hooks[i].sites)
      modifies this`hooks, this`sites, this`memory, this`managed, this`base, this`pristine
      ensures Valid() && status == Ok && |hooks| == |old(hooks)| && hooks[i].state == Unhooked
      ensures forall j :: 0 <= j < |hooks| && j != i ==> hooks[j] == old(hooks)[j]
      ensures sites == ReleasedSites(old(sites), old(hooks)[i].sites)
      ensures memory == AfterRelease(old(sites), old(memory) + old(hooks)[i].saved, old(hooks)[i].sites)
    {
      status := BeginUnhook(i);
      assert Clean(hooks[i].sites);
      status := FinishRestoring(i);
    }

    method FinishSites(i: nat, answer: SitesAnswer) returns (status: Status)
      requires Valid() && i < |hooks| && hooks[i].state == Unhooking && !hooks[i].installed
      requires answer.Partly? ==> answer.stuck <= hooks[i].sites
      modifies this`hooks, this`sites, this`memory, this`managed, this`base, this`pristine
      ensures Valid() && Stands(old(pristine), old(Foreign()))
      ensures status == SitesStatus(old(sites), old(memory), old(hooks)[i].sites, answer)
      ensures hooks == old(hooks)[i := AfterSites(old(hooks)[i], status)]
      ensures sites == if status == Ok then ReleasedSites(old(sites), old(hooks)[i].sites) else old(sites)
      ensures memory == SitesMemory(old(sites), old(memory), old(hooks)[i].sites, answer)
    {
      ghost var h := hooks[i];
      status := RestoreReturnInterception(i, answer);
      assert hooks[i] == h.(sites := if status == Ok then {} else h.sites);
      ghost var between, foreign := pristine, Foreign();
      SetState(i, if status == Ok then Unhooked else Failed);
      assert Unmoved(pristine, between, loose + foreign);
    }

    /** Return sites are given up only while all of them are intact. */
    method RestoreReturnInterception(i: nat, answer: SitesAnswer) returns (status: Status)
      requires Valid() && i < |hooks|
      requires answer.Partly? ==> answer.stuck <= hooks[i].sites
      modifies this`hooks, this`sites, this`memory, this`managed, this`base, this`pristine
      ensures Valid() && Stands(old(pristine), old(Foreign()))
      ensures status == Ok ==> Foreign() <= old(Foreign())
      ensures status != Ok ==> pristine == old(pristine)
      ensures status == SitesStatus(old(sites), old(memory), old(hooks)[i].sites, answer)
      ensures hooks == old(hooks)[i := old(hooks)[i].(sites := if status == Ok then {} else old(hooks)[i].sites)]
      ensures sites == if status == Ok then ReleasedSites(old(sites), old(hooks)[i].sites) else old(sites)
      ensures memory == SitesMemory(old(sites), old(memory), old(hooks)[i].sites, answer)
    {
      assert hooks == hooks[i := hooks[i].(sites := hooks[i].sites)];
      if hooks[i].sites == {} {
        NothingReleased(sites, memory);
        return Ok;
      }
      if !SitesIntact(sites, memory, hooks[i].sites) {
        return UnhookFailed;
      }
      match answer {
        case Restores =>
          ReleaseSites(i);
          return Ok;
        case Keeps =>
          return UnhookFailed;
        case Partly(stuck) =>
          LeaveSitesStuck(stuck);
          return UnhookFailed;
      }
    }

    /** The runtime is gone: the record is kept and never unhooked. */
    method Retire(i: nat)
      requires Valid() && i < |hooks|
      modifies this`hooks, this`managed, this`base, this`pristine
      ensures Valid() && pristine == old(pristine) && Foreign() == old(Foreign())
      ensures hooks == if Live(old(hooks)[i]) then old(hooks)[i := old(hooks)[i].(state := Retired)] else old(hooks)
    {
      if hooks[i].state != Unhooked {
        SetState(i, Retired);
      }
    }

    /** A third party changes any byte. It joins the pristine code where no patch is involved; over a patch it stays
        third-party code until the patch is gone. */
    method ForeignWrite(a: nat, v: Byte)
      requires Valid() && a in memory
      modifies this`memory, this`managed, this`base, this`pristine
      ensures Valid() && memory == old(memory)[a := v]
      ensures pristine == if Free(hooks, sites, a) then old(pristine)[a := v] else old(pristine)
      ensures Foreign() <= old(Foreign()) + {a} && (Free(hooks, sites, a) ==> a !in Foreign())
    {
      WrittenOver(hooks, sites, memory, pristine, a, v);
      memory := memory[a := v];
      TakeOver(old(Foreign()) + {a});
    }

    /** The fingerprinted bytes; `ShownAt` says what they are. */
    method Normalized(start: nat, size: nat) returns (r: Option<seq<Byte>>)
      requires Valid() && Mapped(memory, start, size)
      ensures r.Some? <==> start != 0 && size != 0 && start + size < TWO_64
      ensures r.Some? ==>
                && |r.value| == size
                && forall k :: 0 <= k < size ==> r.value[k] == Peel(hooks, sites, start + k, memory[start + k])
    {
      SoundAligned(hooks, sites, managed, base);
      r := NormalizeManagedCodeBytesLocked(hooks, sites, memory, start, size);
    }

    /** After any sequence of these calls, for every byte: it comes back as base exactly when it is base or some patch
        takes it for its own, and no record that was never captured is in the way; else it comes back as it stands.
        Where nothing foreign stands over a patch and every record is captured, that is the pristine code, but for
        loose bytes. */
    lemma ShownAt(a: nat)
      requires Valid() && a in memory
      ensures a in base && a in pristine
      ensures var shown, hijacked := Peel(hooks, sites, a, memory[a]), Hijacked(hooks, sites, a, memory[a], base[a]);
              && (shown == base[a] <==> (memory[a] == base[a] || Masks(hooks, sites, a, memory[a])) && !hijacked)
              && (!hijacked && !Masks(hooks, sites, a, memory[a]) ==> shown == memory[a])
              && (a !in loose && a !in Foreign() && AllCaptured(hooks) ==> shown == pristine[a])
    {
      assert a in managed && a in base;
      ShownAsBase(hooks, sites, managed, base, a, memory[a]);
      PeelExact(hooks, sites, managed, base, a, memory[a]);
      if AllCaptured(hooks) {
        CapturedIsBase(hooks, sites, managed, base, a);
      }
    }
  }

  /** Return sites are intact exactly when no third-party code stands on them. */
  lemma IntactIfClean(hooks: seq<Hook>, sites: map<nat, ReturnSite>, memory: map<nat, Byte>, managed: map<nat, Byte>,
                      base: map<nat, Byte>, consumed: set<nat>)
    requires Sound(hooks, sites, managed, base) && memory.Keys == managed.Keys
    ensures SitesIntact(sites, memory, consumed) <==>
            forall a :: a in Differing(memory, managed) && InstructionOf(a) in sites ==> InstructionOf(a) !in consumed
  {
    forall at | at in consumed && at in sites
      ensures IntactSite(sites[at], at, memory) <==>
              forall a :: a in Differing(memory, managed) ==> InstructionOf(a) != at
    {
      OneIntact(hooks, sites, memory, managed, base, at);
    }
  }

  lemma OneIntact(hooks: seq<Hook>, sites: map<nat, ReturnSite>, memory: map<nat, Byte>, managed: map<nat, Byte>,
                  base: map<nat, Byte>, at: nat)
    requires Sound(hooks, sites, managed, base) && memory.Keys == managed.Keys && at in sites
    ensures IntactSite(sites[at], at, memory) <==> forall a :: a in Differing(memory, managed) ==> InstructionOf(a) != at
  {
    assert SiteSound(hooks, sites[at], at, managed, base);
    forall a: nat | at <= a < at + 4
      ensures InstructionOf(a) == at && a in managed && managed[a] == sites[at].patched[a - at]
    {
      SiteAddress(at, a);
      assert SiteByteSound(sites[at], at, a, managed, base);
    }
    if IntactSite(sites[at], at, memory) {
      forall a | a in Differing(memory, managed)
        ensures InstructionOf(a) != at
      {
        assert InstructionOf(a) == at ==> at <= a < at + 4;
      }
    } else {
      var a: nat :| at <= a < at + 4 && !(a in memory && memory[a] == sites[at].patched[a - at]);
      assert a in Differing(memory, managed) && InstructionOf(a) == at;
    }
  }

  /** What a backend puts back is no return site. */
  lemma IntactBesides(hooks: seq<Hook>, sites: map<nat, ReturnSite>, memory: map<nat, Byte>, managed: map<nat, Byte>,
                      base: map<nat, Byte>, i: nat, consumed: set<nat>)
    requires Sound(hooks, sites, managed, base) && i < |hooks| && hooks[i].installed
    requires hooks[i].saved.Keys <= memory.Keys == managed.Keys
    ensures SitesIntact(sites, memory + hooks[i].saved, consumed) <==> SitesIntact(sites, memory, consumed)
  {
    assert HookSound(hooks[i], sites, managed, base);
    forall at | at in sites
      ensures IntactSite(sites[at], at, memory + hooks[i].saved) <==> IntactSite(sites[at], at, memory)
    {
      assert SiteSound(hooks, sites[at], at, managed, base);
      forall a: nat | at <= a < at + 4
        ensures a in memory && (memory + hooks[i].saved)[a] == memory[a]
      {
        SiteAddress(at, a);
        assert SiteByteSound(sites[at], at, a, managed, base);
        assert a in hooks[i].saved ==> BackendOwns(hooks[i], a) && SiteOwns(sites, a);
      }
    }
  }

  /** Where an install claims return sites there is no third-party code, unless it stood on one already. */
  lemma StillClean(hooks: seq<Hook>, sites: map<nat, ReturnSite>, memory: map<nat, Byte>, actual: map<nat, Byte>,
                   base: map<nat, Byte>, d: Install)
    requires Sound(hooks, sites, memory, base) && Admissible(hooks, sites, memory, d) && Overlaid(hooks, sites, memory, actual)
    requires forall a :: a in Differing(actual, memory) && InstructionOf(a) in sites ==> InstructionOf(a) !in d.claimed
    ensures forall a :: a in Differing(actual, memory) ==> InstructionOf(a) !in d.claimed
  {
    forall a | a in Differing(actual, memory)
      ensures InstructionOf(a) !in d.claimed
    {
      ChangedBytes(hooks, sites, memory, actual, base, d, a);
    }
  }

  lemma SoundKept(hooks: seq<Hook>, sites: map<nat, ReturnSite>, memory: map<nat, Byte>, base: map<nat, Byte>)
    requires Sound(hooks, sites, memory, base)
    ensures Kept(sites)
  {
    forall at | at in sites
      ensures at % 4 == 0 && |sites[at].original| == 4 && sites[at].consumers > 0
    {
      assert SiteSound(hooks, sites[at], at, memory, base);
    }
  }

  /** Return instructions put back although their sites are still recorded show the code without patches. */
  lemma PartlyShowsBase(hooks: seq<Hook>, sites: map<nat, ReturnSite>, memory: map<nat, Byte>, managed: map<nat, Byte>,
                        base: map<nat, Byte>, stuck: set<nat>, a: nat)
    requires Sound(hooks, sites, managed, base) && memory.Keys == managed.Keys && a in memory
    ensures PartlyRestored(sites, memory, stuck)[a]
         == if InstructionOf(a) in stuck && InstructionOf(a) in sites then base[a] else memory[a]
  {
    var at: nat := InstructionOf(a);
    if at in sites {
      assert SiteSound(hooks, sites[at], at, managed, base);
      assert a == at + a % 4;
      assert SiteByteSound(sites[at], at, a, managed, base);
    }
  }

  lemma InstallConsistent(hooks: seq<Hook>, sites: map<nat, ReturnSite>, memory: map<nat, Byte>, managed: map<nat, Byte>,
                          base: map<nat, Byte>, pristine: map<nat, Byte>, loose: set<nat>, d: Install, outcome: Outcome)
    requires Consistent(hooks, sites, memory, managed, base, pristine, loose)
    requires Admissible(hooks, sites, managed, d) && Leaves(d, outcome)
    ensures Shaped(sites, memory, d)
    ensures Consistent(hooks + [NewHook(sites, memory, d, outcome)], ClaimedSites(sites, memory, d),
                       AfterInstall(sites, memory, d), AfterInstall(sites, managed, d), base + Unrecorded(d), pristine,
                       loose + Unrecorded(d).Keys)
    ensures Differing(AfterInstall(sites, memory, d), AfterInstall(sites, managed, d)) == Differing(memory, managed)
  {
    InstallSound(hooks, sites, managed, memory, base, d, outcome);
    InstallOverlaid(hooks, sites, managed, memory, base, d, outcome);
    InstallKeepsPristine(hooks, sites, memory, base, pristine, loose, d, outcome);
    InstallKeepsForeign(hooks, sites, managed, memory, base, d);
    forall a | a in memory && Free(hooks + [NewHook(sites, memory, d, outcome)], ClaimedSites(sites, memory, d), a)
      ensures Free(hooks, sites, a) && AfterInstall(sites, memory, d)[a] == memory[a]
    {
      FreeUnchanged(hooks, sites, managed, memory, base, d, outcome, a);
    }
  }

  lemma InstallKeepsPristine(hooks: seq<Hook>, sites: map<nat, ReturnSite>, actual: map<nat, Byte>, base: map<nat, Byte>,
                             pristine: map<nat, Byte>, loose: set<nat>, d: Install, outcome: Outcome)
    requires Shaped(sites, actual, d) && actual.Keys == base.Keys && KeepsPristine(hooks, base, pristine, loose)
    ensures KeepsPristine(hooks + [NewHook(sites, actual, d, outcome)], base + Unrecorded(d), pristine,
                          loose + Unrecorded(d).Keys)
  {
    var h := NewHook(sites, actual, d, outcome);
    forall a | a in h.saved
      ensures a in loose + Unrecorded(d).Keys || (h.patch.Some? && Covers(h.patch.value, a))
    {
      NewRecord(sites, actual, d, outcome, a);
    }
    forall i | 0 <= i < |hooks|
      ensures Contained(hooks[i], loose + Unrecorded(d).Keys)
    {
      assert Contained(hooks[i], loose);
    }
  }

  /** An install neither hides third-party code nor brings any. */
  lemma InstallKeepsForeign(hooks: seq<Hook>, sites: map<nat, ReturnSite>, memory: map<nat, Byte>, actual: map<nat, Byte>,
                            base: map<nat, Byte>, d: Install)
    requires Sound(hooks, sites, memory, base) && Admissible(hooks, sites, memory, d)
    requires Overlaid(hooks, sites, memory, actual)
    ensures forall a :: a in memory ==>
                          (AfterInstall(sites, actual, d)[a] != AfterInstall(sites, memory, d)[a] <==> actual[a] != memory[a])
  {
    forall a | a in memory
      ensures AfterInstall(sites, actual, d)[a] != AfterInstall(sites, memory, d)[a] <==> actual[a] != memory[a]
    {
      ChangedBytes(hooks, sites, memory, actual, base, d, a);
    }
  }

  lemma RestoreKeepsPristine(hooks: seq<Hook>, base: map<nat, Byte>, pristine: map<nat, Byte>, loose: set<nat>, i: nat)
    requires KeepsPristine(hooks, base, pristine, loose) && i < |hooks| && Live(hooks[i])
    requires hooks[i].saved.Keys <= base.Keys
    ensures KeepsPristine(hooks[i := hooks[i].(installed := false)], base + Unmanaged(hooks[i]), pristine, loose)
  {
    assert Contained(hooks[i], loose);
  }

  lemma ReleaseKeepsPristine(hooks: seq<Hook>, sites: map<nat, ReturnSite>, memory: map<nat, Byte>, managed: map<nat, Byte>,
                             base: map<nat, Byte>, pristine: map<nat, Byte>, loose: set<nat>, i: nat)
    requires KeepsPristine(hooks, base, pristine, loose) && i < |hooks|
    ensures KeepsPristine(hooks[i := hooks[i].(sites := {})], base, pristine, loose)
    ensures Differing(AfterRelease(sites, memory, hooks[i].sites), AfterRelease(sites, managed, hooks[i].sites))
         <= Differing(memory, managed)
  {
    assert Contained(hooks[i], loose);
  }

  lemma SavedMapped(hooks: seq<Hook>, sites: map<nat, ReturnSite>, memory: map<nat, Byte>, base: map<nat, Byte>, i: nat)
    requires Sound(hooks, sites, memory, base) && i < |hooks| && hooks[i].installed
    ensures Live(hooks[i]) && hooks[i].saved.Keys <= memory.Keys == base.Keys
  {
    assert HookSound(hooks[i], sites, memory, base);
    assert forall a :: a in hooks[i].saved ==> BackendOwns(hooks[i], a) && BackendByteSound(hooks[i], a, memory, base);
  }

  lemma SoundAligned(hooks: seq<Hook>, sites: map<nat, ReturnSite>, memory: map<nat, Byte>, base: map<nat, Byte>)
    requires Sound(hooks, sites, memory, base)
    ensures AlignedSites(sites)
  {
    forall at | at in sites
      ensures at % 4 == 0 && |sites[at].original| == |sites[at].patched| == 4
    {
      assert SiteSound(hooks, sites[at], at, memory, base);
    }
  }

  predicate AllCaptured(hooks: seq<Hook>) {
    forall i :: 0 <= i < |hooks| && Live(hooks[i]) ==> hooks[i].captured
  }

  /** A record that stays live keeps exactly the same bytes from being free. */
  lemma RelabelKeepsFree(hooks: seq<Hook>, sites: map<nat, ReturnSite>, i: nat, state: HookState, a: nat)
    requires i < |hooks| && Live(hooks[i]) && state != Unhooked
    ensures Free(hooks[i := hooks[i].(state := state)], sites, a) <==> Free(hooks, sites, a)
  {
    var hooks' := hooks[i := hooks[i].(state := state)];
    assert forall j :: 0 <= j < |hooks| ==> BackendOwns(hooks'[j], a) == BackendOwns(hooks[j], a)
                                            && Neutral(hooks'[j], a) == Neutral(hooks[j], a);
  }

  lemma RelabelConsistent(hooks: seq<Hook>, sites: map<nat, ReturnSite>, memory: map<nat, Byte>, managed: map<nat, Byte>,
      base: map<nat, Byte>, pristine: map<nat, Byte>, loose: set<nat>, i: nat, state: HookState)
    requires Consistent(hooks, sites, memory, managed, base, pristine, loose)
    requires i < |hooks| && Live(hooks[i]) && state != Unhooked
    ensures Consistent(hooks[i := hooks[i].(state := state)], sites, memory, managed, base, pristine, loose)
  {
    var hooks' := hooks[i := hooks[i].(state := state)];
    RelabelSound(hooks, sites, managed, base, i, state);
    assert Contained(hooks[i], loose);
    forall a | Free(hooks', sites, a)
      ensures a in memory ==> memory[a] == managed[a]
      ensures a in pristine && a in memory ==> pristine[a] == memory[a]
    {
      RelabelKeepsFree(hooks, sites, i, state, a);
    }
  }

  /** Return sites that cannot be given up cost the unhook, and memory stays, but for what is stuck; without any there is
      nothing to give up. */
  lemma SitesAnswered(sites: map<nat, ReturnSite>, memory: map<nat, Byte>, consumed: set<nat>, h: Hook)
    ensures forall answer :: SitesStatus(sites, memory, {}, answer) == Ok && SitesMemory(sites, memory, {}, answer) == memory
    ensures consumed != {} ==>
              && SitesStatus(sites, memory, consumed, Keeps) == UnhookFailed
              && SitesMemory(sites, memory, consumed, Keeps) == memory
              && forall stuck :: SitesStatus(sites, memory, consumed, Partly(stuck)) == UnhookFailed
    ensures AfterSites(h, Ok) == h.(sites := {}, state := Unhooked) && AfterSites(h, UnhookFailed) == h.(state := Failed)
  {
    NothingReleased(sites, memory);
  }

  lemma NothingReleased(sites: map<nat, ReturnSite>, memory: map<nat, Byte>)
    ensures ReleasedSites(sites, {}) == sites && AfterRelease(sites, memory, {}) == memory
  {
  }

  /** A written byte joins the pristine code if it is free. */
  lemma WrittenOver(hooks: seq<Hook>, sites: map<nat, ReturnSite>, memory: map<nat, Byte>, pristine: map<nat, Byte>,
                    a: nat, v: Byte)
    requires Settled(hooks, sites, memory, pristine) && memory.Keys == pristine.Keys && a in memory
    ensures TakenOver(hooks, sites, pristine, memory[a := v])
         == if Free(hooks, sites, a) then pristine[a := v] else pristine
  {
  }

  /** Taking over what stands at free bytes changes the pristine code only where third-party code stands. */
  lemma StandsAfter(hooks: seq<Hook>, sites: map<nat, ReturnSite>, memory: map<nat, Byte>, base: map<nat, Byte>,
                    pristine: map<nat, Byte>, actual: map<nat, Byte>, loose: set<nat>)
    requires Sound(hooks, sites, memory, base) && actual.Keys == memory.Keys
    requires KeepsPristine(hooks, base, pristine, loose)
    ensures forall a :: a in pristine && a !in loose && actual[a] == memory[a] ==>
                          TakenOver(hooks, sites, pristine, actual)[a] == pristine[a]
    ensures forall a :: a in memory && TakenOver(hooks, sites, memory, actual)[a] != actual[a] ==> actual[a] != memory[a]
  {
  }

  // ---- Records that were never captured, reached by runs of the registry ----

  const CODE: map<nat, Byte> := map a: nat | 0x0ffc <= a < 0x1004 :: 0

  const PATCHED: map<nat, Byte> := CODE[0x1000 := 0x1f]

  /** A backend that writes one byte at 0x1000. */
  const ONE_BYTE: Install := Install(0x1000, 4, None, {}, map[], map[0x1000 := 0x1f])

  /** A neighbour whose entry range reaches over it. */
  const NEIGHBOUR: Install := Install(0x0ffc, 8, None, {}, map[], map[])

  lemma OneByteAdmissible()
    ensures Admissible([], map[], CODE, ONE_BYTE)
  {
  }

  lemma NeighbourAdmissible(hooks: seq<Hook>, sites: map<nat, ReturnSite>, memory: map<nat, Byte>)
    requires memory.Keys == CODE.Keys
    ensures Admissible(hooks, sites, memory, NEIGHBOUR)
  {
    forall a: nat | 0x0ffc <= a < 0x0ffc + 8
      ensures a in memory
    {
      assert a in CODE.Keys;
    }
  }

  lemma TwoRecords(older: Hook, newer: Hook, a: nat, v: Byte)
    ensures Peel([older, newer], map[], a, v) == PeelHook(older, a, PeelHook(newer, a, v))
  {
    var hooks := [older, newer];
    assert hooks[..1] == [older] && hooks[..1][..0] == [];
    assert PeelHooks([older], a, PeelHook(newer, a, v)) == PeelHook(older, a, PeelHook(newer, a, v));
  }

  lemma OneRecord(h: Hook, a: nat, v: Byte)
    ensures Peel([h], map[], a, v) == PeelHook(h, a, v)
  {
    assert [h][..0] == [];
    assert PeelHooks([h], a, v) == PeelHooks([], a, PeelHook(h, a, v));
  }

  lemma OneByteInstalled()
    ensures Shaped(map[], CODE, ONE_BYTE) && AfterInstall(map[], CODE, ONE_BYTE) == PATCHED
    ensures ClaimedSites(map[], CODE, ONE_BYTE) == map[] && Unrecorded(ONE_BYTE) == map[]
  {
  }

  lemma NeighbourInstalled()
    ensures Shaped(map[], PATCHED, NEIGHBOUR) && AfterInstall(map[], PATCHED, NEIGHBOUR) == PATCHED
    ensures ClaimedSites(map[], PATCHED, NEIGHBOUR) == map[]
  {
    assert forall a: nat :: 0x0ffc <= a < 0x1004 ==> a in PATCHED;
  }

  lemma NeighbourWelcome()
    ensures Shaped(map[], CODE, ONE_BYTE) && !HookedAt([NewHook(map[], CODE, ONE_BYTE, Captures)], NEIGHBOUR.entry)
    ensures SitesIntact(map[], PATCHED, NEIGHBOUR.claimed) && Leaves(NEIGHBOUR, Fails(FailedAfterPublished, false))
  {
    OneByteInstalled();
  }

  method Patched(answer: HostAnswer) returns (registry: Registry)
    requires answer != Refuses && Leaves(ONE_BYTE, OutcomeOf(answer))
    ensures fresh(registry) && registry.Valid() && registry.sites == map[] && registry.pristine == CODE
    ensures registry.memory == PATCHED
    ensures Shaped(map[], CODE, ONE_BYTE) && registry.hooks == [NewHook(map[], CODE, ONE_BYTE, OutcomeOf(answer))]
  {
    registry := new Registry(CODE);
    OneByteAdmissible();
    OneByteInstalled();
    var status := registry.InstallHook(ONE_BYTE, answer);
  }

  method PatchedTwice() returns (registry: Registry)
    ensures fresh(registry) && registry.Valid() && registry.sites == map[] && registry.memory == PATCHED
    ensures Shaped(map[], CODE, ONE_BYTE) && Shaped(map[], PATCHED, NEIGHBOUR)
    ensures registry.hooks == [NewHook(map[], CODE, ONE_BYTE, Captures),
                               NewHook(map[], PATCHED, NEIGHBOUR, Fails(FailedAfterPublished, false))]
  {
    registry := Patched(Accepts);
    NeighbourAdmissible(registry.hooks, registry.sites, registry.managed);
    NeighbourInstalled();
    NeighbourWelcome();
    var status := registry.InstallHook(NEIGHBOUR, Breaks(FailedAfterPublished, false));
  }

  lemma NoSites(memory: map<nat, Byte>)
    ensures SitesStatus(map[], memory, {}, Keeps) == Ok && SitesMemory(map[], memory, {}, Keeps) == memory
    ensures ReleasedSites(map[], {}) == map[]
  {
    NothingReleased(map[], memory);
  }

  lemma UnpatchedAgain()
    ensures Shaped(map[], CODE, ONE_BYTE)
    ensures PATCHED + NewHook(map[], CODE, ONE_BYTE, Captures).saved == CODE
  {
    OneByteInstalled();
  }

  lemma BroughtBack()
    ensures Shaped(map[], CODE, ONE_BYTE) && Shaped(map[], PATCHED, NEIGHBOUR)
    ensures var first, second := NewHook(map[], CODE, ONE_BYTE, Captures),
                                 NewHook(map[], PATCHED, NEIGHBOUR, Fails(FailedAfterPublished, false));
            Peel([first.(state := Unhooked, installed := false, sites := {}), second], map[], 0x1000, 0) == 0x1f
  {
    NeighbourInstalled();
    var first, second := NewHook(map[], CODE, ONE_BYTE, Captures),
                         NewHook(map[], PATCHED, NEIGHBOUR, Fails(FailedAfterPublished, false));
    TwoRecords(first.(state := Unhooked, installed := false, sites := {}), second, 0x1000, 0);
    NewRecord(map[], PATCHED, NEIGHBOUR, Fails(FailedAfterPublished, false), 0x1000);
  }

  /** The neighbour fails after publication while the byte is patched. Once it is unpatched again memory is pristine,
      and normalization brings the patch back. */
  method UncapturedOutlivesPatch() returns (registry: Registry, r: Option<seq<Byte>>)
    ensures fresh(registry) && registry.Valid() && registry.memory == CODE
    ensures r == Some([0x1f])
  {
    registry := PatchedTwice();
    UnpatchOne(registry);
    BroughtBack();
    r := NormalizeManagedCodeBytesLocked(registry.hooks, registry.sites, registry.memory, 0x1000, 1);
    assert r.value == [0x1f];
  }

  method UnpatchOne(registry: Registry)
    requires registry.Valid() && registry.sites == map[] && registry.memory == PATCHED && |registry.hooks| == 2
    requires Shaped(map[], CODE, ONE_BYTE) && registry.hooks[0] == NewHook(map[], CODE, ONE_BYTE, Captures)
    modifies registry
    ensures registry.Valid() && registry.sites == map[] && registry.memory == CODE
    ensures registry.hooks == [old(registry.hooks[0]).(state := Unhooked, installed := false, sites := {}),
                               old(registry.hooks[1])]
  {
    var begun := registry.BeginUnhook(0);
    UnpatchedAgain();
    FinishOne(registry, old(registry.hooks[0]));
  }

  method FinishOne(registry: Registry, ghost first: Hook)
    requires registry.Valid() && registry.sites == map[] && registry.memory == PATCHED && |registry.hooks| == 2
    requires registry.hooks[0] == first.(state := Unhooking) && first.installed && first.sites == {}
    requires PATCHED + first.saved == CODE
    modifies registry
    ensures registry.Valid() && registry.sites == map[] && registry.memory == CODE
    ensures registry.hooks == [first.(state := Unhooked, installed := false, sites := {}), old(registry.hooks[1])]
  {
    NoSites(CODE);
    var finished := registry.FinishUnhook(0, true, Keeps);
  }

  /** A backend that could not roll back: its byte is shown as it stands. */
  method RecoveryShowsBackend() returns (registry: Registry, r: Option<seq<Byte>>)
    ensures fresh(registry) && registry.Valid() && registry.pristine == CODE
    ensures r == Some([0x1f])
  {
    registry := Patched(Breaks(FailedAfterPublished, true));
    r := NormalizeManagedCodeBytesLocked(registry.hooks, registry.sites, registry.memory, 0x1000, 1);
    OneRecord(registry.hooks[0], 0x1000, 0x1f);
    NewRecord(map[], CODE, ONE_BYTE, Fails(FailedAfterPublished, true), 0x1000);
    assert r.value == [0x1f];
  }
}
