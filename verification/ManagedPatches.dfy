/** Managed code patches and their normalization (src/core/hook_registry.cpp:338-477, with the order of
    install and unhook steps of 534-608, 893-962 and 1284-1478). */
module ManagedPatches {
  import opened Wrappers
  import opened Machine

  datatype CodePatch = CodePatch(address: nat, original: seq<Byte>, patched: seq<Byte>)

  datatype HookState = Installed | Unhooking | Unhooked | Failed | FailedAfterPublished | Retired

  /** A hook record. `saved` is what the backend took over when it patched the entry, while it is `installed`;
      `sites` are the return sites this hook consumes, given by address. The patch of a hook that was never
      `captured` has patched bytes that are still all zero. */
  datatype Hook = Hook(
    target: nat, state: HookState, patch: Option<CodePatch>, payload: Option<nat>, sites: set<nat>,
    captured: bool, installed: bool, saved: map<nat, Byte>)

  /** One patched return instruction of a payload: its four original and patched bytes and its consumers. */
  datatype ReturnSite = ReturnSite(payload: nat, original: seq<Byte>, patched: seq<Byte>, consumers: nat)

  // ---- Peeling one patch ----

  predicate Covers(p: CodePatch, a: nat) {
    |p.original| == |p.patched| && p.address <= a < p.address + |p.original|
  }

  function OriginalAt(p: CodePatch, a: nat): Byte
    requires Covers(p, a)
  {
    p.original[a - p.address]
  }

  function PatchedAt(p: CodePatch, a: nat): Byte
    requires Covers(p, a)
  {
    p.patched[a - p.address]
  }

  /** Only a byte that still holds the patched value is turned back. */
  function PeelByte(p: CodePatch, a: nat, v: Byte): Byte {
    if Covers(p, a) && v == PatchedAt(p, a) then OriginalAt(p, a) else v
  }

  method OverlayOriginalBytes(start: nat, p: CodePatch, bytes: array<Byte>)
    requires start + bytes.Length < TWO_64
    modifies bytes
    ensures forall k :: 0 <= k < bytes.Length ==> bytes[k] == PeelByte(p, start + k, old(bytes[k]))
  {
    var end := start + bytes.Length;
    if p.address >= end || p.original == [] || |p.original| != |p.patched| {
      return;
    }
    var patchEnd := if p.address + |p.original| > TWO_64 - 1 then TWO_64 - 1 else p.address + |p.original|;
    if patchEnd <= start {
      return;
    }
    var overlapStart := if start >= p.address then start else p.address;
    var overlapEnd := if end <= patchEnd then end else patchEnd;
    if overlapStart >= overlapEnd {
      return;
    }
    var destination, source := overlapStart - start, overlapStart - p.address;
    for index := 0 to overlapEnd - overlapStart
      invariant forall k :: 0 <= k < destination + index ==> bytes[k] == PeelByte(p, start + k, old(bytes[k]))
      invariant forall k :: destination + index <= k < bytes.Length ==> bytes[k] == old(bytes[k])
    {
      if bytes[destination + index] == p.patched[source + index] {
        bytes[destination + index] := p.original[source + index];
      }
    }
  }

  // ---- Peeling everything ----

  predicate Live(h: Hook) {
    h.state != Unhooked
  }

  /** The live record of `h` at `a`, if it has one there. */
  predicate Records(h: Hook, a: nat) {
    Live(h) && h.patch.Some? && Covers(h.patch.value, a)
  }

  function PeelHook(h: Hook, a: nat, v: Byte): Byte {
    if Live(h) && h.patch.Some? then PeelByte(h.patch.value, a, v) else v
  }

  /** Newest hook first. */
  function PeelHooks(hooks: seq<Hook>, a: nat, v: Byte): Byte {
    if hooks == [] then v
    else PeelHooks(hooks[..|hooks| - 1], a, PeelHook(hooks[|hooks| - 1], a, v))
  }

  /** The address of the instruction that byte `a` belongs to. */
  function InstructionOf(a: nat): nat {
    a - a % 4
  }

  predicate Visited(hooks: seq<Hook>, payload: nat) {
    exists i :: 0 <= i < |hooks| && Live(hooks[i]) && hooks[i].payload == Some(payload)
  }

  function PeelSite(sites: map<nat, ReturnSite>, a: nat, v: Byte): Byte {
    var at: nat := InstructionOf(a);
    if at in sites then PeelByte(CodePatch(at, sites[at].original, sites[at].patched), a, v) else v
  }

  function PeelSites(hooks: seq<Hook>, sites: map<nat, ReturnSite>, a: nat, v: Byte): Byte {
    var at: nat := InstructionOf(a);
    if at in sites && Visited(hooks, sites[at].payload) then PeelSite(sites, a, v) else v
  }

  function Peel(hooks: seq<Hook>, sites: map<nat, ReturnSite>, a: nat, v: Byte): Byte {
    PeelSites(hooks, sites, a, PeelHooks(hooks, a, v))
  }

  // ---- The managed image ----

  /** How many hooks consume the return site at `at`. */
  function Consumers(hooks: seq<Hook>, at: nat): nat {
    if hooks == [] then 0
    else Consumers(hooks[..|hooks| - 1], at) + (if at in hooks[|hooks| - 1].sites then 1 else 0)
  }

  /** No captured record of `h` would rewrite `a`. */
  predicate Neutral(h: Hook, a: nat) {
    Records(h, a) && h.captured ==> OriginalAt(h.patch.value, a) == PatchedAt(h.patch.value, a)
  }

  /** If a captured `h` rewrites `a`, it rewrites it to `base`. */
  predicate Honest(h: Hook, a: nat, base: Byte) {
    Neutral(h, a) || OriginalAt(h.patch.value, a) == base
  }

  predicate BackendOwns(h: Hook, a: nat) {
    h.installed && a in h.saved
  }

  predicate SiteOwns(sites: map<nat, ReturnSite>, a: nat) {
    InstructionOf(a) in sites
  }

  /** Nobody's patch stands at `a`. */
  ghost predicate Unpatched(hooks: seq<Hook>, sites: map<nat, ReturnSite>, a: nat) {
    !SiteOwns(sites, a) && forall i :: 0 <= i < |hooks| ==> !BackendOwns(hooks[i], a)
  }

  /** Nor would any live captured record rewrite it. */
  ghost predicate Free(hooks: seq<Hook>, sites: map<nat, ReturnSite>, a: nat) {
    Unpatched(hooks, sites, a) && forall i :: 0 <= i < |hooks| ==> Neutral(hooks[i], a)
  }

  /** `memory` holds the patched bytes and `base` the originals of a site with the right consumer count. */
  ghost predicate SiteSound(hooks: seq<Hook>, s: ReturnSite, at: nat, memory: map<nat, Byte>, base: map<nat, Byte>) {
    && at % 4 == 0 && |s.original| == |s.patched| == 4
    && s.consumers == Consumers(hooks, at) && s.consumers > 0
    && forall a :: at <= a < at + 4 ==> SiteByteSound(s, at, a, memory, base)
  }

  ghost predicate SiteByteSound(s: ReturnSite, at: nat, a: nat, memory: map<nat, Byte>, base: map<nat, Byte>)
    requires at <= a < at + |s.patched| && |s.original| == |s.patched|
  {
    a in memory && memory[a] == s.patched[a - at] && a in base && base[a] == s.original[a - at]
  }

  lemma SiteAddress(at: nat, a: nat)
    requires at % 4 == 0 && at <= a < at + 4
    ensures InstructionOf(a) == at && a % 4 == a - at
  {
  }

  /** A backend byte inside the hook's record is managed: a captured record turns it back into `base`. One outside
      the record is nobody's managed byte and counts as part of `base`. */
  ghost predicate BackendByteSound(h: Hook, a: nat, memory: map<nat, Byte>, base: map<nat, Byte>)
    requires a in h.saved
  {
    && a in memory && a in base
    && if Records(h, a) then
         && h.saved[a] == base[a]
         && (h.captured ==> OriginalAt(h.patch.value, a) == base[a] && PatchedAt(h.patch.value, a) == memory[a])
       else memory[a] == base[a]
  }

  ghost predicate HookSound(h: Hook, sites: map<nat, ReturnSite>, memory: map<nat, Byte>, base: map<nat, Byte>) {
    && (h.installed || h.sites != {} ==> Live(h)) && Prepared(h)
    && (forall a :: a in h.sites ==> a in sites && h.payload == Some(sites[a].payload))
    && (forall a {:trigger BackendOwns(h, a)} :: BackendOwns(h, a) ==> !SiteOwns(sites, a) && BackendByteSound(h, a, memory, base))
    && (forall a {:trigger Honest(h, a, base[a])} :: a in base ==> Honest(h, a, base[a]))
  }

  /** No two backends hold a byte, none holds one that another captured record would rewrite, and no two captured
      records would rewrite the same byte. */
  ghost predicate Apart(h: Hook, other: Hook) {
    && (forall a :: BackendOwns(h, a) ==> Neutral(other, a) && !BackendOwns(other, a))
    && (forall a :: Neutral(h, a) || Neutral(other, a))
  }

  /** A record that was never captured still has the zeros it was prepared with for patched bytes. */
  predicate Prepared(h: Hook) {
    !h.captured && h.patch.Some? ==> forall k :: 0 <= k < |h.patch.value.patched| ==> h.patch.value.patched[k] == 0
  }

  /** The state every sequence of installs, unhooks and foreign writes keeps. `base` is the code as it would be
      without the managed patches. */
  ghost predicate Sound(hooks: seq<Hook>, sites: map<nat, ReturnSite>, memory: map<nat, Byte>, base: map<nat, Byte>) {
    && memory.Keys == base.Keys
    && (forall i :: 0 <= i < |hooks| ==> HookSound(hooks[i], sites, memory, base))
    && (forall i, j :: 0 <= i < |hooks| && 0 <= j < |hooks| && i != j ==> Apart(hooks[i], hooks[j]))
    && (forall at :: at in sites ==> SiteSound(hooks, sites[at], at, memory, base))
    && (forall a {:trigger Unpatched(hooks, sites, a)} :: a in memory && Unpatched(hooks, sites, a) ==> memory[a] == base[a])
  }

  // ---- What normalization shows ----

  predicate Rewrites(h: Hook, a: nat, v: Byte) {
    Records(h, a) && PatchedAt(h.patch.value, a) == v != OriginalAt(h.patch.value, a)
  }

  /** A return site of a live hook's payload takes `v` at `a` for its own branch. */
  ghost predicate SiteTakes(hooks: seq<Hook>, sites: map<nat, ReturnSite>, a: nat, v: Byte) {
    var at: nat := InstructionOf(a);
    && at in sites && Visited(hooks, sites[at].payload)
    && |sites[at].original| == |sites[at].patched| == 4
    && sites[at].patched[a % 4] == v != sites[at].original[a % 4]
  }

  /** Some live record, or a return site of a live hook's payload, takes `v` at `a` for its own patch. */
  ghost predicate Masks(hooks: seq<Hook>, sites: map<nat, ReturnSite>, a: nat, v: Byte) {
    (exists i :: 0 <= i < |hooks| && Rewrites(hooks[i], a, v)) || SiteTakes(hooks, sites, a, v)
  }

  /** Record `i` takes `v`, and no newer one does. */
  ghost predicate NewestTaker(hooks: seq<Hook>, a: nat, v: Byte, i: nat) {
    i < |hooks| && Rewrites(hooks[i], a, v) && forall j :: i < j < |hooks| ==> !Rewrites(hooks[j], a, v)
  }

  /** The captured record `k` puts a zero back for `v`, or for what the newest record to take a zero has put there. */
  ghost predicate PutsZero(hooks: seq<Hook>, a: nat, v: Byte, k: nat) {
    && k < |hooks| && hooks[k].captured && !Neutral(hooks[k], a) && OriginalAt(hooks[k].patch.value, a) == 0
    && (v == PatchedAt(hooks[k].patch.value, a)
        || (v == 0 && exists n: nat :: k < n && NewestTaker(hooks, a, 0, n)
                                       && OriginalAt(hooks[n].patch.value, a) == PatchedAt(hooks[k].patch.value, a)))
  }

  /** Where `v` stands, the records leave a zero: the byte itself, or one that a record puts back; none takes it. */
  ghost predicate LeaveZero(hooks: seq<Hook>, a: nat, v: Byte) {
    || (v == 0 && forall j :: 0 <= j < |hooks| ==> !Rewrites(hooks[j], a, 0))
    || exists k: nat :: PutsZero(hooks, a, v, k) && forall j :: 0 <= j < k ==> !Rewrites(hooks[j], a, 0)
  }

  /** The newer records leave a zero, record `i`, which was never captured, takes it, and no older record takes what
      it puts there. */
  ghost predicate Diverts(hooks: seq<Hook>, a: nat, v: Byte, base: Byte, i: nat) {
    && i < |hooks| && !hooks[i].captured && Records(hooks[i], a)
    && OriginalAt(hooks[i].patch.value, a) !in {0, base} && LeaveZero(hooks[i + 1..], a, v)
    && forall j :: 0 <= j < i ==> !Rewrites(hooks[j], a, OriginalAt(hooks[i].patch.value, a))
  }

  /** The same as the peel meets it: record `i` takes what the newer ones leave. */
  ghost predicate TakesOnWalk(hooks: seq<Hook>, a: nat, v: Byte, base: Byte, i: nat) {
    && i < |hooks| && !hooks[i].captured && Rewrites(hooks[i], a, PeelHooks(hooks[i + 1..], a, v))
    && OriginalAt(hooks[i].patch.value, a) != base
    && forall j :: 0 <= j < i ==> !Rewrites(hooks[j], a, OriginalAt(hooks[i].patch.value, a))
  }

  /** A record that was never captured puts a byte there that is neither the base byte nor anybody's patch. */
  ghost predicate Hijacked(hooks: seq<Hook>, sites: map<nat, ReturnSite>, a: nat, v: Byte, base: Byte) {
    exists i: nat :: Diverts(hooks, a, v, base, i) && !SiteTakes(hooks, sites, a, OriginalAt(hooks[i].patch.value, a))
  }

  lemma {:induction false} Untouched(hooks: seq<Hook>, a: nat, v: Byte)
    requires forall i :: 0 <= i < |hooks| ==> !Rewrites(hooks[i], a, v)
    ensures PeelHooks(hooks, a, v) == v
  {
    if hooks != [] {
      var n := |hooks| - 1;
      assert forall i :: 0 <= i < n ==> hooks[..n][i] == hooks[i];
      Untouched(hooks[..n], a, v);
    }
  }

  /** Taking off the newest record first does not change who diverts. */
  lemma DivertsOlder(hooks: seq<Hook>, a: nat, v: Byte, base: Byte, i: nat)
    requires hooks != [] && i < |hooks| - 1
    ensures var n := |hooks| - 1;
            TakesOnWalk(hooks, a, v, base, i) <==> TakesOnWalk(hooks[..n], a, PeelHook(hooks[n], a, v), base, i)
  {
    var n := |hooks| - 1;
    assert hooks[i + 1..][..n - i - 1] == hooks[..n][i + 1..];
    assert hooks[i + 1..][n - i - 1] == hooks[n];
    assert forall j :: 0 <= j < i ==> hooks[..n][j] == hooks[j];
  }

  /** Whoever diverts, some record has taken the value that came in. */
  lemma DivertsTaken(hooks: seq<Hook>, a: nat, v: Byte, base: Byte, i: nat)
    requires TakesOnWalk(hooks, a, v, base, i)
    ensures exists k :: 0 <= k < |hooks| && Rewrites(hooks[k], a, v)
  {
    var newer := hooks[i + 1..];
    if forall k :: 0 <= k < |newer| ==> !Rewrites(newer[k], a, v) {
      Untouched(newer, a, v);
    } else {
      var k :| 0 <= k < |newer| && Rewrites(newer[k], a, v);
      assert newer[k] == hooks[i + 1 + k];
    }
  }

  /** The records alone: one that diverts decides. */
  lemma {:induction false} DivertedPeel(hooks: seq<Hook>, a: nat, v: Byte, base: Byte, i: nat)
    requires TakesOnWalk(hooks, a, v, base, i)
    ensures PeelHooks(hooks, a, v) == OriginalAt(hooks[i].patch.value, a)
  {
    var n := |hooks| - 1;
    var next := PeelHook(hooks[n], a, v);
    if i == n {
      assert hooks[n + 1..] == [];
      assert forall j :: 0 <= j < n ==> hooks[..n][j] == hooks[j];
      Untouched(hooks[..n], a, next);
    } else {
      DivertsOlder(hooks, a, v, base, i);
      DivertedPeel(hooks[..n], a, next, base, i);
    }
  }

  /** Without one, any record that takes the value leads to the base byte. */
  lemma {:induction false} HonestPeel(hooks: seq<Hook>, a: nat, v: Byte, base: Byte)
    requires forall i :: 0 <= i < |hooks| ==> Honest(hooks[i], a, base)
    requires forall i: nat :: !TakesOnWalk(hooks, a, v, base, i)
    ensures PeelHooks(hooks, a, v) == if exists i :: 0 <= i < |hooks| && Rewrites(hooks[i], a, v) then base else v
  {
    if hooks != [] {
      var n := |hooks| - 1;
      var next := PeelHook(hooks[n], a, v);
      assert forall i :: 0 <= i < n ==> hooks[..n][i] == hooks[i];
      forall i: nat
        ensures !TakesOnWalk(hooks[..n], a, next, base, i)
      {
        if i < n {
          DivertsOlder(hooks, a, v, base, i);
        }
      }
      HonestPeel(hooks[..n], a, next, base);
      NewestRecord(hooks, a, v, base);
    }
  }

  /** The newest record's turn, when it does not divert. */
  lemma NewestRecord(hooks: seq<Hook>, a: nat, v: Byte, base: Byte)
    requires hooks != [] && Honest(hooks[|hooks| - 1], a, base) && !TakesOnWalk(hooks, a, v, base, |hooks| - 1)
    ensures var n := |hooks| - 1;
            var next := PeelHook(hooks[n], a, v);
            && (next == v <==> !Rewrites(hooks[n], a, v))
            && (next != v ==> next == base || exists i :: 0 <= i < n && Rewrites(hooks[i], a, next))
  {
    assert hooks[|hooks| - 1 + 1..] == [];
  }

  // ---- The walk, in terms of the records alone ----

  /** What the walk needs of the records at `a`. */
  ghost predicate Orderly(hooks: seq<Hook>, a: nat, base: Byte) {
    && (forall i :: 0 <= i < |hooks| ==> Honest(hooks[i], a, base) && Prepared(hooks[i]))
    && (forall i, j :: 0 <= i < |hooks| && 0 <= j < |hooks| && i != j ==> Neutral(hooks[i], a) || Neutral(hooks[j], a))
  }

  lemma {:induction false} NewestTakes(hooks: seq<Hook>, a: nat, v: Byte, k: nat)
    requires NewestTaker(hooks, a, v, k)
    ensures PeelHooks(hooks, a, v) == PeelHooks(hooks[..k], a, OriginalAt(hooks[k].patch.value, a))
  {
    var n: nat := |hooks| - 1;
    if k < n {
      assert hooks[..n][..k] == hooks[..k] && hooks[..n][k] == hooks[k];
      assert PeelHook(hooks[n], a, v) == v;
      NewestTakes(hooks[..n], a, v, k);
    }
  }

  lemma {:induction false} SomeNewest(hooks: seq<Hook>, a: nat, v: Byte, i: nat)
    requires i < |hooks| && Rewrites(hooks[i], a, v)
    ensures exists k: nat :: NewestTaker(hooks, a, v, k)
  {
    var n: nat := |hooks| - 1;
    if Rewrites(hooks[n], a, v) {
      assert NewestTaker(hooks, a, v, n);
    } else {
      SomeNewest(hooks[..n], a, v, i);
      var k: nat :| NewestTaker(hooks[..n], a, v, k);
      assert forall j :: k < j < n ==> hooks[..n][j] == hooks[j];
      assert NewestTaker(hooks, a, v, k);
    }
  }

  lemma PrefixOrderly(hooks: seq<Hook>, a: nat, base: Byte, k: nat)
    requires Orderly(hooks, a, base) && k <= |hooks|
    ensures Orderly(hooks[..k], a, base)
  {
  }

  lemma NewerOrderly(hooks: seq<Hook>, a: nat, base: Byte, k: nat)
    requires Orderly(hooks, a, base) && k <= |hooks|
    ensures Orderly(hooks[k..], a, base)
  {
  }

  /** Below the one captured record that rewrites `a`, its base byte stays zero unless a record takes it. */
  lemma BelowPatch(hooks: seq<Hook>, a: nat, base: Byte, k: nat)
    requires Orderly(hooks, a, base) && k < |hooks| && hooks[k].captured && !Neutral(hooks[k], a)
    ensures PeelHooks(hooks[..k], a, base) == 0 <==> base == 0 && forall j :: 0 <= j < k ==> !Rewrites(hooks[j], a, 0)
  {
    var older := hooks[..k];
    if i: nat :| i < k && Rewrites(hooks[i], a, base) {
      assert older[i] == hooks[i];
      SomeNewest(older, a, base, i);
      var u: nat :| NewestTaker(older, a, base, u);
      NewestTakes(older, a, base, u);
      assert older[u] == hooks[u] && !hooks[u].captured && base == 0;
      Untouched(older[..u], a, OriginalAt(hooks[u].patch.value, a));
    } else {
      Untouched(older, a, base);
    }
  }

  /** A byte that some captured record takes. */
  lemma TakenByPatch(hooks: seq<Hook>, a: nat, base: Byte, v: Byte, k: nat)
    requires Orderly(hooks, a, base) && NewestTaker(hooks, a, v, k) && hooks[k].captured
    ensures PeelHooks(hooks, a, v) == 0 <==> base == 0 && forall j :: 0 <= j < k ==> !Rewrites(hooks[j], a, 0)
  {
    NewestTakes(hooks, a, v, k);
    BelowPatch(hooks, a, base, k);
  }

  /** The records leave a zero exactly when `LeaveZero` says so. */
  lemma ZeroLeft(hooks: seq<Hook>, a: nat, v: Byte, base: Byte)
    requires Orderly(hooks, a, base)
    ensures PeelHooks(hooks, a, v) == 0 <==> LeaveZero(hooks, a, v)
  {
    if i: nat :| i < |hooks| && Rewrites(hooks[i], a, v) {
      SomeNewest(hooks, a, v, i);
      var t: nat :| NewestTaker(hooks, a, v, t);
      if hooks[t].captured {
        TakenByPatch(hooks, a, base, v, t);
        PatchPutsZero(hooks, a, v, base, t);
        assert PutsZero(hooks, a, v, t) <==> base == 0;
      } else {
        ZeroTaken(hooks, a, base, t);
      }
    } else {
      Untouched(hooks, a, v);
    }
  }

  lemma PatchPutsZero(hooks: seq<Hook>, a: nat, v: Byte, base: Byte, t: nat)
    requires Orderly(hooks, a, base) && NewestTaker(hooks, a, v, t) && hooks[t].captured
    ensures forall k: nat :: PutsZero(hooks, a, v, k) <==> base == 0 && k == t
    ensures v == 0 ==> base != 0
  {
    assert !Neutral(hooks[t], a);
  }

  /** A zero that the uncaptured record `t` takes comes back only through a captured record below it. */
  lemma ZeroTaken(hooks: seq<Hook>, a: nat, base: Byte, t: nat)
    requires Orderly(hooks, a, base) && NewestTaker(hooks, a, 0, t) && !hooks[t].captured
    ensures PeelHooks(hooks, a, 0) == 0 <==> LeaveZero(hooks, a, 0)
  {
    var older, put := hooks[..t], OriginalAt(hooks[t].patch.value, a);
    NewestTakes(hooks, a, 0, t);
    forall k: nat | PutsZero(hooks, a, 0, k)
      ensures k < t && Rewrites(older[k], a, put)
    {
      NewestIsOne(hooks, a, 0, t);
    }
    if i: nat :| i < t && Rewrites(older[i], a, put) {
      SomeNewest(older, a, put, i);
      var c: nat :| NewestTaker(older, a, put, c);
      assert older[c] == hooks[c] && hooks[c].captured;
      PrefixOrderly(hooks, a, base, t);
      TakenByPatch(older, a, base, put, c);
      assert forall j :: 0 <= j < c ==> older[j] == hooks[j];
      assert base == 0 ==> PutsZero(hooks, a, 0, c);
      assert forall k: nat :: PutsZero(hooks, a, 0, k) ==> k == c;
    } else {
      Untouched(older, a, put);
    }
  }

  lemma NewestIsOne(hooks: seq<Hook>, a: nat, v: Byte, t: nat)
    requires NewestTaker(hooks, a, v, t)
    ensures forall n: nat :: NewestTaker(hooks, a, v, n) ==> n == t
  {
  }

  lemma DivertsOnWalk(hooks: seq<Hook>, a: nat, v: Byte, base: Byte, i: nat)
    requires Orderly(hooks, a, base)
    ensures Diverts(hooks, a, v, base, i) <==> TakesOnWalk(hooks, a, v, base, i)
  {
    if i < |hooks| {
      NewerOrderly(hooks, a, base, i + 1);
      ZeroLeft(hooks[i + 1..], a, v, base);
    }
  }

  /** For every byte that may stand at `a`: normalization shows the base byte where some patch takes it for its own,
      and the byte itself otherwise - unless a record that was never captured puts another one there. */
  lemma PeelExact(hooks: seq<Hook>, sites: map<nat, ReturnSite>, memory: map<nat, Byte>, base: map<nat, Byte>,
                  a: nat, v: Byte)
    requires Sound(hooks, sites, memory, base) && a in base
    ensures var shown := Peel(hooks, sites, a, v);
            if Hijacked(hooks, sites, a, v, base[a]) then shown != base[a]
            else shown == if Masks(hooks, sites, a, v) then base[a] else v
  {
    SoundOrderly(hooks, sites, memory, base, a);
    forall i: nat
      ensures Diverts(hooks, a, v, base[a], i) <==> TakesOnWalk(hooks, a, v, base[a], i)
    {
      DivertsOnWalk(hooks, a, v, base[a], i);
    }
    SitePeel(hooks, sites, memory, base, a);
    if i: nat :| Diverts(hooks, a, v, base[a], i) {
      DivertsTaken(hooks, a, v, base[a], i);
      DivertedPeel(hooks, a, v, base[a], i);
      if j: nat :| Diverts(hooks, a, v, base[a], j)
                   && !SiteTakes(hooks, sites, a, OriginalAt(hooks[j].patch.value, a)) {
        DivertedPeel(hooks, a, v, base[a], j);
      }
    } else {
      HonestPeel(hooks, a, v, base[a]);
    }
  }

  lemma SoundOrderly(hooks: seq<Hook>, sites: map<nat, ReturnSite>, memory: map<nat, Byte>, base: map<nat, Byte>, a: nat)
    requires Sound(hooks, sites, memory, base) && a in base
    ensures Orderly(hooks, a, base[a])
  {
    forall i | 0 <= i < |hooks|
      ensures Honest(hooks[i], a, base[a]) && Prepared(hooks[i])
    {
      assert HookSound(hooks[i], sites, memory, base);
    }
    forall i, j | 0 <= i < |hooks| && 0 <= j < |hooks| && i != j
      ensures Neutral(hooks[i], a) || Neutral(hooks[j], a)
    {
      assert Apart(hooks[i], hooks[j]);
    }
  }

  lemma SitePeel(hooks: seq<Hook>, sites: map<nat, ReturnSite>, memory: map<nat, Byte>, base: map<nat, Byte>, a: nat)
    requires Sound(hooks, sites, memory, base) && a in base
    ensures forall w: Byte {:trigger PeelSites(hooks, sites, a, w)} ::
              PeelSites(hooks, sites, a, w) == if SiteTakes(hooks, sites, a, w) then base[a] else w
    ensures !SiteTakes(hooks, sites, a, base[a])
  {
    var at: nat := InstructionOf(a);
    if at in sites {
      assert SiteSound(hooks, sites[at], at, memory, base);
      assert a == at + a % 4;
      assert SiteByteSound(sites[at], at, a, memory, base);
    }
  }

  /** So the byte comes back as base exactly when it is base or masked and no uncaptured record is in the way. */
  lemma ShownAsBase(hooks: seq<Hook>, sites: map<nat, ReturnSite>, memory: map<nat, Byte>, base: map<nat, Byte>,
                    a: nat, v: Byte)
    requires Sound(hooks, sites, memory, base) && a in base
    ensures Peel(hooks, sites, a, v) == base[a] <==>
            (v == base[a] || Masks(hooks, sites, a, v)) && !Hijacked(hooks, sites, a, v, base[a])
  {
    PeelExact(hooks, sites, memory, base, a, v);
  }

  lemma {:induction false} ConsumerExists(hooks: seq<Hook>, at: nat)
    requires Consumers(hooks, at) > 0
    ensures exists i :: 0 <= i < |hooks| && at in hooks[i].sites
  {
    var n := |hooks| - 1;
    if at !in hooks[n].sites {
      ConsumerExists(hooks[..n], at);
      var i :| 0 <= i < n && at in hooks[..n][i].sites;
      assert at in hooks[i].sites;
    }
  }

  /** A backend whose bytes were never captured holds `a`. */
  ghost predicate HeldUncaptured(hooks: seq<Hook>, a: nat) {
    exists i :: 0 <= i < |hooks| && !hooks[i].captured && BackendOwns(hooks[i], a)
  }

  /** A managed byte is base or masked, except under a backend whose bytes were never captured. */
  lemma ManagedMasked(hooks: seq<Hook>, sites: map<nat, ReturnSite>, memory: map<nat, Byte>, base: map<nat, Byte>, a: nat)
    requires Sound(hooks, sites, memory, base) && a in memory && !HeldUncaptured(hooks, a)
    ensures memory[a] == base[a] || Masks(hooks, sites, a, memory[a])
  {
    if memory[a] != base[a] {
      if SiteOwns(sites, a) {
        OwnedSiteTakes(hooks, sites, memory, base, a);
      } else {
        assert !Unpatched(hooks, sites, a);
        var i :| 0 <= i < |hooks| && BackendOwns(hooks[i], a);
        assert HookSound(hooks[i], sites, memory, base);
        assert BackendByteSound(hooks[i], a, memory, base);
        assert Rewrites(hooks[i], a, memory[a]);
      }
    }
  }

  lemma OwnedSiteTakes(hooks: seq<Hook>, sites: map<nat, ReturnSite>, memory: map<nat, Byte>, base: map<nat, Byte>, a: nat)
    requires Sound(hooks, sites, memory, base) && a in memory && SiteOwns(sites, a) && memory[a] != base[a]
    ensures SiteTakes(hooks, sites, a, memory[a])
  {
    var at: nat := InstructionOf(a);
    assert SiteSound(hooks, sites[at], at, memory, base);
    ConsumerExists(hooks, at);
    var i :| 0 <= i < |hooks| && at in hooks[i].sites;
    assert HookSound(hooks[i], sites, memory, base);
    assert a == at + a % 4;
    assert SiteByteSound(sites[at], at, a, memory, base);
  }

  /** What normalization makes of the managed memory: the base image, exactly where no record that was never
      captured is in the way and no backend holds bytes nobody captured. */
  lemma NormalizedIsBase(hooks: seq<Hook>, sites: map<nat, ReturnSite>, memory: map<nat, Byte>, base: map<nat, Byte>,
                         a: nat)
    requires Sound(hooks, sites, memory, base) && a in memory
    ensures Peel(hooks, sites, a, memory[a]) == base[a] <==>
            && !Hijacked(hooks, sites, a, memory[a], base[a])
            && (HeldUncaptured(hooks, a) ==> memory[a] == base[a] || Masks(hooks, sites, a, memory[a]))
  {
    ShownAsBase(hooks, sites, memory, base, a, memory[a]);
    if !HeldUncaptured(hooks, a) {
      ManagedMasked(hooks, sites, memory, base, a);
    }
  }

  /** With every record captured, normalizing the managed memory gives the base image everywhere. */
  lemma CapturedIsBase(hooks: seq<Hook>, sites: map<nat, ReturnSite>, memory: map<nat, Byte>, base: map<nat, Byte>, a: nat)
    requires Sound(hooks, sites, memory, base) && a in memory
    requires forall i :: 0 <= i < |hooks| && Live(hooks[i]) ==> hooks[i].captured
    ensures Peel(hooks, sites, a, memory[a]) == base[a]
  {
    assert forall i :: 0 <= i < |hooks| ==> HookSound(hooks[i], sites, memory, base);
    NormalizedIsBase(hooks, sites, memory, base, a);
  }
}
