/** Root slots, generated-root leases and strong handles of the VM adapter
    (adapters/flutter_vm/flutter_vm.cpp:30-53, 1585-1606, 1639-1683 and 1767-1843). */
module RootPool {
  import opened Wrappers
  import opened Machine

  const ROOT_SLOTS: nat := 128
  const LEASES: nat := 4
  const ROOTS_PER_LEASE: nat := 96

  datatype Lease = Lease(used: bool, slots: seq<nat>)

  datatype Status = Ok | InvalidArgument | Busy | HandleInvalid

  /** Who a used slot belongs to: position `index` of a lease, or a strong handle. */
  datatype Owner = LeaseSlot(lease: nat, index: nat) | StrongHandle(handle: nat)

  /** Each used slot has one owner, each owner its slot, and free slots hold null. `handles` maps a live handle to
      its root slot, or to none when it is weak. */
  ghost predicate Sound(used: seq<bool>, raw: seq<U64>, leases: seq<Lease>, handles: map<nat, Option<nat>>,
                        owner: map<nat, Owner>, nullRaw: U64)
  {
    && |used| == |raw| == ROOT_SLOTS && |leases| == LEASES
    && (forall slot: nat :: slot in owner <==> slot < |used| && used[slot])
    && (forall slot :: 0 <= slot < |used| && !used[slot] ==> raw[slot] == nullRaw)
    && (forall l, i :: 0 <= l < |leases| && leases[l].used && 0 <= i < |leases[l].slots| ==>
                         && leases[l].slots[i] in owner && owner[leases[l].slots[i]] == LeaseSlot(l, i))
    && (forall h :: h in handles && handles[h].Some? ==>
                      handles[h].value in owner && owner[handles[h].value] == StrongHandle(h))
    && (forall slot :: slot in owner ==> Claims(leases, handles, owner[slot], slot))
    && (forall l :: 0 <= l < |leases| ==> |leases[l].slots| <= ROOTS_PER_LEASE)
  }

  predicate Claims(leases: seq<Lease>, handles: map<nat, Option<nat>>, owner: Owner, slot: nat) {
    match owner
    case LeaseSlot(l, i) => l < |leases| && leases[l].used && i < |leases[l].slots| && leases[l].slots[i] == slot
    case StrongHandle(h) => h in handles && handles[h] == Some(slot)
  }

  function Free(used: seq<bool>): set<nat> {
    set slot: nat | slot < |used| && !used[slot]
  }

  /** What the generated roots of a lease hold. */
  function Values(raw: seq<U64>, slots: seq<nat>): (values: seq<U64>)
    requires forall i :: 0 <= i < |slots| ==> slots[i] < |raw|
    ensures |values| == |slots| && forall i :: 0 <= i < |slots| ==> values[i] == raw[slots[i]]
  {
    seq(|slots|, i requires 0 <= i < |slots| => raw[slots[i]])
  }

  class Pool {
    const used: array<bool>
    const raw: array<U64>
    const leases: array<Lease>
    const nullRaw: U64
    var handles: map<nat, Option<nat>>
    ghost var owner: map<nat, Owner>

    ghost predicate Valid()
      reads this, used, raw, leases
    {
      Sound(used[..], raw[..], leases[..], handles, owner, nullRaw)
    }

    constructor (nullRaw: U64)
      ensures Valid() && fresh(used) && fresh(raw) && fresh(leases)
      ensures handles == map[] && this.nullRaw == nullRaw && |Free(used[..])| == 128
      ensures used.Length == raw.Length == 128 && leases.Length == 4
    {
      used := new bool[ROOT_SLOTS](_ => false);
      raw := new U64[ROOT_SLOTS](_ => nullRaw);
      leases := new Lease[LEASES](_ => Lease(false, []));
      this.nullRaw := nullRaw;
      handles, owner := map[], map[];
      new;
      AllFree(used[..]);
    }

    predicate Live(lease: nat)
      reads leases
    {
      lease < leases.Length && leases[lease].used
    }

    /** First fit. */
    method AcquireRoot() returns (slot: Option<nat>)
      requires used.Length == ROOT_SLOTS
      modifies used
      ensures slot.None? <==> Free(old(used[..])) == {}
      ensures slot.None? ==> used[..] == old(used[..])
      ensures slot.Some? ==>
                && slot.value < used.Length && !old(used[slot.value])
                && (forall k :: 0 <= k < slot.value ==> old(used[k]))
                && used[..] == old(used[..])[slot.value := true]
    {
      for index := 0 to used.Length
        invariant used[..] == old(used[..])
        invariant forall k :: 0 <= k < index ==> used[k]
      {
        if !used[index] {
          assert index in Free(used[..]);
          used[index] := true;
          return Some(index);
        }
      }
      return None;
    }

    method ReleaseRoot(slot: nat)
      requires used.Length == raw.Length == ROOT_SLOTS
      modifies used, raw
      ensures slot < ROOT_SLOTS ==>
                used[..] == old(used[..])[slot := false] && raw[..] == old(raw[..])[slot := nullRaw]
      ensures slot >= ROOT_SLOTS ==> used[..] == old(used[..]) && raw[..] == old(raw[..])
    {
      if slot >= used.Length {
        return;
      }
      raw[slot] := nullRaw;
      used[slot] := false;
    }

    method AcquireLease() returns (lease: Option<nat>)
      requires Valid()
      modifies leases
      ensures Valid()
      ensures lease.None? <==> forall l :: 0 <= l < LEASES ==> old(leases[l].used)
      ensures lease.None? ==> leases[..] == old(leases[..])
      ensures lease.Some? ==>
                && lease.value < LEASES && !old(leases[lease.value].used)
                && leases[..] == old(leases[..])[lease.value := Lease(true, [])]
    {
      for l := 0 to leases.Length
        invariant leases[..] == old(leases[..])
        invariant forall k :: 0 <= k < l ==> leases[k].used
      {
        if !leases[l].used {
          leases[l] := Lease(true, []);
          return Some(l);
        }
      }
      return None;
    }

    /** Takes one more root for the lease, holding `value`. */
    method PinOne(lease: nat, value: U64) returns (acquired: bool, slot: nat)
      requires Valid() && Live(lease) && |leases[lease].slots| < ROOTS_PER_LEASE
      modifies this`owner, used, raw, leases
      ensures Valid() && acquired == (Free(old(used[..])) != {})
      ensures !acquired ==> used[..] == old(used[..]) && raw[..] == old(raw[..]) && leases[..] == old(leases[..])
      ensures acquired ==>
                && slot < ROOT_SLOTS && !old(used[slot]) && used[..] == old(used[..])[slot := true]
                && raw[..] == old(raw[..])[slot := value]
                && leases[..] == old(leases[..])[lease := Lease(true, old(leases[lease].slots) + [slot])]
    {
      slot := 0;
      var root := AcquireRoot();
      if root.None? {
        return false, slot;
      }
      slot := root.value;
      raw[slot] := value;
      ghost var index := |leases[lease].slots|;
      leases[lease] := Lease(true, leases[lease].slots + [slot]);
      owner := owner[slot := LeaseSlot(lease, index)];
      assert used[..] == old(used[..])[slot := true] && raw[..] == old(raw[..])[slot := value];
      return true, slot;
    }

    /** Gives back every root of a live lease, then the lease; `values` are what the roots last held. */
    method DropLease(lease: nat) returns (values: seq<U64>)
      requires Valid() && Live(lease)
      modifies this`owner, used, raw, leases
      ensures Valid() && Dropped(old(used[..]), old(raw[..]), old(leases[lease].slots), used[..], raw[..], nullRaw)
      ensures leases[..] == old(leases[..])[lease := Lease(false, [])]
      ensures (forall i :: 0 <= i < |old(leases[lease].slots)| ==> old(leases[lease].slots)[i] < ROOT_SLOTS)
      ensures values == Values(old(raw[..]), old(leases[lease].slots))
    {
      var slots := leases[lease].slots;
      ghost var used0, raw0 := used[..], raw[..];
      LeaseSlotsDistinct(used0, raw0, leases[..], handles, owner, nullRaw, lease);
      values := [];
      for index := 0 to |slots|
        invariant leases[..] == old(leases[..]) && owner == old(owner) && handles == old(handles)
        invariant values == Values(raw0, slots[..index])
        invariant Dropped(used0, raw0, slots[..index], used[..], raw[..], nullRaw)
      {
        assert slots[index] !in slots[..index] && slots[..index + 1] == slots[..index] + [slots[index]];
        values := values + [raw[slots[index]]];
        ReleaseRoot(slots[index]);
      }
      assert slots[..|slots|] == slots;
      DroppedSound(used0, raw0, leases[..], handles, owner, nullRaw, lease, used[..], raw[..]);
      leases[lease] := Lease(false, []);
      owner := owner - (set slot | slot in slots);
      assert leases[..] == old(leases[..])[lease := Lease(false, [])];
    }

    /** Succeeds exactly when a lease is free and enough slots are; otherwise the pool is as it was. */
    method PinGeneratedRoots(values: seq<U64>, ownerMatches: bool) returns (status: Status, lease: nat)
      requires Valid()
      modifies this`owner, used, raw, leases
      ensures Valid()
      ensures status == if values == [] || |values| > 96 || !ownerMatches then InvalidArgument
                        else if (forall l :: 0 <= l < LEASES ==> old(leases[l].used))
                                || |Free(old(used[..]))| < |values| then Busy
                        else Ok
      ensures status != Ok ==> used[..] == old(used[..]) && raw[..] == old(raw[..])
      ensures status != Ok ==> forall l :: 0 <= l < LEASES ==>
                                 leases[l].used == old(leases[l].used) && (leases[l].used ==> leases[l] == old(leases[l]))
      ensures status == Ok ==>
                && lease < LEASES && !old(leases[lease].used)
                && leases[..] == old(leases[..])[lease := Lease(true, leases[lease].slots)]
                && Filled(old(used[..]), old(raw[..]), leases[lease].slots, values, used[..], raw[..])
    {
      lease := 0;
      if values == [] || |values| > ROOTS_PER_LEASE || !ownerMatches {
        return InvalidArgument, lease;
      }
      var free := AcquireLease();
      if free.None? {
        return Busy, lease;
      }
      lease := free.value;
      var filled := FillLease(lease, values);
      return if filled then Ok else Busy, lease;
    }

    /** Pins one root per value, or gives the lease back. */
    method FillLease(lease: nat, values: seq<U64>) returns (filled: bool)
      requires Valid() && Live(lease) && leases[lease].slots == [] && |values| <= ROOTS_PER_LEASE
      modifies this`owner, used, raw, leases
      ensures Valid() && filled == (|Free(old(used[..]))| >= |values|)
      ensures !filled ==> used[..] == old(used[..]) && raw[..] == old(raw[..])
      ensures !filled ==> leases[..] == old(leases[..])[lease := Lease(false, [])]
      ensures filled ==>
                && leases[..] == old(leases[..])[lease := Lease(true, leases[lease].slots)]
                && Filled(old(used[..]), old(raw[..]), leases[lease].slots, values, used[..], raw[..])
    {
      assert values[..0] == [];
      for index := 0 to |values|
        invariant Valid() && Live(lease)
        invariant leases[..] == old(leases[..])[lease := leases[lease]] && |leases[lease].slots| == index
        invariant Filled(old(used[..]), old(raw[..]), leases[lease].slots, values[..index], used[..], raw[..])
        invariant |Free(used[..])| == |Free(old(used[..]))| - index
      {
        var acquired := PinNext(lease, values, index, old(used[..]), old(raw[..]));
        if !acquired {
          RollBack(lease, values[..index], old(used[..]), old(raw[..]));
          return false;
        }
      }
      assert values[..|values|] == values;
      return true;
    }

    method PinNext(lease: nat, values: seq<U64>, index: nat, ghost used0: seq<bool>, ghost raw0: seq<U64>)
      returns (acquired: bool)
      requires Valid() && Live(lease) && |leases[lease].slots| == index < |values| <= ROOTS_PER_LEASE
      requires Filled(used0, raw0, leases[lease].slots, values[..index], used[..], raw[..])
      modifies this`owner, used, raw, leases
      ensures Valid() && Live(lease) && leases[..] == old(leases[..])[lease := leases[lease]]
      ensures acquired == (Free(old(used[..])) != {})
      ensures !acquired ==> used[..] == old(used[..]) && raw[..] == old(raw[..]) && leases[..] == old(leases[..])
      ensures acquired ==>
                && |leases[lease].slots| == index + 1 && |Free(used[..])| == |Free(old(used[..]))| - 1
                && Filled(used0, raw0, leases[lease].slots, values[..index + 1], used[..], raw[..])
    {
      ghost var used1, raw1, slots1 := used[..], raw[..], leases[lease].slots;
      var slot;
      acquired, slot := PinOne(lease, values[index]);
      if acquired {
        FilledOneMore(used0, raw0, slots1, values[..index], used1, raw1, slot, values[index]);
        assert values[..index + 1] == values[..index] + [values[index]];
      }
    }

    method RollBack(lease: nat, ghost values: seq<U64>, ghost used0: seq<bool>, ghost raw0: seq<U64>)
      requires Valid() && Live(lease)
      requires Filled(used0, raw0, leases[lease].slots, values, used[..], raw[..])
      requires forall slot :: 0 <= slot < |used0| && !used0[slot] ==> raw0[slot] == nullRaw
      modifies this`owner, used, raw, leases
      ensures Valid() && used[..] == used0 && raw[..] == raw0
      ensures leases[..] == old(leases[..])[lease := Lease(false, [])]
    {
      ghost var used1, raw1, slots := used[..], raw[..], leases[lease].slots;
      var _ := DropLease(lease);
      FilledThenDropped(used0, raw0, slots, values, used1, raw1, used[..], raw[..], nullRaw);
    }

    method GeneratedRootGet(lease: nat, index: nat) returns (status: Status, value: U64)
      requires Valid()
      ensures status == if Live(lease) && index < |leases[lease].slots| then Ok else InvalidArgument
      ensures status == Ok ==>
                leases[lease].slots[index] < raw.Length && value == raw[leases[lease].slots[index]]
    {
      if lease >= leases.Length || !leases[lease].used || index >= |leases[lease].slots| {
        return InvalidArgument, 0;
      }
      return Ok, raw[leases[lease].slots[index]];
    }

    /** Changes this one root of this one lease; strong handles' roots and other leases' stay. */
    method GeneratedRootSet(lease: nat, index: nat, value: U64) returns (status: Status)
      requires Valid()
      modifies raw
      ensures Valid()
      ensures status == if Live(lease) && index < |leases[lease].slots| then Ok else InvalidArgument
      ensures status != Ok ==> raw[..] == old(raw[..])
      ensures status == Ok ==>
                leases[lease].slots[index] < ROOT_SLOTS && raw[..] == old(raw[..])[leases[lease].slots[index] := value]
      ensures status == Ok ==>
                && (forall l :: 0 <= l < LEASES && Live(l) ==> InRange(leases[l].slots))
                && Values(raw[..], leases[lease].slots) == Values(old(raw[..]), leases[lease].slots)[index := value]
                && forall l :: 0 <= l < LEASES && Live(l) && l != lease ==>
                                 Values(raw[..], leases[l].slots) == Values(old(raw[..]), leases[l].slots)
    {
      if lease >= leases.Length || !leases[lease].used || index >= |leases[lease].slots| {
        return InvalidArgument;
      }
      var slot := leases[lease].slots[index];
      raw[slot] := value;
      assert raw[..] == old(raw[..])[slot := value];
      assert owner[slot] == LeaseSlot(lease, index);
      return Ok;
    }

    /** Returns, position by position, what the roots last held, and frees exactly the lease's slots. */
    method UnpinGeneratedRoots(lease: nat, count: nat) returns (status: Status, values: seq<U64>)
      requires Valid()
      modifies this`owner, used, raw, leases
      ensures Valid()
      ensures status == if old(Live(lease)) && count == |old(leases[lease].slots)| then Ok else InvalidArgument
      ensures status != Ok ==> used[..] == old(used[..]) && raw[..] == old(raw[..]) && leases[..] == old(leases[..])
      ensures status == Ok ==>
                && leases[..] == old(leases[..])[lease := Lease(false, [])]
                && InRange(old(leases[lease].slots)) && values == Values(old(raw[..]), old(leases[lease].slots))
                && Dropped(old(used[..]), old(raw[..]), old(leases[lease].slots), used[..], raw[..], nullRaw)
    {
      if lease >= leases.Length || !leases[lease].used || count != |leases[lease].slots| {
        return InvalidArgument, [];
      }
      values := DropLease(lease);
      return Ok, values;
    }

    /** A strong handle keeps the slot it took; a weak one, or a failure, gives it back at once. `handle` is the
        address of the new handle record. */
    method RetainObject(value: U64, weak: bool, handle: nat, hasLocal: bool, hasWeak: bool) returns (status: Status)
      requires Valid() && handle !in handles
      modifies this, used, raw
      ensures Valid()
      ensures status == if Free(old(used[..])) == {} then Busy
                        else if !hasLocal || (weak && !hasWeak) then HandleInvalid else Ok
      ensures status != Ok || weak ==> used[..] == old(used[..]) && raw[..] == old(raw[..])
      ensures status != Ok ==> handles == old(handles)
      ensures status == Ok && weak ==> handles == old(handles)[handle := None]
      ensures status == Ok && !weak ==>
                && handle in handles && handles[handle].Some? && handles == old(handles)[handle := handles[handle]]
                && var slot := handles[handle].value;
                && slot < ROOT_SLOTS && !old(used[slot])
                && used[..] == old(used[..])[slot := true] && raw[..] == old(raw[..])[slot := value]
    {
      var root := AcquireRoot();
      if root.None? {
        return Busy;
      }
      var slot := root.value;
      raw[slot] := value;
      if !hasLocal || weak {
        ReleaseRoot(slot);
        assert used[..] == old(used[..]) && raw[..] == old(raw[..]);
        if !hasLocal || !hasWeak {
          return HandleInvalid;
        }
        handles := handles[handle := None];
      } else {
        KeepRoot(handle, slot, old(used[..]), old(raw[..]));
      }
      return Ok;
    }

    method KeepRoot(handle: nat, slot: nat, ghost used0: seq<bool>, ghost raw0: seq<U64>)
      requires Sound(used0, raw0, leases[..], handles, owner, nullRaw) && handle !in handles
      requires slot < ROOT_SLOTS && !used0[slot] && used[..] == used0[slot := true]
      requires raw.Length == ROOT_SLOTS && raw[..] == raw0[slot := raw[slot]]
      modifies this`handles, this`owner
      ensures Valid() && handles == old(handles)[handle := Some(slot)]
    {
      handles := handles[handle := Some(slot)];
      owner := owner[slot := StrongHandle(handle)];
    }

    method ReleaseObject(handle: nat)
      requires Valid() && handle in handles
      modifies this, used, raw
      ensures Valid() && handles == old(handles) - {handle}
      ensures match old(handles)[handle]
              case None => used[..] == old(used[..]) && raw[..] == old(raw[..])
              case Some(slot) =>
                && slot < ROOT_SLOTS && old(used[slot])
                && used[..] == old(used[..])[slot := false] && raw[..] == old(raw[..])[slot := nullRaw]
    {
      if handles[handle].Some? {
        var slot := handles[handle].value;
        ReleaseRoot(slot);
        owner := owner - {slot};
      }
      handles := handles - {handle};
    }

    /** The collector moves what used slots hold; a free slot holds null, which never moves. */
    method Relocate(moved: map<nat, U64>)
      requires Valid()
      modifies raw
      ensures Valid()
      ensures forall slot :: 0 <= slot < ROOT_SLOTS ==>
                raw[slot] == if used[slot] && slot in moved then moved[slot] else old(raw[slot])
    {
      for slot := 0 to raw.Length
        invariant forall k :: 0 <= k < slot ==> raw[k] == if used[k] && k in moved then moved[k] else old(raw[k])
        invariant forall k :: slot <= k < raw.Length ==> raw[k] == old(raw[k])
      {
        if used[slot] && slot in moved {
          raw[slot] := moved[slot];
        }
      }
    }
  }

  predicate InRange(slots: seq<nat>) {
    forall i :: 0 <= i < |slots| ==> slots[i] < ROOT_SLOTS
  }

  /** `slots` are free and null, everything else is as it was. */
  ghost predicate Dropped(used0: seq<bool>, raw0: seq<U64>, slots: seq<nat>, used: seq<bool>, raw: seq<U64>, nullRaw: U64) {
    && |used| == |used0| == |raw| == |raw0| == ROOT_SLOTS
    && (forall slot :: 0 <= slot < |used| ==> used[slot] == (used0[slot] && slot !in slots))
    && (forall slot :: 0 <= slot < |raw| ==> raw[slot] == if slot in slots then nullRaw else raw0[slot])
  }

  /** `slots` are distinct, were free and now hold `values`; everything else is as it was. */
  ghost predicate Filled(used0: seq<bool>, raw0: seq<U64>, slots: seq<nat>, values: seq<U64>, used: seq<bool>, raw: seq<U64>) {
    && |used| == |used0| == |raw| == |raw0| == ROOT_SLOTS && |slots| == |values|
    && (forall slot :: 0 <= slot < |used| ==> used[slot] == (used0[slot] || slot in slots))
    && (forall slot :: 0 <= slot < |raw| && slot !in slots ==> raw[slot] == raw0[slot])
    && (forall i :: 0 <= i < |slots| ==> slots[i] < ROOT_SLOTS && !used0[slots[i]] && raw[slots[i]] == values[i])
    && (forall i, j :: 0 <= i < j < |slots| ==> slots[i] != slots[j])
  }

  lemma FilledOneMore(used0: seq<bool>, raw0: seq<U64>, slots: seq<nat>, values: seq<U64>, used: seq<bool>,
                      raw: seq<U64>, slot: nat, value: U64)
    requires Filled(used0, raw0, slots, values, used, raw) && slot < ROOT_SLOTS && !used[slot]
    ensures Filled(used0, raw0, slots + [slot], values + [value], used[slot := true], raw[slot := value])
    ensures |Free(used[slot := true])| == |Free(used)| - 1
  {
    assert Free(used[slot := true]) == Free(used) - {slot};
    assert slot !in slots;
    forall k | 0 <= k < |used|
      ensures used[slot := true][k] == (used0[k] || k in slots + [slot])
    {
    }
  }

  lemma FilledThenDropped(used0: seq<bool>, raw0: seq<U64>, slots: seq<nat>, values: seq<U64>, used: seq<bool>,
                          raw: seq<U64>, used1: seq<bool>, raw1: seq<U64>, nullRaw: U64)
    requires Filled(used0, raw0, slots, values, used, raw) && Dropped(used, raw, slots, used1, raw1, nullRaw)
    requires forall slot :: 0 <= slot < |used0| && !used0[slot] ==> raw0[slot] == nullRaw
    ensures used1 == used0 && raw1 == raw0
  {
  }

  lemma LeaseSlotsDistinct(used: seq<bool>, raw: seq<U64>, leases: seq<Lease>, handles: map<nat, Option<nat>>,
                           owner: map<nat, Owner>, nullRaw: U64, lease: nat)
    requires Sound(used, raw, leases, handles, owner, nullRaw) && lease < |leases| && leases[lease].used
    ensures InRange(leases[lease].slots)
    ensures forall i, j :: 0 <= i < j < |leases[lease].slots| ==> leases[lease].slots[i] != leases[lease].slots[j]
  {
  }

  lemma DroppedSound(used: seq<bool>, raw: seq<U64>, leases: seq<Lease>, handles: map<nat, Option<nat>>,
                     owner: map<nat, Owner>, nullRaw: U64, lease: nat, used1: seq<bool>, raw1: seq<U64>)
    requires Sound(used, raw, leases, handles, owner, nullRaw) && lease < |leases| && leases[lease].used
    requires Dropped(used, raw, leases[lease].slots, used1, raw1, nullRaw)
    ensures Sound(used1, raw1, leases[lease := Lease(false, [])], handles,
                  owner - (set slot | slot in leases[lease].slots), nullRaw)
  {
    var slots := leases[lease].slots;
    var owner1, leases1 := owner - (set slot | slot in slots), leases[lease := Lease(false, [])];
    forall slot | slot in owner1
      ensures Claims(leases1, handles, owner1[slot], slot)
    {
      assert Claims(leases, handles, owner[slot], slot);
    }
  }

  lemma AllFree(used: seq<bool>)
    requires forall slot :: 0 <= slot < |used| ==> !used[slot]
    ensures |Free(used)| == |used|
  {
    if used == [] {
      assert Free(used) == {};
    } else {
      var n: nat := |used| - 1;
      AllFree(used[..n]);
      assert Free(used) == Free(used[..n]) + {n};
    }
  }

  // ---- Conservation ----

  function Used(used: seq<bool>): set<nat> {
    set slot: nat | slot < |used| && used[slot]
  }

  function Leased(leases: seq<Lease>): nat {
    if leases == [] then 0
    else Leased(leases[..|leases| - 1]) + (if leases[|leases| - 1].used then |leases[|leases| - 1].slots| else 0)
  }

  function Strong(handles: map<nat, Option<nat>>): set<nat> {
    set h | h in handles && handles[h].Some?
  }

  ghost function LeaseOwned(owner: map<nat, Owner>, n: nat): set<nat> {
    set slot | slot in owner && owner[slot].LeaseSlot? && owner[slot].lease < n
  }

  ghost function HandleOwned(owner: map<nat, Owner>): set<nat> {
    set slot | slot in owner && owner[slot].StrongHandle?
  }

  function Elements(slots: seq<nat>): set<nat> {
    set slot | slot in slots
  }

  lemma {:induction false} DistinctSlots(slots: seq<nat>)
    requires forall i, j :: 0 <= i < j < |slots| ==> slots[i] != slots[j]
    ensures |Elements(slots)| == |slots|
  {
    if slots != [] {
      var n := |slots| - 1;
      DistinctSlots(slots[..n]);
      assert Elements(slots) == Elements(slots[..n]) + {slots[n]};
    }
  }

  /** Position `i` of live lease `l` owns its slot, and only such positions own slots. */
  ghost predicate LeasesOwn(leases: seq<Lease>, owner: map<nat, Owner>) {
    && (forall l, i :: 0 <= l < |leases| && leases[l].used && 0 <= i < |leases[l].slots| ==>
                         leases[l].slots[i] in owner && owner[leases[l].slots[i]] == LeaseSlot(l, i))
    && (forall slot :: slot in owner && owner[slot].LeaseSlot? ==> Claims(leases, map[], owner[slot], slot))
  }

  lemma {:induction false} LeasedSlots(leases: seq<Lease>, owner: map<nat, Owner>, n: nat)
    requires LeasesOwn(leases, owner) && n <= |leases|
    ensures |LeaseOwned(owner, n)| == Leased(leases[..n])
  {
    if n > 0 {
      LeasedSlots(leases, owner, n - 1);
      assert leases[..n][..n - 1] == leases[..n - 1];
      OneMoreLease(leases, owner, n - 1);
    } else {
      assert LeaseOwned(owner, 0) == {};
    }
  }

  lemma OneMoreLease(leases: seq<Lease>, owner: map<nat, Owner>, l: nat)
    requires LeasesOwn(leases, owner) && l < |leases|
    ensures |LeaseOwned(owner, l + 1)| == |LeaseOwned(owner, l)| + if leases[l].used then |leases[l].slots| else 0
  {
    var slots := if leases[l].used then leases[l].slots else [];
    forall i, j | 0 <= i < j < |slots|
      ensures slots[i] != slots[j]
    {
      assert owner[slots[i]] == LeaseSlot(l, i) && owner[slots[j]] == LeaseSlot(l, j);
    }
    DistinctSlots(slots);
    var more := LeaseOwned(owner, l + 1) - LeaseOwned(owner, l);
    forall slot | slot in more
      ensures slot in Elements(slots)
    {
      assert Claims(leases, map[], owner[slot], slot);
    }
    assert more == Elements(slots);
    assert LeaseOwned(owner, l + 1) == LeaseOwned(owner, l) + more;
  }

  lemma {:induction false} HandleSlots(handles: map<nat, Option<nat>>, owner: map<nat, Owner>)
    requires forall h :: h in handles && handles[h].Some? ==>
                           handles[h].value in owner && owner[handles[h].value] == StrongHandle(h)
    requires forall slot :: slot in owner && owner[slot].StrongHandle? ==> Claims([], handles, owner[slot], slot)
    ensures |HandleOwned(owner)| == |Strong(handles)|
    decreases |handles|
  {
    if h :| h in handles && handles[h].Some? {
      var slot := handles[h].value;
      WithoutHandle(handles, owner, h, slot);
      HandleSlots(handles - {h}, owner - {slot});
    } else {
      assert HandleOwned(owner) == {} == Strong(handles);
    }
  }

  lemma WithoutHandle(handles: map<nat, Option<nat>>, owner: map<nat, Owner>, h: nat, slot: nat)
    requires h in handles && handles[h] == Some(slot) && slot in owner && owner[slot] == StrongHandle(h)
    ensures |HandleOwned(owner)| == |HandleOwned(owner - {slot})| + 1
    ensures |Strong(handles)| == |Strong(handles - {h})| + 1
  {
    assert HandleOwned(owner) == HandleOwned(owner - {slot}) + {slot};
    assert Strong(handles) == Strong(handles - {h}) + {h};
  }

  lemma SoundOwners(used: seq<bool>, raw: seq<U64>, leases: seq<Lease>, handles: map<nat, Option<nat>>,
                    owner: map<nat, Owner>, nullRaw: U64)
    requires Sound(used, raw, leases, handles, owner, nullRaw)
    ensures LeasesOwn(leases, owner) && owner.Keys == Used(used)
    ensures forall slot :: slot in owner && owner[slot].StrongHandle? ==> Claims([], handles, owner[slot], slot)
    ensures LeaseOwned(owner, |leases|) + HandleOwned(owner) == owner.Keys
  {
    forall slot | slot in owner
      ensures Claims(leases, handles, owner[slot], slot)
      ensures owner[slot].LeaseSlot? ==> Claims(leases, map[], owner[slot], slot)
      ensures owner[slot].StrongHandle? ==> Claims([], handles, owner[slot], slot)
    {
    }
  }

  /** Every used slot is accounted for: the slots of live leases plus one per strong handle. */
  lemma Conservation(used: seq<bool>, raw: seq<U64>, leases: seq<Lease>, handles: map<nat, Option<nat>>,
                     owner: map<nat, Owner>, nullRaw: U64)
    requires Sound(used, raw, leases, handles, owner, nullRaw)
    ensures |Used(used)| == Leased(leases) + |Strong(handles)|
    ensures |Used(used)| + |Free(used)| == ROOT_SLOTS
  {
    SoundOwners(used, raw, leases, handles, owner, nullRaw);
    LeasedSlots(leases, owner, |leases|);
    assert leases[..|leases|] == leases;
    HandleSlots(handles, owner);
    assert LeaseOwned(owner, |leases|) !! HandleOwned(owner);
    UsedOrFree(used);
  }

  ghost function Below(n: nat): (s: set<nat>)
    ensures |s| == n && forall k: nat :: k in s <==> k < n
  {
    if n == 0 then {} else Below(n - 1) + {n - 1}
  }

  lemma UsedOrFree(used: seq<bool>)
    ensures |Used(used)| + |Free(used)| == |used|
  {
    assert Used(used) !! Free(used) && Used(used) + Free(used) == Below(|used|);
  }

  /** No slot has two owners. */
  lemma OwnersApart(used: seq<bool>, raw: seq<U64>, leases: seq<Lease>, handles: map<nat, Option<nat>>,
                    owner: map<nat, Owner>, nullRaw: U64, a: Owner, b: Owner, slot: nat)
    requires Sound(used, raw, leases, handles, owner, nullRaw)
    requires Claims(leases, handles, a, slot) && Claims(leases, handles, b, slot)
    ensures a == b && slot < |used| && used[slot]
  {
    assert owner[slot] == a;
  }
}
