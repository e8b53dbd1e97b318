/** Entry targets, the code payloads they lie in, and the registry of both (src/core/method_model.h:31-46,
    86-287 and 316-489). */
module EntryTargets {
  import opened Wrappers
  import opened Machine

  /** The ownership receipt of a runtime image. */
  datatype Owner = Owner(runtimeGeneration: nat, engineEpoch: nat, groupEpoch: nat, imageId: nat, imageEpoch: nat)

  datatype Key = Key(owner: Owner, address: nat)

  datatype MethodIdentity = MethodIdentity(
    libraryUri: string, className: string, functionName: string, signature: string, entryKind: nat)

  /** A method identity without its entry kind. */
  datatype LogicalIdentity = LogicalIdentity(libraryUri: string, className: string, functionName: string, signature: string)

  datatype Proof = Unknown | Unique | Shared

  function Logical(m: MethodIdentity): LogicalIdentity {
    LogicalIdentity(m.libraryUri, m.className, m.functionName, m.signature)
  }

  function LogicalSet(aliases: seq<MethodIdentity>): set<LogicalIdentity> {
    set i | 0 <= i < |aliases| :: Logical(aliases[i])
  }

  function Level(p: Proof): nat {
    match p
    case Unknown => 0
    case Unique => 1
    case Shared => 2
  }

  /** A proof comes from nothing but a proof: unique from unique evidence about one alias, shared from shared evidence or
      from more than one alias. */
  predicate Combined(known: Proof, evidence: Proof, reported: nat, p: Proof) {
    && (p == Shared <==> known == Shared || evidence == Shared || reported > 1)
    && (p == Unique <==> reported <= 1 && known != Shared && evidence != Shared && (known == Unique || evidence == Unique))
  }

  /** So the level of a proof only rises. */
  lemma CombinedRises(known: Proof, evidence: Proof, reported: nat, p: Proof)
    requires Combined(known, evidence, reported, p)
    ensures Level(p) >= Level(known) && Level(p) >= Level(evidence)
  {
  }

  function Max(a: nat, b: nat): nat {
    if a > b then a else b
  }

  class CodePayload {
    const owner: Owner
    const start: nat
    const length: nat
    var codeObject: nat
    var exact: bool

    constructor (owner: Owner, start: nat, length: nat, codeObject: nat, exact: bool)
      ensures this.owner == owner && this.start == start && this.length == length
      ensures this.codeObject == codeObject && this.exact == exact
    {
      this.owner, this.start, this.length, this.codeObject, this.exact := owner, start, length, codeObject, exact;
    }
  }

  class EntryTarget {
    const owner: Owner
    const entry: nat
    var codeSize: nat
    var codeObject: nat
    var reported: nat
    var proof: Proof
    var payload: CodePayload
    var aliases: seq<MethodIdentity>
    var hookRecord: Option<nat>

    constructor (owner: Owner, entry: nat, codeSize: nat, codeObject: nat, reported: nat, proof: Proof, payload: CodePayload)
      ensures this.owner == owner && this.entry == entry && this.codeSize == codeSize && this.payload == payload
      ensures this.codeObject == codeObject && this.reported == Max(1, reported) && aliases == [] && hookRecord == None
      ensures this.proof == if reported > 1 then Shared else proof
    {
      this.owner, this.entry, this.codeSize, this.codeObject := owner, entry, codeSize, codeObject;
      this.reported, this.payload, aliases, hookRecord := Max(1, reported), payload, [], None;
      this.proof := if reported > 1 then Shared else proof;
    }

    predicate IsShared()
      reads this
    {
      proof == Shared || reported > 1 || |LogicalSet(aliases)| > 1
    }

    /** Unique evidence about a target that is not shared; and a shared target stays shared. */
    predicate HasProvenUniqueIdentity(): (unique: bool)
      reads this
      ensures unique <==> proof == Unique && !IsShared()
    {
      proof == Unique && reported <= 1 && |LogicalSet(aliases)| <= 1
    }

    /** The target starts in its payload and ends where the payload ends. */
    predicate Fits()
      reads this
    {
      payload.start <= entry && codeSize >= 1 && entry + codeSize == payload.start + payload.length
    }

    /** Accepts every size but a different known one; otherwise nothing changes. */
    method MergeEvidence(newSize: nat, newObject: nat, aliasCount: nat, newProof: Proof) returns (merged: bool)
      modifies this`codeSize, this`codeObject, this`reported, this`proof, payload`codeObject
      ensures merged <==> old(codeSize) == 0 || newSize == 0 || old(codeSize) == newSize
      ensures !merged ==> unchanged(this) && unchanged(payload)
      ensures merged ==> codeSize == if old(codeSize) == 0 then newSize else old(codeSize)
      ensures merged && newObject != 0 ==> codeObject == payload.codeObject == newObject
      ensures merged && newObject == 0 ==> codeObject == old(codeObject) && unchanged(payload)
      ensures merged ==> reported == (if aliasCount > old(reported) then aliasCount else old(reported))
      ensures merged ==> Combined(old(proof), newProof, reported, proof)
      ensures old(IsShared()) ==> IsShared()
    {
      if codeSize != 0 && newSize != 0 && codeSize != newSize {
        return false;
      }
      if codeSize == 0 {
        codeSize := newSize;
      }
      if newObject != 0 {
        codeObject := newObject;
        payload.codeObject := newObject;
      }
      if aliasCount > reported {
        reported := aliasCount;
      }
      if newProof == Shared || reported > 1 {
        proof := Shared;
      } else if newProof == Unique && proof == Unknown {
        proof := Unique;
      }
      return true;
    }

    /** Moves the target to `replacement`, but never a hooked one. */
    method MergeEvidenceAndUpgradePayload(newSize: nat, newObject: nat, aliasCount: nat, newProof: Proof,
                                          expected: CodePayload, replacement: CodePayload) returns (merged: bool)
      modifies this`codeSize, this`codeObject, this`reported, this`proof, this`payload, replacement`codeObject
      ensures merged <==>
                && old(payload) == expected && hookRecord == None
                && (old(codeSize) == 0 || newSize == 0 || old(codeSize) == newSize)
      ensures !merged ==> unchanged(this) && unchanged(replacement)
      ensures merged ==> payload == replacement && codeSize == if old(codeSize) == 0 then newSize else old(codeSize)
      ensures merged && newObject != 0 ==> codeObject == payload.codeObject == newObject
      ensures merged ==> reported == (if aliasCount > old(reported) then aliasCount else old(reported))
      ensures merged ==> Combined(old(proof), newProof, reported, proof)
      ensures old(IsShared()) ==> IsShared()
    {
      if payload != expected || hookRecord != None || (codeSize != 0 && newSize != 0 && codeSize != newSize) {
        return false;
      }
      if codeSize == 0 {
        codeSize := newSize;
      }
      if newObject != 0 {
        codeObject := newObject;
      }
      if aliasCount > reported {
        reported := aliasCount;
      }
      if newProof == Shared || reported > 1 {
        proof := Shared;
      } else if newProof == Unique && proof == Unknown {
        proof := Unique;
      }
      payload := replacement;
      if newObject != 0 {
        payload.codeObject := newObject;
      }
      return true;
    }

    /** Two logical functions make a target shared for good; two entry kinds of one function do not. */
    method AddAlias(identity: MethodIdentity)
      modifies this`aliases, this`reported, this`proof
      ensures aliases == if identity in old(aliases) then old(aliases) else old(aliases) + [identity]
      ensures LogicalSet(aliases) == old(LogicalSet(aliases)) + {Logical(identity)}
      ensures reported == if |LogicalSet(aliases)| > 1 then Max(old(reported), |LogicalSet(aliases)|) else old(reported)
      ensures proof == if |LogicalSet(aliases)| > 1 then Shared else old(proof)
      ensures old(IsShared()) ==> IsShared()
    {
      ghost var before := LogicalSet(aliases);
      LogicalAppend(aliases, identity);
      if identity in aliases {
        var i :| 0 <= i < |aliases| && aliases[i] == identity;
        assert Logical(aliases[i]) in LogicalSet(aliases);
        assert LogicalSet(aliases) + {Logical(identity)} == LogicalSet(aliases);
      } else {
        aliases := aliases + [identity];
      }
      assert LogicalSet(aliases) == before + {Logical(identity)};
      assert Logical(identity) in before ==> LogicalSet(aliases) == before;
      assert Logical(identity) !in before ==> |LogicalSet(aliases)| == |before| + 1;
      var distinct := DistinctLogicalFunctionAliasCount();
      if distinct > 1 {
        reported := Max(reported, distinct);
        proof := Shared;
      }
    }

    /** The nested loop counts each logical function once, whatever its entry kinds. */
    method DistinctLogicalFunctionAliasCount() returns (count: nat)
      ensures count == |LogicalSet(aliases)|
    {
      count := 0;
      assert LogicalSet(aliases[..0]) == {};
      for index := 0 to |aliases|
        invariant count == |LogicalSet(aliases[..index])|
      {
        var seen := false;
        for earlier := 0 to index
          invariant !seen
          invariant forall k :: 0 <= k < earlier ==> Logical(aliases[k]) != Logical(aliases[index])
        {
          if Logical(aliases[index]) == Logical(aliases[earlier]) {
            seen := true;
            assert Logical(aliases[..index][earlier]) in LogicalSet(aliases[..index]);
            break;
          }
        }
        assert aliases[..index + 1] == aliases[..index] + [aliases[index]];
        LogicalAppend(aliases[..index], aliases[index]);
        if seen {
          assert LogicalSet(aliases[..index + 1]) == LogicalSet(aliases[..index]);
        } else {
          count := count + 1;
        }
      }
      assert aliases[..|aliases|] == aliases;
    }

    method BindHookRecord(hook: nat)
      modifies this`hookRecord
      ensures hookRecord == Some(hook)
    {
      hookRecord := Some(hook);
    }

    method UnbindHookRecord(hook: nat)
      modifies this`hookRecord
      ensures hookRecord == if old(hookRecord) == Some(hook) then None else old(hookRecord)
    {
      if hookRecord == Some(hook) {
        hookRecord := None;
      }
    }
  }

  lemma LogicalAppend(aliases: seq<MethodIdentity>, m: MethodIdentity)
    ensures LogicalSet(aliases + [m]) == LogicalSet(aliases) + {Logical(m)}
  {
    var longer := aliases + [m];
    assert longer[|aliases|] == m;
    forall x | x in LogicalSet(aliases) + {Logical(m)}
      ensures x in LogicalSet(longer)
    {
      if x != Logical(m) {
        var i :| 0 <= i < |aliases| && x == Logical(aliases[i]);
        assert longer[i] == aliases[i];
      }
    }
  }

  // ---- The registry ----

  /** What a caller asks for; a zero start, length or image id is left to the registry. */
  datatype Request = Request(
    entry: U64, codeSize: U32, codeObject: U64, aliasCount: U32, proof: Proof, start: U64, length: U32,
    imageId: nat, owner: Owner)

  /** The request with its payload range and owner filled in. */
  datatype Claim = Claim(owner: Owner, start: nat, length: nat, explicit: bool)

  function Normalize(r: Request): (claim: Option<Claim>)
    ensures claim.Some? ==>
              && claim.value.start <= r.entry && r.codeSize >= 1
              && r.entry + r.codeSize == claim.value.start + claim.value.length < TWO_64
              && (!claim.value.explicit ==> claim.value.start == r.entry && claim.value.length == r.codeSize)
  {
    var owner := if r.owner.imageId == 0 then r.owner.(imageId := r.imageId) else r.owner;
    var imageId := if r.imageId == 0 then owner.imageId else r.imageId;
    if r.entry == 0 || owner.imageId != imageId then None
    else
      var explicit := r.start != 0 || r.length != 0;
      var start: nat := if r.start == 0 then r.entry else r.start;
      if start > r.entry then None
      else if r.length == 0 && (r.entry - start > 0xffff_ffff || r.codeSize > 0xffff_ffff - (r.entry - start)) then None
      else
        var length: nat := if r.length == 0 then r.entry - start + r.codeSize else r.length;
        if length == 0 || start > TWO_64 - 1 - length || r.entry >= start + length
           || r.codeSize > start + length - r.entry
        then None
        else if explicit && r.codeSize != start + length - r.entry then None
        else Some(Claim(owner, start, length, explicit))
  }

  /** Exactly the requests that name one image, have a size and an entry in their payload's range, and end where it ends;
      a range that is not named is the code itself, or reaches from the named start to the end of the code. */
  lemma NormalizeExactly(r: Request)
    ensures var start: nat := if r.start == 0 then r.entry else r.start;
            var end: nat := if r.length == 0 then r.entry + r.codeSize else start + r.length;
            && (Normalize(r).Some? <==>
                  && r.entry != 0 && r.codeSize >= 1
                  && (r.imageId == 0 || r.owner.imageId == 0 || r.imageId == r.owner.imageId)
                  && start <= r.entry && end == r.entry + r.codeSize && end - start < 0x1_0000_0000
                  && end < 0x1_0000_0000_0000_0000)
            && (Normalize(r).Some? ==>
                  Normalize(r).value == Claim(if r.owner.imageId == 0 then r.owner.(imageId := r.imageId) else r.owner,
                                              start, end - start, r.start != 0 || r.length != 0))
  {
  }

  class Registry {
    /** A null entry is an expired weak pointer. */
    var targets: map<Key, EntryTarget?>
    var payloads: map<Key, CodePayload?>
    ghost var Repr: set<object>

    ghost predicate Valid()
      reads this, Repr
    {
      && this in Repr
      && (forall k :: k in targets && targets[k] != null ==> TargetValid(k, targets[k]))
      && (forall k :: k in payloads && payloads[k] != null ==>
                        payloads[k] in Repr && k == Key(payloads[k].owner, payloads[k].start))
    }

    ghost predicate TargetValid(k: Key, t: EntryTarget)
      reads this, Repr
    {
      && t in Repr && k == Key(t.owner, t.entry) && t.Fits()
      && t.payload in Repr && t.payload.owner == t.owner
      && Key(t.owner, t.payload.start) in payloads && payloads[Key(t.owner, t.payload.start)] == t.payload
    }

    constructor ()
      ensures Valid() && targets == map[] && payloads == map[] && Repr == {this}
    {
      targets, payloads := map[], map[];
      Repr := {this};
    }

    /** The live payload registered for an owner and a start, if any. */
    function PayloadAt(owner: Owner, start: nat): CodePayload?
      reads this
    {
      if Key(owner, start) in payloads then payloads[Key(owner, start)] else null
    }

    /** Looks through the live payloads, dropping expired ones on the way. */
    method FindPayload(owner: Owner, start: nat) returns (found: CodePayload?)
      requires Valid()
      modifies this`payloads
      ensures Valid() && found == old(PayloadAt(owner, start)) == PayloadAt(owner, start)
      ensures forall k :: k in payloads ==> k in old(payloads) && payloads[k] == old(payloads)[k]
      ensures forall k :: k in old(payloads) && old(payloads)[k] != null ==> k in payloads
    {
      var rest := payloads.Keys;
      while rest != {}
        invariant rest <= payloads.Keys <= old(payloads.Keys)
        invariant forall k :: k in payloads ==> payloads[k] == old(payloads)[k]
        invariant forall k :: k in old(payloads) && old(payloads)[k] != null ==> k in payloads
        invariant Key(owner, start) in payloads && payloads[Key(owner, start)] != null ==> Key(owner, start) in rest
        decreases |rest|
      {
        var k :| k in rest;
        rest := rest - {k};
        var p := payloads[k];
        if p == null {
          payloads := payloads - {k};
        } else if p.owner == owner && p.start == start {
          return p;
        }
      }
      return null;
    }

    /** The payload found, or a new one; a different length is refused. */
    method FindOrCreatePayload(owner: Owner, start: nat, length: nat, codeObject: nat, exact: bool)
      returns (found: CodePayload?)
      requires Valid()
      modifies Repr
      ensures Valid() && fresh(Repr - old(Repr)) && targets == old(targets)
      ensures found == null <==> old(PayloadAt(owner, start)) != null && old(PayloadAt(owner, start)).length != length
      ensures found != null ==>
                && found == PayloadAt(owner, start) && found.owner == owner && found.start == start && found.length == length
                && (if old(PayloadAt(owner, start)) != null then
                      found == old(PayloadAt(owner, start)) && found.exact == (old(PayloadAt(owner, start).exact) || exact)
                    else fresh(found) && found.exact == exact)
      ensures forall k :: k in old(payloads) && old(payloads)[k] != null ==>
                            k in payloads && payloads[k] == old(payloads)[k]
      ensures forall k :: k in payloads && k != Key(owner, start) ==> k in old(payloads) && payloads[k] == old(payloads)[k]
      ensures forall p: CodePayload :: p in old(Repr) && p != found ==> unchanged(p)
      ensures forall t: EntryTarget :: t in old(Repr) ==> unchanged(t)
    {
      found := FindPayload(owner, start);
      if found != null {
        if found.length != length {
          return null;
        }
        if codeObject != 0 {
          found.codeObject := codeObject;
        }
        if exact {
          found.exact := true;
        }
        return found;
      }
      found := new CodePayload(owner, start, length, codeObject, exact);
      payloads := payloads[Key(owner, start) := found];
      Repr := Repr + {found};
    }

    /** The live target registered for an entry, if any. */
    function TargetAt(owner: Owner, entry: nat): EntryTarget?
      reads this
    {
      if Key(owner, entry) in targets then targets[Key(owner, entry)] else null
    }

    /** Whether the claim's payload range is free, or registered with the same length. */
    predicate RangeFree(c: Claim)
      reads this, Repr
      requires Valid()
    {
      PayloadAt(c.owner, c.start) == null || PayloadAt(c.owner, c.start).length == c.length
    }

    /** Exactly the claims the registry serves: a new target in a free range; a known target in its own range, or of
        its own size when no range is named; and a known target that may still move to a free range. */
    ghost predicate Accepts(r: Request, c: Claim)
      reads this, Repr
      requires Valid()
    {
      var t := TargetAt(c.owner, r.entry);
      if t == null then RangeFree(c)
      else
        && t.codeSize == r.codeSize
        && (c.explicit ==>
              || (t.payload.start == c.start && t.payload.length == c.length)
              || (!t.payload.exact && t.hookRecord == None && RangeFree(c)))
    }

    /** A request refused for its size only after the payload range it names has been looked up or registered. */
    ghost predicate RefusedLate(r: Request, c: Claim)
      reads this, Repr
      requires Valid()
    {
      var t := TargetAt(c.owner, r.entry);
      && t != null && c.explicit && (t.payload.start != c.start || t.payload.length != c.length)
      && !t.payload.exact && t.hookRecord == None && RangeFree(c) && t.codeSize != r.codeSize
    }

    /** At most the target and the payload of the request have been registered, and expired payloads dropped. */
    predicate OnlyAt(targetsBefore: map<Key, EntryTarget?>, payloadsBefore: map<Key, CodePayload?>, r: Request)
      reads this
    {
      && (forall k :: k in targets && !(Normalize(r).Some? && k == Key(Normalize(r).value.owner, r.entry)) ==>
            k in targetsBefore && targets[k] == targetsBefore[k])
      && (forall k :: k in payloads && !(Normalize(r).Some? && k == Key(Normalize(r).value.owner, Normalize(r).value.start)) ==>
            k in payloadsBefore && payloads[k] == payloadsBefore[k])
    }

    method GetOrCreate(r: Request) returns (target: EntryTarget?)
      requires Valid()
      modifies Repr
      ensures Valid() && fresh(Repr - old(Repr))
      ensures target != null <==> Normalize(r).Some? && old(Accepts(r, Normalize(r).value))
      ensures target != null ==>
                && var c := Normalize(r).value;
                && target == TargetAt(c.owner, r.entry) && target.Fits() && target.codeSize == r.codeSize
                && (old(TargetAt(c.owner, r.entry)) != null ==> target == old(TargetAt(c.owner, r.entry)))
                && (c.explicit ==> target.payload.start == c.start && target.payload.length == c.length && target.payload.exact)
      ensures target != null && old(TargetAt(Normalize(r).value.owner, r.entry)) == null ==>
                && var c := Normalize(r).value;
                target.hookRecord == None && target.payload.start == c.start && target.payload.length == c.length
                && (old(PayloadAt(c.owner, c.start)) == null ==> target.payload.exact == c.explicit)
                && target.proof == (if r.aliasCount > 1 then Shared else r.proof)
                && target.reported == (if r.aliasCount > 1 then r.aliasCount else 1)
      ensures OnlyAt(old(targets), old(payloads), r) && (target == null ==> targets == old(targets))
      ensures Normalize(r).Some? && old(RefusedLate(r, Normalize(r).value)) ==>
                var c := Normalize(r).value;
                PayloadAt(c.owner, c.start) != null && PayloadAt(c.owner, c.start).exact
      ensures forall t: EntryTarget :: t in old(Repr) && t != target ==> unchanged(t)
      ensures target != null ==> forall p: CodePayload :: p in old(Repr) && p != target.payload ==> unchanged(p)
      ensures target == null && !(Normalize(r).Some? && old(RefusedLate(r, Normalize(r).value))) ==>
                forall p: CodePayload :: p in old(Repr) ==> unchanged(p)
      ensures forall k :: k in old(targets) && old(targets)[k] != null ==> k in targets && targets[k] == old(targets)[k]
      ensures forall k :: k in old(payloads) && old(payloads)[k] != null ==> k in payloads && payloads[k] == old(payloads)[k]
      ensures target != null && old(TargetAt(Normalize(r).value.owner, r.entry)) == target ==>
                && (old(target.payload.exact) || old(target.hookRecord) != None ==> target.payload == old(target.payload))
                && target.reported == (if r.aliasCount > old(target.reported) then r.aliasCount else old(target.reported))
                && Combined(old(target.proof), r.proof, target.reported, target.proof)
                && target.hookRecord == old(target.hookRecord) && (old(target.IsShared()) ==> target.IsShared())
      ensures forall p: CodePayload :: p in old(Repr) ==> old(p.exact) ==> p.exact
    {
      var normalized := Normalize(r);
      if normalized.None? {
        return null;
      }
      var c := normalized.value;
      var existing := if Key(c.owner, r.entry) in targets then targets[Key(c.owner, r.entry)] else null;
      if existing != null {
        target := MergeExisting(existing, r, c);
        return target;
      }
      target := CreateTarget(r, c);
    }

    /** Another range than the target's own: the target moves there, or stays and is refused. */
    method MoveExisting(existing: EntryTarget, r: Request, c: Claim) returns (target: EntryTarget?)
      requires Valid() && Normalize(r) == Some(c) && existing == TargetAt(c.owner, r.entry)
      requires c.explicit && (existing.payload.start != c.start || existing.payload.length != c.length)
      modifies Repr
      ensures Valid() && fresh(Repr - old(Repr)) && targets == old(targets) && OnlyAt(targets, old(payloads), r)
      ensures target != null <==> old(Accepts(r, c))
      ensures target != null ==>
                && target == existing && target.codeSize == r.codeSize
                && target.payload.start == c.start && target.payload.length == c.length && target.payload.exact
                && target.reported == (if r.aliasCount > old(target.reported) then r.aliasCount else old(target.reported))
                && Combined(old(target.proof), r.proof, target.reported, target.proof)
                && target.hookRecord == old(target.hookRecord) && (old(target.IsShared()) ==> target.IsShared())
                && forall p: CodePayload :: p in old(Repr) && p != target.payload ==> unchanged(p)
      ensures forall k :: k in old(payloads) && old(payloads)[k] != null ==> k in payloads && payloads[k] == old(payloads)[k]
      ensures target == null ==> unchanged(existing)
      ensures target == null && !old(RefusedLate(r, c)) ==> forall p: CodePayload :: p in old(Repr) ==> unchanged(p)
      ensures old(RefusedLate(r, c)) ==> PayloadAt(c.owner, c.start) != null && PayloadAt(c.owner, c.start).exact
      ensures old(existing.payload.exact) || old(existing.hookRecord) != None ==> existing.payload == old(existing.payload)
      ensures forall t: EntryTarget :: t in old(Repr) && t != existing ==> unchanged(t)
      ensures forall p: CodePayload :: p in old(Repr) ==> old(p.exact) ==> p.exact
    {
      assert TargetValid(Key(c.owner, r.entry), existing);
      if existing.payload.exact || existing.hookRecord != None {
        return null;
      }
      var replacement := FindOrCreatePayload(c.owner, c.start, c.length, r.codeObject, true);
      if replacement == null {
        return null;
      }
      var moved := existing.MergeEvidenceAndUpgradePayload(
        r.codeSize, r.codeObject, r.aliasCount, r.proof, existing.payload, replacement);
      return if moved then existing else null;
    }

    method CreateTarget(r: Request, c: Claim) returns (target: EntryTarget?)
      requires Valid() && Normalize(r) == Some(c) && TargetAt(c.owner, r.entry) == null
      modifies Repr
      ensures Valid() && fresh(Repr - old(Repr)) && OnlyAt(old(targets), old(payloads), r)
      ensures target != null <==> old(RangeFree(c))
      ensures target == null ==> targets == old(targets) && forall p: CodePayload :: p in old(Repr) ==> unchanged(p)
      ensures target != null ==>
                && fresh(target) && targets == old(targets)[Key(c.owner, r.entry) := target]
                && target.Fits() && target.codeSize == r.codeSize && target.hookRecord == None
                && target.proof == (if r.aliasCount > 1 then Shared else r.proof)
                && target.reported == (if r.aliasCount > 1 then r.aliasCount else 1)
                && target.payload.start == c.start && target.payload.length == c.length
                && (c.explicit ==> target.payload.exact)
                && (old(PayloadAt(c.owner, c.start)) == null ==> target.payload.exact == c.explicit)
                && forall p: CodePayload :: p in old(Repr) && p != target.payload ==> unchanged(p)
      ensures forall k :: k in old(payloads) && old(payloads)[k] != null ==> k in payloads && payloads[k] == old(payloads)[k]
      ensures forall t: EntryTarget :: t in old(Repr) ==> unchanged(t)
      ensures forall p: CodePayload :: p in old(Repr) ==> old(p.exact) ==> p.exact
    {
      var payload := FindOrCreatePayload(c.owner, c.start, c.length, r.codeObject, c.explicit);
      if payload == null {
        return null;
      }
      target := new EntryTarget(c.owner, r.entry, r.codeSize, r.codeObject, r.aliasCount, r.proof, payload);
      targets := targets[Key(c.owner, r.entry) := target];
      Repr := Repr + {target};
    }

    method MergeExisting(existing: EntryTarget, r: Request, c: Claim) returns (target: EntryTarget?)
      requires Valid() && Normalize(r) == Some(c) && existing == TargetAt(c.owner, r.entry)
      modifies Repr
      ensures Valid() && fresh(Repr - old(Repr)) && targets == old(targets) && OnlyAt(targets, old(payloads), r)
      ensures target != null <==> old(Accepts(r, c))
      ensures target != null ==>
                && target == existing && target.codeSize == r.codeSize
                && (c.explicit ==> target.payload.start == c.start && target.payload.length == c.length && target.payload.exact)
      ensures forall k :: k in old(payloads) && old(payloads)[k] != null ==> k in payloads && payloads[k] == old(payloads)[k]
      ensures target == null && !old(RefusedLate(r, c)) ==>
                forall p: CodePayload :: p in old(Repr) ==> unchanged(p)
      ensures target != null ==> forall p: CodePayload :: p in old(Repr) && p != target.payload ==> unchanged(p)
      ensures target == null ==> unchanged(existing)
      ensures old(RefusedLate(r, c)) ==> PayloadAt(c.owner, c.start) != null && PayloadAt(c.owner, c.start).exact
      ensures old(existing.payload.exact || existing.hookRecord != None) ==> existing.payload == old(existing.payload)
      ensures target != null ==>
                && existing.reported == (if r.aliasCount > old(existing.reported) then r.aliasCount else old(existing.reported))
                && Combined(old(existing.proof), r.proof, existing.reported, existing.proof)
      ensures existing.hookRecord == old(existing.hookRecord)
      ensures old(existing.IsShared()) ==> existing.IsShared()
      ensures forall t: EntryTarget :: t in old(Repr) && t != existing ==> unchanged(t)
      ensures forall p: CodePayload :: p in old(Repr) ==> old(p.exact) ==> p.exact
    {
      assert TargetValid(Key(c.owner, r.entry), existing);
      var payload := existing.payload;
      if c.explicit && (payload.start != c.start || payload.length != c.length) {
        target := MoveExisting(existing, r, c);
        return target;
      }
      var merged := existing.MergeEvidence(r.codeSize, r.codeObject, r.aliasCount, r.proof);
      if !merged {
        return null;
      }
      if c.explicit {
        payload.exact := true;
      }
      return existing;
    }

    /** A request that was served is served again, by the same target; on its own it changes nothing but the target and the
        payload it names. */
    method AskedAgain(r: Request) returns (first: EntryTarget?, second: EntryTarget?)
      requires Valid()
      modifies Repr
      ensures Valid() && fresh(Repr - old(Repr))
      ensures first != null ==> second == first
    {
      first := GetOrCreate(r);
      second := null;
      if first != null {
        assert TargetValid(Key(Normalize(r).value.owner, r.entry), first);
        second := GetOrCreate(r);
      }
    }

    /** The proof and the alias count of the live target at a key, if there is one. */
    function ProofAt(k: Key): Option<(Proof, nat)>
      reads this, Repr
      requires Valid()
    {
      if k in targets && targets[k] != null then Some((targets[k].proof, targets[k].reported)) else None
    }

    /** One request changes the proof at the key it names only, and only as its evidence says. */
    method RequestAt(r: Request, k: Key)
      requires Valid()
      modifies Repr
      ensures Valid() && fresh(Repr - old(Repr))
      ensures Follows(old(ProofAt(k)), r, k, ProofAt(k))
    {
      ghost var before := ProofAt(k);
      ghost var was := if k in targets then targets[k] else null;
      assert was != null ==> TargetValid(k, was);
      var target := GetOrCreate(r);
      if target != null {
        assert TargetValid(Key(Normalize(r).value.owner, r.entry), target);
      }
      if k in targets && targets[k] != null {
        assert TargetValid(k, targets[k]);
        assert targets[k] == target || targets[k] == was;
      }
    }

    /** Over any sequence of requests: a target is proven unique, or shared, only if it was or if some request that names
        it says so. */
    method Requests(rs: seq<Request>, k: Key)
      requires Valid()
      modifies Repr
      ensures Valid() && fresh(Repr - old(Repr))
      ensures ProofAt(k).Some? && ProofAt(k).value.0 == Unique ==>
                || (old(ProofAt(k)).Some? && old(ProofAt(k)).value.0 == Unique)
                || exists i :: 0 <= i < |rs| && NamesKey(rs[i], k) && rs[i].proof == Unique
      ensures ProofAt(k).Some? && ProofAt(k).value.0 == Shared ==>
                || (old(ProofAt(k)).Some? && (old(ProofAt(k)).value.0 == Shared || old(ProofAt(k)).value.1 > 1))
                || exists i :: 0 <= i < |rs| && NamesKey(rs[i], k) && (rs[i].proof == Shared || rs[i].aliasCount > 1)
    {
      for n := 0 to |rs|
        invariant Valid() && fresh(Repr - old(Repr))
        invariant ProofAt(k).Some? && ProofAt(k).value.0 == Unique ==>
                    || (old(ProofAt(k)).Some? && old(ProofAt(k)).value.0 == Unique)
                    || exists i :: 0 <= i < n && NamesKey(rs[i], k) && rs[i].proof == Unique
        invariant ProofAt(k).Some? && (ProofAt(k).value.0 == Shared || ProofAt(k).value.1 > 1) ==>
                    || (old(ProofAt(k)).Some? && (old(ProofAt(k)).value.0 == Shared || old(ProofAt(k)).value.1 > 1))
                    || exists i :: 0 <= i < n && NamesKey(rs[i], k) && (rs[i].proof == Shared || rs[i].aliasCount > 1)
      {
        RequestAt(rs[n], k);
      }
    }

    /** Such a request pins down, for good, a provisional payload that other targets may lie in. */
    method RefusedRequestMakesExact(r: Request, other: Key) returns (target: EntryTarget?)
      requires Valid() && Normalize(r).Some? && RefusedLate(r, Normalize(r).value)
      requires other in payloads && payloads[other] != null && !payloads[other].exact
      requires other == Key(Normalize(r).value.owner, Normalize(r).value.start)
      modifies Repr
      ensures target == null && other in payloads && payloads[other] == old(payloads)[other] && payloads[other].exact
      ensures forall t: EntryTarget :: t in old(Repr) ==> unchanged(t)
      ensures Valid() && fresh(Repr - old(Repr))
    {
      target := GetOrCreate(r);
    }

    method Clear()
      requires Valid()
      modifies this
      ensures Valid() && targets == map[] && payloads == map[]
    {
      targets, payloads := map[], map[];
    }

    /** Forgets one image's targets and payloads; an epoch of zero means every incarnation of it. */
    method EraseImage(imageId: nat, imageEpoch: nat)
      requires Valid()
      modifies this
      ensures Valid() && Repr == old(Repr)
      ensures targets == map k | k in old(targets)
                               && (k.owner.imageId != imageId || (imageEpoch != 0 && k.owner.imageEpoch != imageEpoch))
                             :: old(targets)[k]
      ensures payloads == map k | k in old(payloads)
                                && (k.owner.imageId != imageId || (imageEpoch != 0 && k.owner.imageEpoch != imageEpoch))
                              :: old(payloads)[k]
    {
      targets := map k | k in targets && !OfImage(k, imageId, imageEpoch) :: targets[k];
      payloads := map k | k in payloads && !OfImage(k, imageId, imageEpoch) :: payloads[k];
    }

    /** The last strong reference to a target is gone. */
    method ExpireTarget(k: Key)
      requires Valid() && k in targets
      modifies this
      ensures Valid() && targets == old(targets)[k := null] && payloads == old(payloads) && Repr == old(Repr)
    {
      targets := targets[k := null];
    }

    /** The last strong reference to a payload is gone, so no live target lies in it. */
    method ExpirePayload(k: Key)
      requires Valid() && k in payloads
      requires forall t :: t in targets.Values && t != null ==> t.payload != payloads[k]
      modifies this
      ensures Valid() && payloads == old(payloads)[k := null] && targets == old(targets) && Repr == old(Repr)
    {
      ghost var gone := payloads[k];
      payloads := payloads[k := null];
      forall k1 | k1 in targets && targets[k1] != null
        ensures TargetValid(k1, targets[k1])
      {
        assert targets[k1] in targets.Values;
      }
    }

    /** Two registered targets of one owner whose payloads start together share one payload. */
    lemma OnePayloadPerRange(a: Key, b: Key)
      requires Valid() && a in targets && targets[a] != null && b in targets && targets[b] != null
      requires a.owner == b.owner && targets[a].payload.start == targets[b].payload.start
      ensures targets[a].payload == targets[b].payload
      ensures a.address + targets[a].codeSize == b.address + targets[b].codeSize
    {
      assert TargetValid(a, targets[a]) && TargetValid(b, targets[b]);
    }
  }

  predicate NamesKey(r: Request, k: Key) {
    Normalize(r).Some? && k == Key(Normalize(r).value.owner, r.entry)
  }

  /** What a request may make of the proof at a key: nothing, the proof it brings for a new target, or the two combined. */
  predicate Follows(before: Option<(Proof, nat)>, r: Request, k: Key, after: Option<(Proof, nat)>) {
    || after == before || (before.None? && after.None?)
    || (NamesKey(r, k) && before.None? && after.Some?
        && after.value == (if r.aliasCount > 1 then Shared else r.proof, if r.aliasCount > 1 then r.aliasCount else 1))
    || (NamesKey(r, k) && before.Some? && after.Some?
        && after.value.1 == (if r.aliasCount > before.value.1 then r.aliasCount else before.value.1)
        && Combined(before.value.0, r.proof, after.value.1, after.value.0))
  }

  predicate OfImage(k: Key, imageId: nat, imageEpoch: nat) {
    k.owner.imageId == imageId && (imageEpoch == 0 || k.owner.imageEpoch == imageEpoch)
  }

  /** An empty registry serves every request that names a sensible range. */
  method FirstRequest(r: Request) returns (registry: Registry, target: EntryTarget?)
    ensures fresh(registry) && registry.Valid()
    ensures target != null <==> Normalize(r).Some?
    ensures target != null ==>
              && target.entry == r.entry && target.codeSize == r.codeSize && target.owner == Normalize(r).value.owner
              && target.payload.start == Normalize(r).value.start && target.payload.length == Normalize(r).value.length
              && target.payload.exact == Normalize(r).value.explicit && target.hookRecord == None
              && target.proof == (if r.aliasCount > 1 then Shared else r.proof)
  {
    registry := new Registry();
    target := registry.GetOrCreate(r);
    if target != null {
      assert registry.TargetValid(Key(Normalize(r).value.owner, r.entry), target);
    }
  }

  /** Two targets, 100 of size 10 and 50 of size 70, each in a provisional payload of its own; then a request that
      places 100 in the second one's range, but with size 20. It is refused, and the second payload is exact. */
  method RefusedAfterAll(owner: Owner)
    returns (registry: Registry, second: EntryTarget, provisional: bool, third: EntryTarget?)
    requires owner.imageId != 0
    ensures fresh(registry) && registry.Valid() && provisional && third == null
    ensures second.payload.start == 50 && second.payload.length == 70 && second.payload.exact
  {
    registry := new Registry();
    var first := registry.GetOrCreate(Request(100, 10, 0, 1, Unknown, 0, 0, 0, owner));
    var known := registry.GetOrCreate(Request(50, 70, 0, 1, Unknown, 0, 0, 0, owner));
    second := known;
    provisional := !second.payload.exact;
    assert registry.TargetValid(Key(owner, 50), second) && registry.TargetValid(Key(owner, 100), first);
    var late := Request(100, 20, 0, 1, Unknown, 50, 70, 0, owner);
    third := registry.RefusedRequestMakesExact(late, Key(owner, 50));
  }
}
