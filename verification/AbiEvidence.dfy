/** The evidence solver (src/abi/evidence_solver.cpp, src/abi/evidence.h). */
module AbiEvidence {
  import opened Wrappers
  import opened Machine

  datatype Representation = UnknownRep | Tagged | UnboxedInt64 | UnboxedDouble | PairOfTagged
  datatype Source = UnknownSource | CompilerOracle | AotCodeAnalysis | VerifiedFixture
  datatype Proof = Unknown | Proven | Conflicting

  datatype SlotEvidence = SlotEvidence(representation: Representation, source: Source, proof: Proof)
  datatype ResolvedSlot = ResolvedSlot(representation: Representation, proof: Proof, sourceMask: bv32)

  datatype FunctionEvidence = FunctionEvidence(
    parameters: seq<SlotEvidence>, result: SlotEvidence,
    hasStackConvention: bool, mustUseStack: bool, lessDirectOverrides: bool,
    hasOptionalInfo: bool, hasOptional: bool,
    hasMaxRegisters: bool, maxRegisters: U32, isClosure: bool)

  datatype Resolution = Resolution(
    parameters: seq<ResolvedSlot>, result: ResolvedSlot,
    hasStackConvention: bool, mustUseStack: bool, lessDirectOverrides: bool,
    hasOptionalInfo: bool, hasOptional: bool,
    hasMaxRegisters: bool, maxRegisters: U32, isClosure: bool,
    fullyProven: bool, conflicting: bool)

  function SourceBit(source: Source): bv32 {
    match source
    case UnknownSource => 0
    case CompilerOracle => 1
    case AotCodeAnalysis => 2
    case VerifiedFixture => 4
  }

  // ---- One slot ----

  predicate Known(item: SlotEvidence) {
    item.proof != Unknown && item.representation != UnknownRep
  }

  /** The facts of a list, whatever their order and multiplicity. */
  ghost function Facts(evidence: seq<SlotEvidence>): set<SlotEvidence> {
    set item | item in evidence && item.proof != Unknown && item.representation != UnknownRep
  }

  ghost predicate AllProvenAs(facts: set<SlotEvidence>, rep: Representation) {
    forall item :: item in facts ==> item.proof == Proven && item.representation == rep
  }

  ghost predicate Names(facts: set<SlotEvidence>, source: Source) {
    exists item :: item in facts && item.source == source
  }

  function MaskFrom(oracle: bool, analysis: bool, fixture: bool): bv32 {
    match (oracle, analysis, fixture)
    case (false, false, false) => 0
    case (true, false, false) => 1
    case (false, true, false) => 2
    case (true, true, false) => 3
    case (false, false, true) => 4
    case (true, false, true) => 5
    case (false, true, true) => 6
    case (true, true, true) => 7
  }

  ghost function MaskOf(facts: set<SlotEvidence>): bv32 {
    MaskFrom(Names(facts, CompilerOracle), Names(facts, AotCodeAnalysis), Names(facts, VerifiedFixture))
  }

  /** The proof state a set of facts settles: unknown without facts, proven when all are proven and equal,
      conflicting otherwise. */
  ghost predicate SettlesProof(facts: set<SlotEvidence>, proof: Proof, representation: Representation) {
    match proof
    case Unknown => facts == {} && representation == UnknownRep
    case Proven => facts != {} && AllProvenAs(facts, representation) && representation != UnknownRep
    case Conflicting => facts != {} && representation == UnknownRep && forall rep :: !AllProvenAs(facts, rep)
  }

  /** The slot a set of facts settles; its mask names every source that contributed a fact. */
  ghost predicate Settles(facts: set<SlotEvidence>, slot: ResolvedSlot) {
    SettlesProof(facts, slot.proof, slot.representation) && slot.sourceMask == MaskOf(facts)
  }

  lemma SettlesOnce(facts: set<SlotEvidence>, a: ResolvedSlot, b: ResolvedSlot)
    requires Settles(facts, a) && Settles(facts, b)
    ensures a == b
  {
    if a.proof == Proven {
      var item :| item in facts;
    }
  }

  /** One item's turn: a conflict sticks, the first proven fact is kept, a different one is a conflict. */
  function Absorb(slot: ResolvedSlot, item: SlotEvidence): ResolvedSlot {
    if !Known(item) then slot
    else
      var mask := slot.sourceMask | SourceBit(item.source);
      if item.proof == Conflicting then ResolvedSlot(UnknownRep, Conflicting, mask)
      else if slot.proof == Unknown then ResolvedSlot(item.representation, Proven, mask)
      else if slot.proof == Proven && slot.representation != item.representation then
        ResolvedSlot(UnknownRep, Conflicting, mask)
      else slot.(sourceMask := mask)
  }

  method ResolveSlotEvidence(evidence: seq<SlotEvidence>) returns (resolved: ResolvedSlot)
    ensures Settles(Facts(evidence), resolved)
  {
    resolved := ResolvedSlot(UnknownRep, Unknown, 0);
    for k := 0 to |evidence|
      invariant Settles(Facts(evidence[..k]), resolved)
    {
      assert evidence[..k + 1] == evidence[..k] + [evidence[k]];
      FactsAppend(evidence[..k], evidence[k]);
      AbsorbStep(Facts(evidence[..k]), resolved, evidence[k]);
      resolved := Absorb(resolved, evidence[k]);
    }
    assert evidence[..|evidence|] == evidence;
  }

  lemma AbsorbStep(facts: set<SlotEvidence>, slot: ResolvedSlot, item: SlotEvidence)
    requires Settles(facts, slot)
    ensures Settles(facts + Fact(item), Absorb(slot, item))
  {
    if Known(item) {
      MaskStep(facts, item);
      AbsorbProof(facts, slot, item);
    } else {
      assert facts + Fact(item) == facts;
    }
  }

  lemma AbsorbProof(facts: set<SlotEvidence>, slot: ResolvedSlot, item: SlotEvidence)
    requires SettlesProof(facts, slot.proof, slot.representation) && Known(item)
    ensures SettlesProof(facts + {item}, Absorb(slot, item).proof, Absorb(slot, item).representation)
  {
    assert item in facts + {item};
    forall rep | AllProvenAs(facts + {item}, rep)
      ensures AllProvenAs(facts, rep) && item.proof == Proven && item.representation == rep
    {
    }
    if facts != {} {
      var earlier :| earlier in facts;
      assert forall rep :: AllProvenAs(facts, rep) ==> rep == earlier.representation;
    }
  }

  lemma MaskStep(facts: set<SlotEvidence>, item: SlotEvidence)
    ensures MaskOf(facts + {item}) == MaskOf(facts) | SourceBit(item.source)
  {
    var oracle, analysis, fixture :=
      Names(facts, CompilerOracle), Names(facts, AotCodeAnalysis), Names(facts, VerifiedFixture);
    forall source: Source
      ensures Names(facts + {item}, source) <==> Names(facts, source) || item.source == source
    {
      assert item in facts + {item};
      if Names(facts, source) {
        var known :| known in facts && known.source == source;
        assert known in facts + {item};
      }
    }
    MaskBit(oracle, analysis, fixture, item.source);
  }

  lemma MaskBit(oracle: bool, analysis: bool, fixture: bool, source: Source)
    ensures MaskFrom(oracle || source == CompilerOracle, analysis || source == AotCodeAnalysis,
                     fixture || source == VerifiedFixture)
         == MaskFrom(oracle, analysis, fixture) | SourceBit(source)
  {
  }

  // ---- A whole Function ----

  /** What the providers say about parameter `index`, in provider order. */
  function ParameterEvidence(providers: seq<FunctionEvidence>, index: nat): seq<SlotEvidence> {
    if providers == [] then []
    else
      var rest := ParameterEvidence(providers[..|providers| - 1], index);
      var last := providers[|providers| - 1];
      if index < |last.parameters| then rest + [last.parameters[index]] else rest
  }

  function ResultEvidence(providers: seq<FunctionEvidence>): seq<SlotEvidence> {
    if providers == [] then []
    else ResultEvidence(providers[..|providers| - 1]) + [providers[|providers| - 1].result]
  }

  ghost function ParameterFacts(providers: set<FunctionEvidence>, index: nat): set<SlotEvidence> {
    set p | p in providers && index < |p.parameters|
            && p.parameters[index].proof != Unknown && p.parameters[index].representation != UnknownRep :: p.parameters[index]
  }

  ghost function ResultFacts(providers: set<FunctionEvidence>): set<SlotEvidence> {
    set p | p in providers && p.result.proof != Unknown && p.result.representation != UnknownRep :: p.result
  }

  ghost function SetOf(providers: seq<FunctionEvidence>): set<FunctionEvidence> {
    set p | p in providers
  }

  /** Two providers that both state a convention fact state it differently. */
  predicate Clash(a: FunctionEvidence, b: FunctionEvidence) {
    || a.isClosure != b.isClosure
    || (a.hasOptionalInfo && b.hasOptionalInfo && a.hasOptional != b.hasOptional)
    || (a.hasStackConvention && b.hasStackConvention && a.mustUseStack != b.mustUseStack)
    || (a.hasMaxRegisters && b.hasMaxRegisters && a.maxRegisters != b.maxRegisters)
  }

  ghost predicate ConventionClash(providers: set<FunctionEvidence>) {
    exists a, b :: a in providers && b in providers && Clash(a, b)
  }

  /** The convention facts of a resolution: present when some provider states them and no provider clashes;
      the value then is what every stating provider says. */
  ghost predicate ConventionSettled(providers: set<FunctionEvidence>, r: Resolution) {
    var clash := ConventionClash(providers);
    && (r.hasStackConvention <==> !clash && exists p :: p in providers && p.hasStackConvention)
    && (r.hasOptionalInfo <==> !clash && exists p :: p in providers && p.hasOptionalInfo)
    && (r.hasMaxRegisters <==> !clash && exists p :: p in providers && p.hasMaxRegisters)
    && (r.lessDirectOverrides <==> exists p :: p in providers && p.lessDirectOverrides)
    && (!clash ==> forall p :: p in providers ==>
                                 && r.isClosure == p.isClosure
                                 && (p.hasStackConvention ==> r.mustUseStack == p.mustUseStack)
                                 && (p.hasOptionalInfo ==> r.hasOptional == p.hasOptional)
                                 && (p.hasMaxRegisters ==> r.maxRegisters == p.maxRegisters))
    && ((forall p :: p in providers ==> !p.hasStackConvention) ==> !r.mustUseStack)
    && ((forall p :: p in providers ==> !p.hasOptionalInfo) ==> !r.hasOptional)
    && ((forall p :: p in providers ==> !p.hasMaxRegisters) ==> r.maxRegisters == 0)
    && (providers == {} ==> !r.isClosure)
  }

  ghost predicate SlotsSettled(providers: set<FunctionEvidence>, count: nat, r: Resolution) {
    && |r.parameters| == count
    && (forall i :: 0 <= i < count ==> Settles(ParameterFacts(providers, i), r.parameters[i]))
    && Settles(ResultFacts(providers), r.result)
  }

  predicate SlotProven(slot: ResolvedSlot) {
    slot.proof == Proven && slot.representation != UnknownRep
  }

  ghost predicate AnySlotConflicts(r: Resolution) {
    r.result.proof == Conflicting || exists i :: 0 <= i < |r.parameters| && r.parameters[i].proof == Conflicting
  }

  /** `r` is what a set of providers resolves to. */
  ghost predicate Resolves(providers: set<FunctionEvidence>, count: nat, r: Resolution) {
    && SlotsSettled(providers, count, r)
    && ConventionSettled(providers, r)
    && (r.conflicting <==> ConventionClash(providers) || AnySlotConflicts(r))
    && (r.fullyProven <==>
        && !r.conflicting && r.hasStackConvention && r.hasOptionalInfo && r.hasMaxRegisters
        && SlotProven(r.result) && forall i :: 0 <= i < |r.parameters| ==> SlotProven(r.parameters[i]))
  }

  ghost function Fact(item: SlotEvidence): set<SlotEvidence> {
    if Known(item) then {item} else {}
  }

  lemma FactsAppend(evidence: seq<SlotEvidence>, item: SlotEvidence)
    ensures Facts(evidence + [item]) == Facts(evidence) + Fact(item)
  {
  }

  lemma SetOfAppend(providers: seq<FunctionEvidence>, last: FunctionEvidence)
    ensures SetOf(providers + [last]) == SetOf(providers) + {last}
  {
  }

  lemma {:induction false} ParameterFactsMatch(providers: seq<FunctionEvidence>, index: nat)
    ensures Facts(ParameterEvidence(providers, index)) == ParameterFacts(SetOf(providers), index)
  {
    if providers != [] {
      var before, last := providers[..|providers| - 1], providers[|providers| - 1];
      ParameterFactsMatch(before, index);
      assert providers == before + [last];
      SetOfAppend(before, last);
      if index < |last.parameters| {
        FactsAppend(ParameterEvidence(before, index), last.parameters[index]);
        assert ParameterFacts(SetOf(providers), index)
            == ParameterFacts(SetOf(before), index) + Fact(last.parameters[index]);
      } else {
        assert ParameterFacts(SetOf(providers), index) == ParameterFacts(SetOf(before), index);
      }
    }
  }

  lemma {:induction false} ResultFactsMatch(providers: seq<FunctionEvidence>)
    ensures Facts(ResultEvidence(providers)) == ResultFacts(SetOf(providers))
  {
    if providers != [] {
      var before, last := providers[..|providers| - 1], providers[|providers| - 1];
      ResultFactsMatch(before);
      assert providers == before + [last];
      SetOfAppend(before, last);
      FactsAppend(ResultEvidence(before), last.result);
      assert ResultFacts(SetOf(providers)) == ResultFacts(SetOf(before)) + Fact(last.result);
    }
  }

  /** The first value seen for each convention fact, and whether a later provider contradicted it. */
  datatype Conventions = Conventions(
    closure: Option<bool>, optional: Option<bool>, stack: Option<bool>, maxRegisters: Option<U32>,
    lessDirectOverrides: bool, conflicting: bool)

  ghost predicate SeenClosure(providers: set<FunctionEvidence>, value: Option<bool>) {
    && (value.Some? ==> exists p :: p in providers && p.isClosure == value.value)
    && forall p :: p in providers ==> value.Some?
  }

  ghost predicate SeenOptional(providers: set<FunctionEvidence>, value: Option<bool>) {
    && (value.Some? ==> exists p :: p in providers && p.hasOptionalInfo && p.hasOptional == value.value)
    && forall p :: p in providers && p.hasOptionalInfo ==> value.Some?
  }

  ghost predicate SeenStack(providers: set<FunctionEvidence>, value: Option<bool>) {
    && (value.Some? ==> exists p :: p in providers && p.hasStackConvention && p.mustUseStack == value.value)
    && forall p :: p in providers && p.hasStackConvention ==> value.Some?
  }

  ghost predicate SeenMax(providers: set<FunctionEvidence>, value: Option<U32>) {
    && (value.Some? ==> exists p :: p in providers && p.hasMaxRegisters && p.maxRegisters == value.value)
    && forall p :: p in providers && p.hasMaxRegisters ==> value.Some?
  }

  ghost predicate Gathered(providers: set<FunctionEvidence>, c: Conventions) {
    && SeenClosure(providers, c.closure) && SeenOptional(providers, c.optional)
    && SeenStack(providers, c.stack) && SeenMax(providers, c.maxRegisters)
    && (c.lessDirectOverrides <==> exists p :: p in providers && p.lessDirectOverrides)
    && (c.conflicting <==> ConventionClash(providers))
    && (!c.conflicting ==> forall p :: p in providers ==> !Contradicts(c, p))
  }

  /** A provider that disagrees with a value already seen. */
  predicate Contradicts(c: Conventions, p: FunctionEvidence) {
    || (c.closure.Some? && c.closure.value != p.isClosure)
    || (c.optional.Some? && p.hasOptionalInfo && c.optional.value != p.hasOptional)
    || (c.stack.Some? && p.hasStackConvention && c.stack.value != p.mustUseStack)
    || (c.maxRegisters.Some? && p.hasMaxRegisters && c.maxRegisters.value != p.maxRegisters)
  }

  /** One provider's turn: keep the first value of each fact, note a contradiction. */
  function Gather(c: Conventions, p: FunctionEvidence): Conventions {
    Conventions(
      if c.closure.None? then Some(p.isClosure) else c.closure,
      if c.optional.None? && p.hasOptionalInfo then Some(p.hasOptional) else c.optional,
      if c.stack.None? && p.hasStackConvention then Some(p.mustUseStack) else c.stack,
      if c.maxRegisters.None? && p.hasMaxRegisters then Some(p.maxRegisters) else c.maxRegisters,
      c.lessDirectOverrides || p.lessDirectOverrides,
      c.conflicting || Contradicts(c, p))
  }

  method GatherConventions(providers: seq<FunctionEvidence>) returns (c: Conventions)
    ensures Gathered(SetOf(providers), c)
  {
    c := Conventions(None, None, None, None, false, false);
    for k := 0 to |providers|
      invariant Gathered(SetOf(providers[..k]), c)
    {
      assert providers[..k + 1] == providers[..k] + [providers[k]];
      SetOfAppend(providers[..k], providers[k]);
      GatherStep(SetOf(providers[..k]), c, providers[k]);
      c := Gather(c, providers[k]);
    }
    assert providers[..|providers|] == providers;
  }

  lemma GatherStep(before: set<FunctionEvidence>, c: Conventions, p: FunctionEvidence)
    requires Gathered(before, c)
    ensures Gathered(before + {p}, Gather(c, p))
  {
    var after, d := before + {p}, Gather(c, p);
    assert p in after;
    SeenFlags(before, c, p);
    SeenValues(before, c, p);
    ClashStep(before, c, p);
    assert d.lessDirectOverrides <==> exists q :: q in after && q.lessDirectOverrides;
  }

  lemma SeenFlags(before: set<FunctionEvidence>, c: Conventions, p: FunctionEvidence)
    requires SeenClosure(before, c.closure) && SeenOptional(before, c.optional)
    ensures SeenClosure(before + {p}, Gather(c, p).closure) && SeenOptional(before + {p}, Gather(c, p).optional)
  {
    var after := before + {p};
    assert p in after;
    if c.closure.Some? {
      var q :| q in before && q.isClosure == c.closure.value;
      assert q in after;
    }
    if c.optional.Some? {
      var q :| q in before && q.hasOptionalInfo && q.hasOptional == c.optional.value;
      assert q in after;
    }
  }

  lemma SeenValues(before: set<FunctionEvidence>, c: Conventions, p: FunctionEvidence)
    requires SeenStack(before, c.stack) && SeenMax(before, c.maxRegisters)
    ensures SeenStack(before + {p}, Gather(c, p).stack) && SeenMax(before + {p}, Gather(c, p).maxRegisters)
  {
    var after := before + {p};
    assert p in after;
    if c.stack.Some? {
      var q :| q in before && q.hasStackConvention && q.mustUseStack == c.stack.value;
      assert q in after;
    }
    if c.maxRegisters.Some? {
      var q :| q in before && q.hasMaxRegisters && q.maxRegisters == c.maxRegisters.value;
      assert q in after;
    }
  }

  /** Comparing with the first value seen finds every clash, between whichever two providers it is. */
  lemma ClashStep(before: set<FunctionEvidence>, c: Conventions, p: FunctionEvidence)
    requires Gathered(before, c)
    ensures ConventionClash(before + {p}) <==> c.conflicting || Contradicts(c, p)
  {
    if c.conflicting {
      var a, b :| a in before && b in before && Clash(a, b);
      assert a in before + {p} && b in before + {p};
    } else if Contradicts(c, p) {
      ContradictionClashes(before, c, p);
    } else {
      forall a, b | a in before + {p} && b in before + {p}
        ensures !Clash(a, b)
      {
        assert !Contradicts(c, a) && !Contradicts(c, b);
        assert a in before && b in before ==> !Clash(a, b);
      }
    }
  }

  lemma ContradictionClashes(before: set<FunctionEvidence>, c: Conventions, p: FunctionEvidence)
    requires Gathered(before, c) && Contradicts(c, p)
    ensures ConventionClash(before + {p})
  {
    var a: FunctionEvidence;
    if c.closure.Some? && c.closure.value != p.isClosure {
      a :| a in before && a.isClosure == c.closure.value;
    } else if c.optional.Some? && p.hasOptionalInfo && c.optional.value != p.hasOptional {
      a :| a in before && a.hasOptionalInfo && a.hasOptional == c.optional.value;
    } else if c.stack.Some? && p.hasStackConvention && c.stack.value != p.mustUseStack {
      a :| a in before && a.hasStackConvention && a.mustUseStack == c.stack.value;
    } else {
      a :| a in before && a.hasMaxRegisters && a.maxRegisters == c.maxRegisters.value;
    }
    assert a in before + {p} && p in before + {p} && Clash(a, p);
  }

  method ResolveParameters(providers: seq<FunctionEvidence>, count: U32) returns (parameters: seq<ResolvedSlot>)
    ensures |parameters| == count
    ensures forall i :: 0 <= i < count ==> Settles(ParameterFacts(SetOf(providers), i), parameters[i])
  {
    parameters := [];
    for index := 0 to count
      invariant |parameters| == index
      invariant forall i :: 0 <= i < index ==> Settles(ParameterFacts(SetOf(providers), i), parameters[i])
    {
      var evidence: seq<SlotEvidence> := [];
      for k := 0 to |providers|
        invariant evidence == ParameterEvidence(providers[..k], index)
      {
        assert providers[..k + 1][..k] == providers[..k];
        if index < |providers[k].parameters| {
          evidence := evidence + [providers[k].parameters[index]];
        }
      }
      assert providers[..|providers|] == providers;
      ParameterFactsMatch(providers, index);
      var slot := ResolveSlotEvidence(evidence);
      parameters := parameters + [slot];
    }
  }

  method ResolveFunctionAbiEvidence(providers: seq<FunctionEvidence>, count: U32) returns (r: Resolution)
    ensures Resolves(SetOf(providers), count, r)
  {
    var parameters := ResolveParameters(providers, count);
    var resultEvidence: seq<SlotEvidence> := [];
    for k := 0 to |providers|
      invariant resultEvidence == ResultEvidence(providers[..k])
    {
      assert providers[..k + 1][..k] == providers[..k];
      resultEvidence := resultEvidence + [providers[k].result];
    }
    assert providers[..|providers|] == providers;
    ResultFactsMatch(providers);
    var result := ResolveSlotEvidence(resultEvidence);
    var c := GatherConventions(providers);
    r := Finish(parameters, result, c);
    SettledConventions(SetOf(providers), c, r);
  }

  /** The last lines of the solver: which facts survive a convention conflict, and what is proven as a whole. */
  function Finish(parameters: seq<ResolvedSlot>, result: ResolvedSlot, c: Conventions): Resolution {
    var conflicting := c.conflicting || result.proof == Conflicting
                       || exists i :: 0 <= i < |parameters| && parameters[i].proof == Conflicting;
    var hasStack, hasOptionalInfo, hasMax :=
      c.stack.Some? && !c.conflicting, c.optional.Some? && !c.conflicting, c.maxRegisters.Some? && !c.conflicting;
    Resolution(
      parameters, result,
      hasStack, c.stack == Some(true), c.lessDirectOverrides,
      hasOptionalInfo, c.optional == Some(true),
      hasMax, if c.maxRegisters.Some? then c.maxRegisters.value else 0, c.closure == Some(true),
      && !conflicting && hasStack && hasOptionalInfo && hasMax && SlotProven(result)
      && (forall i :: 0 <= i < |parameters| ==> SlotProven(parameters[i])),
      conflicting)
  }

  lemma SettledConventions(providers: set<FunctionEvidence>, c: Conventions, r: Resolution)
    requires Gathered(providers, c) && r == Finish(r.parameters, r.result, c)
    ensures ConventionSettled(providers, r)
  {
  }

  // ---- Order, duplicates, and more evidence ----

  /** Two orders, or two multiplicities, of the same providers agree on whether they conflict, on whether the
      call is fully proven and on every slot; without a conflict they agree on everything. */
  lemma OrderIrrelevant(p: seq<FunctionEvidence>, q: seq<FunctionEvidence>, count: nat, a: Resolution, b: Resolution)
    requires SetOf(p) == SetOf(q)
    requires Resolves(SetOf(p), count, a) && Resolves(SetOf(q), count, b)
    ensures a.conflicting == b.conflicting && a.fullyProven == b.fullyProven
    ensures a.parameters == b.parameters && a.result == b.result
    ensures !a.conflicting ==> a == b
  {
    forall i | 0 <= i < count
      ensures a.parameters[i] == b.parameters[i]
    {
      SettlesOnce(ParameterFacts(SetOf(p), i), a.parameters[i], b.parameters[i]);
    }
    SettlesOnce(ResultFacts(SetOf(p)), a.result, b.result);
    if !a.conflicting {
      SameConventions(SetOf(p), a, b);
    }
  }

  lemma SameConventions(providers: set<FunctionEvidence>, a: Resolution, b: Resolution)
    requires ConventionSettled(providers, a) && ConventionSettled(providers, b) && !ConventionClash(providers)
    ensures a.isClosure == b.isClosure && a.mustUseStack == b.mustUseStack
    ensures a.hasOptional == b.hasOptional && a.maxRegisters == b.maxRegisters
  {
    if providers != {} {
      var p :| p in providers;
      assert a.isClosure == p.isClosure == b.isClosure;
    }
  }

  /** A conflict is permanent: more providers never clear it. */
  lemma ConflictPermanent(fewer: set<FunctionEvidence>, more: set<FunctionEvidence>, count: nat,
                          a: Resolution, b: Resolution)
    requires fewer <= more && Resolves(fewer, count, a) && Resolves(more, count, b)
    ensures a.conflicting ==> b.conflicting
  {
    if a.conflicting && !ConventionClash(fewer) {
      if a.result.proof == Conflicting {
        SlotConflictPermanent(ResultFacts(fewer), ResultFacts(more), a.result, b.result);
      } else {
        var i :| 0 <= i < |a.parameters| && a.parameters[i].proof == Conflicting;
        SlotConflictPermanent(ParameterFacts(fewer, i), ParameterFacts(more, i), a.parameters[i], b.parameters[i]);
      }
    } else if a.conflicting {
      var p, q :| p in fewer && q in fewer && Clash(p, q);
      assert p in more && q in more;
    }
  }

  lemma SlotConflictPermanent(fewer: set<SlotEvidence>, more: set<SlotEvidence>, a: ResolvedSlot, b: ResolvedSlot)
    requires fewer <= more && Settles(fewer, a) && Settles(more, b)
    ensures a.proof == Conflicting ==> b.proof == Conflicting
  {
    if a.proof == Conflicting && b.proof == Proven {
      assert AllProvenAs(fewer, b.representation);
    }
  }
}
