/** The register and stack allocator (src/abi/calling_convention.cpp, src/abi/call_layout.h). */
module AbiLayout {
  import opened Wrappers
  import opened Machine
  import opened AbiEvidence

  const MAX_INT32: int := 0x7fff_ffff
  const MIN_INT32: int := -0x8000_0000

  datatype Location = GpRegister(index: Byte) | FpuRegister(index: Byte) | EntryStack(offset: int)

  /** A representation with its locations: one, two for a pair, none before allocation. */
  datatype ValueLayout = ValueLayout(representation: Representation, locations: seq<Location>)

  datatype CallLayout = CallLayout(
    parameters: seq<ValueLayout>, result: ValueLayout, stackWords: nat, dartSpRegister: Byte)

  const EMPTY_LAYOUT: CallLayout := CallLayout([], ValueLayout(UnknownRep, []), 0, 0)

  datatype Profile = Profile(
    wordSize: U32, dartSpRegister: Byte,
    gpRegisters: seq<Byte>, gpCount: Byte, fpuRegisters: seq<Byte>, fpuCount: Byte,
    taggedResult: Byte, int64Result: Byte, doubleResult: Byte, pairResult: (Byte, Byte),
    fpToEntrySlotDelta: int)

  datatype Status =
    Ok | IncompleteEvidence | ConflictingEvidence | UnsupportedRepresentation | OptionalArgumentsUnsupported
    | InvalidCallingConvention

  function Arm64AotProfile(): Profile {
    Profile(8, 15, [1, 2, 3, 5, 6, 7, 0, 0], 6, [0, 1, 2, 3, 4, 5, 0, 0], 6, 0, 0, 0, (0, 1), 2)
  }

  predicate ValidProfile(p: Profile) {
    p.wordSize != 0 && p.wordSize <= MAX_INT32 && p.gpCount <= |p.gpRegisters| && p.fpuCount <= |p.fpuRegisters|
  }

  predicate SupportedParameter(rep: Representation) {
    rep == Tagged || rep == UnboxedInt64 || rep == UnboxedDouble
  }

  predicate SupportedResult(rep: Representation) {
    SupportedParameter(rep) || rep == PairOfTagged
  }

  // ---- The allocation rule ----

  predicate IsFpu(slot: ResolvedSlot) {
    slot.representation == UnboxedDouble
  }

  function RegisterLimit(abi: Resolution): U32 {
    if abi.mustUseStack then 0 else abi.maxRegisters
  }

  function FileSize(p: Profile, fpu: bool): nat {
    if fpu then p.fpuCount else p.gpCount
  }

  /** How many of the first `n` formals use the given register file. */
  function Rank(slots: seq<ResolvedSlot>, fpu: bool, n: nat): (rank: nat)
    requires n <= |slots|
    ensures rank <= n
  {
    if n == 0 then 0 else Rank(slots, fpu, n - 1) + (if IsFpu(slots[n - 1]) == fpu then 1 else 0)
  }

  /** A formal is in a register when it is below the limit and its rank is below the size of its file. */
  predicate InRegister(abi: Resolution, p: Profile, i: nat)
    requires i < |abi.parameters|
  {
    var fpu := IsFpu(abi.parameters[i]);
    i < RegisterLimit(abi) && Rank(abi.parameters, fpu, i) < FileSize(p, fpu)
  }

  /** How many formals from `n` on are passed on the stack. */
  function StackFrom(abi: Resolution, p: Profile, n: nat): nat
    requires n <= |abi.parameters|
    decreases |abi.parameters| - n
  {
    if n == |abi.parameters| then 0 else (if InRegister(abi, p, n) then 0 else 1) + StackFrom(abi, p, n + 1)
  }

  function StackOffset(p: Profile, slot: nat): int {
    slot * p.wordSize
  }

  /** A register by rank, or a stack word counted back from the last stack formal. */
  function Placement(abi: Resolution, p: Profile, i: nat): Location
    requires i < |abi.parameters| && ValidProfile(p)
  {
    var fpu := IsFpu(abi.parameters[i]);
    if InRegister(abi, p, i) then
      var rank := Rank(abi.parameters, fpu, i);
      if fpu then FpuRegister(p.fpuRegisters[rank]) else GpRegister(p.gpRegisters[rank])
    else EntryStack(StackOffset(p, StackFrom(abi, p, i + 1)))
  }

  function ResultPlacement(rep: Representation, p: Profile): seq<Location> {
    match rep
    case UnknownRep => []
    case Tagged => [GpRegister(p.taggedResult)]
    case UnboxedInt64 => [GpRegister(p.int64Result)]
    case UnboxedDouble => [FpuRegister(p.doubleResult)]
    case PairOfTagged => [GpRegister(p.pairResult.0), GpRegister(p.pairResult.1)]
  }

  /** The layout the rule gives. */
  ghost predicate LaidOut(abi: Resolution, p: Profile, layout: CallLayout)
    requires ValidProfile(p)
  {
    && |layout.parameters| == |abi.parameters|
    && (forall i :: 0 <= i < |abi.parameters| ==>
                      layout.parameters[i] == ValueLayout(abi.parameters[i].representation, [Placement(abi, p, i)]))
    && layout.stackWords == StackFrom(abi, p, 0)
    && layout.dartSpRegister == p.dartSpRegister
    && layout.result == ValueLayout(abi.result.representation, ResultPlacement(abi.result.representation, p))
  }

  /** The status of a call, decided before anything is allocated. */
  function StatusOf(abi: Resolution, p: Profile, closureCall: bool): Status {
    if !ValidProfile(p) then InvalidCallingConvention
    else if abi.conflicting then ConflictingEvidence
    else if !SlotProven(abi.result) || (exists i :: 0 <= i < |abi.parameters| && !SlotProven(abi.parameters[i]))
            || !abi.hasStackConvention || !abi.hasOptionalInfo || !abi.hasMaxRegisters then IncompleteEvidence
    else if abi.hasOptional && !closureCall then OptionalArgumentsUnsupported
    else if !SupportedResult(abi.result.representation)
            || (exists i :: 0 <= i < |abi.parameters| && !SupportedParameter(abi.parameters[i].representation))
    then UnsupportedRepresentation
    else Ok
  }

  /** `before` is the caller's layout object, or nothing for a null pointer. */
  method ComputeDartCallLayout(abi: Resolution, p: Profile, before: Option<CallLayout>, closureCall: bool)
    returns (status: Status, after: Option<CallLayout>)
    ensures before.None? ==> status == InvalidCallingConvention && after.None?
    ensures before.Some? ==> status == StatusOf(abi, p, closureCall)
    ensures before.Some? && status == InvalidCallingConvention ==> after == before
    ensures before.Some? && status != Ok && status != InvalidCallingConvention ==>
              after == Some(CallLayout([], ValueLayout(UnknownRep, []), 0, 0))
    ensures status == Ok ==> after.Some? && ValidProfile(p) && LaidOut(abi, p, after.value)
  {
    if before.None? || !ValidProfile(p) {
      return InvalidCallingConvention, before;
    }
    after := Some(EMPTY_LAYOUT);
    status := StatusOf(abi, p, closureCall);
    if status != Ok {
      return;
    }
    var parameters, needsStack, stackWords := AssignRegisters(abi, p);
    parameters := AssignStack(abi, p, parameters, needsStack);
    after := Some(CallLayout(
                    parameters,
                    ValueLayout(abi.result.representation, ResultPlacement(abi.result.representation, p)),
                    stackWords, p.dartSpRegister));
  }

  /** A formal's layout before the stack is assigned. */
  function RegisterPart(abi: Resolution, p: Profile, i: nat): ValueLayout
    requires ValidProfile(p) && i < |abi.parameters|
  {
    ValueLayout(abi.parameters[i].representation, if InRegister(abi, p, i) then [Placement(abi, p, i)] else [])
  }

  /** The forward loop: registers in formal order, and which formals are left for the stack. */
  method AssignRegisters(abi: Resolution, p: Profile)
    returns (parameters: seq<ValueLayout>, needsStack: seq<bool>, stackWords: nat)
    requires ValidProfile(p)
    requires forall i :: 0 <= i < |abi.parameters| ==> SupportedParameter(abi.parameters[i].representation)
    ensures |parameters| == |needsStack| == |abi.parameters|
    ensures forall i :: 0 <= i < |parameters| ==> needsStack[i] == !InRegister(abi, p, i)
    ensures forall i :: 0 <= i < |parameters| ==>
                          parameters[i] == RegisterPart(abi, p, i)
    ensures stackWords == StackFrom(abi, p, 0)
  {
    parameters, needsStack, stackWords := [], [], 0;
    var nextGp: nat, nextFpu: nat := 0, 0;
    for index := 0 to |abi.parameters|
      invariant |parameters| == |needsStack| == index
      invariant forall i :: 0 <= i < index ==> needsStack[i] == !InRegister(abi, p, i)
      invariant forall i :: 0 <= i < index ==>
                              parameters[i] == RegisterPart(abi, p, i)
      invariant stackWords + StackFrom(abi, p, index) == StackFrom(abi, p, 0)
      invariant Cursors(abi, p, index, nextGp, nextFpu)
    {
      var locations;
      locations, nextGp, nextFpu := TakeRegister(abi, p, index, nextGp, nextFpu);
      parameters := parameters + [ValueLayout(abi.parameters[index].representation, locations)];
      needsStack := needsStack + [locations == []];
      if locations == [] {
        stackWords := stackWords + 1;
      }
    }
  }

  /** The register part of one iteration: a register of the formal's file while it lasts. */
  method TakeRegister(abi: Resolution, p: Profile, index: nat, gpBefore: nat, fpuBefore: nat)
    returns (locations: seq<Location>, nextGp: nat, nextFpu: nat)
    requires ValidProfile(p) && index < |abi.parameters|
    requires SupportedParameter(abi.parameters[index].representation)
    requires Cursors(abi, p, index, gpBefore, fpuBefore)
    ensures locations == if InRegister(abi, p, index) then [Placement(abi, p, index)] else []
    ensures Cursors(abi, p, index + 1, nextGp, nextFpu)
  {
    var rep := abi.parameters[index].representation;
    locations, nextGp, nextFpu := [], gpBefore, fpuBefore;
    CursorStep(abi, p, index, nextGp, nextFpu);
    if index < RegisterLimit(abi) {
      if (rep == Tagged || rep == UnboxedInt64) && nextGp < p.gpCount {
        locations := [GpRegister(p.gpRegisters[nextGp])];
        nextGp := nextGp + 1;
      } else if rep == UnboxedDouble && nextFpu < p.fpuCount {
        locations := [FpuRegister(p.fpuRegisters[nextFpu])];
        nextFpu := nextFpu + 1;
      }
    }
  }

  /** Below the register limit each cursor counts its file's formals, saturating at the size of the file. */
  predicate Cursors(abi: Resolution, p: Profile, index: nat, nextGp: nat, nextFpu: nat)
    requires index <= |abi.parameters|
  {
    index <= RegisterLimit(abi) ==>
      && nextGp == Lesser(Rank(abi.parameters, false, index), p.gpCount)
      && nextFpu == Lesser(Rank(abi.parameters, true, index), p.fpuCount)
  }

  lemma CursorStep(abi: Resolution, p: Profile, index: nat, nextGp: nat, nextFpu: nat)
    requires index < |abi.parameters| && Cursors(abi, p, index, nextGp, nextFpu)
    ensures index < RegisterLimit(abi) ==>
              var fpu := IsFpu(abi.parameters[index]);
              && (InRegister(abi, p, index) <==> (if fpu then nextFpu < p.fpuCount else nextGp < p.gpCount))
              && (InRegister(abi, p, index) ==>
                    Rank(abi.parameters, fpu, index) == if fpu then nextFpu else nextGp)
    ensures var taken := InRegister(abi, p, index);
            var fpu := IsFpu(abi.parameters[index]);
            Cursors(abi, p, index + 1, if taken && !fpu then nextGp + 1 else nextGp,
                    if taken && fpu then nextFpu + 1 else nextFpu)
  {
  }

  function Lesser(a: nat, b: nat): nat {
    if a <= b then a else b
  }

  /** The backward loop: FP slots from the last stack formal, turned into entry-SP offsets. */
  method AssignStack(abi: Resolution, p: Profile, registers: seq<ValueLayout>, needsStack: seq<bool>)
    returns (parameters: seq<ValueLayout>)
    requires ValidProfile(p) && |registers| == |needsStack| == |abi.parameters|
    requires forall i :: 0 <= i < |registers| ==> needsStack[i] == !InRegister(abi, p, i)
    requires forall i :: 0 <= i < |registers| ==>
                           registers[i] == RegisterPart(abi, p, i)
    ensures |parameters| == |abi.parameters|
    ensures forall i :: 0 <= i < |parameters| ==>
                          parameters[i] == ValueLayout(abi.parameters[i].representation, [Placement(abi, p, i)])
  {
    parameters := registers;
    var fpSlot := p.fpToEntrySlotDelta;
    var reverse := |abi.parameters|;
    while reverse > 0
      invariant 0 <= reverse <= |abi.parameters| == |parameters|
      invariant fpSlot == p.fpToEntrySlotDelta + StackFrom(abi, p, reverse)
      invariant forall i :: 0 <= i < reverse ==> parameters[i] == registers[i]
      invariant forall i :: reverse <= i < |parameters| ==>
                              parameters[i] == ValueLayout(abi.parameters[i].representation, [Placement(abi, p, i)])
    {
      var index := reverse - 1;
      if needsStack[index] {
        var location := PlaceOnStack(abi, p, index, fpSlot);
        parameters := parameters[index := parameters[index].(locations := [location])];
        fpSlot := fpSlot + 1;
      }
      reverse := index;
    }
  }

  /** The slot below the frame pointer, seen from the entry stack pointer. */
  method PlaceOnStack(abi: Resolution, p: Profile, index: nat, fpSlot: int) returns (location: Location)
    requires ValidProfile(p) && index < |abi.parameters| && !InRegister(abi, p, index)
    requires fpSlot == p.fpToEntrySlotDelta + StackFrom(abi, p, index + 1)
    ensures location == Placement(abi, p, index)
    ensures StackFrom(abi, p, index) == StackFrom(abi, p, index + 1) + 1
  {
    var entrySlot := fpSlot - p.fpToEntrySlotDelta;
    location := EntryStack(StackOffset(p, entrySlot));
  }

  // ---- What the rule guarantees ----

  predicate Distinct(registers: seq<Byte>, count: nat)
    requires count <= |registers|
  {
    forall i, j :: 0 <= i < j < count ==> registers[i] != registers[j]
  }

  lemma Arm64Distinct()
    ensures var p := Arm64AotProfile();
            ValidProfile(p) && Distinct(p.gpRegisters, p.gpCount) && Distinct(p.fpuRegisters, p.fpuCount)
  {
  }

  /** Arguments go in X1, X2, X3, X5, X6, X7 and V0 to V5, results come in X0, or X0 and X1, or V0; Dart's stack pointer is
      X15, and the first stack argument lies two words above the frame pointer. */
  lemma Arm64Registers()
    ensures var p := Arm64AotProfile();
            && p.gpRegisters[..p.gpCount] == [1, 2, 3, 5, 6, 7] && p.fpuRegisters[..p.fpuCount] == [0, 1, 2, 3, 4, 5]
            && p.taggedResult == p.int64Result == p.doubleResult == 0 && p.pairResult == (0, 1)
            && p.dartSpRegister == 15 && p.wordSize == 8 && p.fpToEntrySlotDelta == 2
  {
  }

  /** Which calls are laid out, and what each refusal means, in the order of the checks. */
  lemma StatusMeans(abi: Resolution, p: Profile, closureCall: bool)
    ensures var usable := 0 < p.wordSize <= 0x7fff_ffff && p.gpCount <= |p.gpRegisters| && p.fpuCount <= |p.fpuRegisters|;
            var proven := abi.hasStackConvention && abi.hasOptionalInfo && abi.hasMaxRegisters
                          && forall slot :: slot in abi.parameters || slot == abi.result ==>
                                              slot.proof == Proven && slot.representation != UnknownRep;
            var status := StatusOf(abi, p, closureCall);
            && (status == InvalidCallingConvention <==> !usable)
            && (status == ConflictingEvidence <==> usable && abi.conflicting)
            && (status == IncompleteEvidence <==> usable && !abi.conflicting && !proven)
            && (status == OptionalArgumentsUnsupported <==>
                  usable && !abi.conflicting && proven && abi.hasOptional && !closureCall)
            && (status == UnsupportedRepresentation <==>
                  && usable && !abi.conflicting && proven && (closureCall || !abi.hasOptional)
                  && exists slot :: slot in abi.parameters && slot.representation == PairOfTagged)
  {
    assert forall i :: 0 <= i < |abi.parameters| ==> abi.parameters[i] in abi.parameters;
    if slot :| slot in abi.parameters && slot.representation == PairOfTagged {
      var i :| 0 <= i < |abi.parameters| && abi.parameters[i] == slot;
      assert !SupportedParameter(abi.parameters[i].representation);
    }
  }

  /** The formals before the `n`-th that go to the FPU file, or those that do not. */
  ghost function Before(slots: seq<ResolvedSlot>, fpu: bool, n: nat): set<nat>
    requires n <= |slots|
  {
    set j: nat | j < n && (slots[j].representation == UnboxedDouble) == fpu
  }

  lemma {:induction false} RankCounts(slots: seq<ResolvedSlot>, fpu: bool, n: nat)
    requires n <= |slots|
    ensures Rank(slots, fpu, n) == |Before(slots, fpu, n)|
  {
    if n == 0 {
      assert Before(slots, fpu, 0) == {};
    } else {
      RankCounts(slots, fpu, n - 1);
      if (slots[n - 1].representation == UnboxedDouble) == fpu {
        assert Before(slots, fpu, n) == Before(slots, fpu, n - 1) + {n - 1};
      } else {
        assert Before(slots, fpu, n) == Before(slots, fpu, n - 1);
      }
    }
  }

  /** A formal is in a register exactly when the convention allows it one and the formals before it have left one in its
      file: the next one, in the file's order. */
  lemma RegisterRule(abi: Resolution, p: Profile, i: nat)
    requires ValidProfile(p) && i < |abi.parameters|
    ensures var double := abi.parameters[i].representation == UnboxedDouble;
            var taken := |Before(abi.parameters, double, i)|;
            if !abi.mustUseStack && i < abi.maxRegisters && taken < (if double then p.fpuCount else p.gpCount) then
              Placement(abi, p, i) == if double then FpuRegister(p.fpuRegisters[taken]) else GpRegister(p.gpRegisters[taken])
            else Placement(abi, p, i).EntryStack?
  {
    RankCounts(abi.parameters, abi.parameters[i].representation == UnboxedDouble, i);
  }

  /** The last formal on the stack is at offset 0, and each earlier one a word above the next. */
  lemma StackSteps(abi: Resolution, p: Profile, i: nat, j: nat)
    requires ValidProfile(p) && i < j <= |abi.parameters| && !InRegister(abi, p, i)
    requires forall k :: i < k < j ==> InRegister(abi, p, k)
    requires j < |abi.parameters| ==> !InRegister(abi, p, j)
    ensures Placement(abi, p, i)
         == EntryStack(if j == |abi.parameters| then 0 else Placement(abi, p, j).offset + p.wordSize)
  {
    NoneBetween(abi, p, i + 1, j);
    if j < |abi.parameters| {
      WordAbove(StackFrom(abi, p, j + 1), p.wordSize);
    }
  }

  lemma WordAbove(words: nat, w: nat)
    ensures (words + 1) * w == words * w + w
  {
  }

  lemma {:induction false} NoneBetween(abi: Resolution, p: Profile, i: nat, j: nat)
    requires i <= j <= |abi.parameters| && forall k :: i <= k < j ==> InRegister(abi, p, k)
    ensures StackFrom(abi, p, i) == StackFrom(abi, p, j)
    decreases j - i
  {
    if i < j {
      NoneBetween(abi, p, i + 1, j);
    }
  }

  /** Where each kind of result comes. */
  lemma ResultRegisters(p: Profile)
    ensures ResultPlacement(Tagged, p) == [GpRegister(p.taggedResult)]
    ensures ResultPlacement(UnboxedInt64, p) == [GpRegister(p.int64Result)]
    ensures ResultPlacement(UnboxedDouble, p) == [FpuRegister(p.doubleResult)]
    ensures ResultPlacement(PairOfTagged, p) == [GpRegister(p.pairResult.0), GpRegister(p.pairResult.1)]
  {
  }

  lemma {:induction false} RankMonotone(slots: seq<ResolvedSlot>, fpu: bool, i: nat, j: nat)
    requires i < j <= |slots| && IsFpu(slots[i]) == fpu
    ensures Rank(slots, fpu, i) < Rank(slots, fpu, j)
  {
    if j > i + 1 {
      RankMonotone(slots, fpu, i, j - 1);
    }
  }

  lemma {:induction false} StackMonotone(abi: Resolution, p: Profile, i: nat, j: nat)
    requires i < j <= |abi.parameters|
    ensures StackFrom(abi, p, i) >= StackFrom(abi, p, j) + (if InRegister(abi, p, i) then 0 else 1)
    decreases j - i
  {
    if j > i + 1 {
      StackMonotone(abi, p, i + 1, j);
    }
  }

  /** Stack offsets strictly decrease in formal order. */
  lemma StackDescends(abi: Resolution, p: Profile, i: nat, j: nat)
    requires ValidProfile(p) && i < j < |abi.parameters|
    requires !InRegister(abi, p, i) && !InRegister(abi, p, j)
    ensures Placement(abi, p, i).offset > Placement(abi, p, j).offset
  {
    var a, b := StackFrom(abi, p, i + 1), StackFrom(abi, p, j + 1);
    StackMonotone(abi, p, j, j + 1);
    if i + 1 < j {
      StackMonotone(abi, p, i + 1, j);
    }
    ProductsOrdered(b, a, p.wordSize);
  }

  /** No two formals share a location when the argument registers are distinct. */
  lemma PlacementsDistinct(abi: Resolution, p: Profile, i: nat, j: nat)
    requires ValidProfile(p) && i < j < |abi.parameters|
    requires Distinct(p.gpRegisters, p.gpCount) && Distinct(p.fpuRegisters, p.fpuCount)
    ensures Placement(abi, p, i) != Placement(abi, p, j)
  {
    if !InRegister(abi, p, i) && !InRegister(abi, p, j) {
      StackDescends(abi, p, i, j);
    } else if InRegister(abi, p, i) && InRegister(abi, p, j) {
      var fpu := IsFpu(abi.parameters[i]);
      if IsFpu(abi.parameters[j]) == fpu {
        RankMonotone(abi.parameters, fpu, i, j);
      }
    }
  }

  /** The stack formals occupy exactly the words 0 to `stackWords` - 1: each word has its formal. */
  lemma {:induction false} StackWordTaken(abi: Resolution, p: Profile, from: nat, word: nat) returns (i: nat)
    requires ValidProfile(p) && from <= |abi.parameters| && word < StackFrom(abi, p, from)
    ensures from <= i < |abi.parameters| && !InRegister(abi, p, i)
    ensures StackFrom(abi, p, i + 1) == word
    ensures Placement(abi, p, i) == EntryStack(StackOffset(p, word))
    decreases |abi.parameters| - from
  {
    if !InRegister(abi, p, from) && StackFrom(abi, p, from + 1) == word {
      i := from;
    } else {
      i := StackWordTaken(abi, p, from + 1, word);
    }
  }

  /** And no formal is placed outside them. */
  lemma StackWordInRange(abi: Resolution, p: Profile, i: nat)
    requires ValidProfile(p) && i < |abi.parameters| && !InRegister(abi, p, i)
    ensures StackFrom(abi, p, i + 1) < StackFrom(abi, p, 0)
  {
    StackMonotone(abi, p, i, i + 1);
    if i > 0 {
      StackMonotone(abi, p, 0, i);
    }
  }

  predicate IsInt32(x: int) {
    MIN_INT32 <= x <= MAX_INT32
  }

  function FpSlot(p: Profile, k: nat): int {
    p.fpToEntrySlotDelta + k
  }

  /** Every signed value the backward loop computes: the running FP slot, each entry slot and each offset. */
  ghost predicate ArithmeticFits(abi: Resolution, p: Profile) {
    var words := StackFrom(abi, p, 0);
    && (forall k: nat :: k <= words ==> IsInt32(FpSlot(p, k)))
    && (forall k: nat :: k < words ==> IsInt32(k) && IsInt32(StackOffset(p, k)))
  }

  /** No signed value overflows exactly under this bound. */
  lemma ArithmeticFitsIff(abi: Resolution, p: Profile)
    requires ValidProfile(p) && -0x8000_0000 <= p.fpToEntrySlotDelta <= 0x7fff_ffff
    ensures var words := StackFrom(abi, p, 0);
            ArithmeticFits(abi, p) <==>
            && p.fpToEntrySlotDelta + words <= 0x7fff_ffff
            && (words > 0 ==> (words - 1) * p.wordSize <= 0x7fff_ffff)
  {
    var words := StackFrom(abi, p, 0);
    if words > 0 {
      forall k: nat | k < words
        ensures k <= StackOffset(p, k) <= StackOffset(p, words - 1)
      {
        ProductsOrdered(k, words - 1, p.wordSize);
      }
      assert ArithmeticFits(abi, p) ==> IsInt32(StackOffset(p, words - 1));
    }
    assert ArithmeticFits(abi, p) ==> IsInt32(FpSlot(p, words));
  }

  lemma ProductsOrdered(a: nat, b: nat, w: nat)
    requires a <= b && w > 0
    ensures a <= a * w <= b * w
    ensures a < b ==> a * w < b * w
  {
    assert b * w == a * w + (b - a) * w;
    assert a * w == a + a * (w - 1);
  }

  // ---- Evidence to layout ----

  /** Some provider facts about one slot disagree, or a provider reports a conflict itself. */
  ghost predicate FactsDisagree(facts: set<SlotEvidence>) {
    exists a, b :: a in facts && b in facts && (a.proof == Conflicting || a.representation != b.representation)
  }

  lemma ConflictIsDisagreement(facts: set<SlotEvidence>, slot: ResolvedSlot)
    requires Settles(facts, slot) && (forall f :: f in facts ==> Known(f))
    ensures slot.proof == Conflicting <==> FactsDisagree(facts)
  {
    if f :| f in facts {
      assert !FactsDisagree(facts) ==> AllProvenAs(facts, f.representation);
    }
  }

  /** Providers disagree on a convention fact or on a slot. */
  ghost predicate ProvidersDisagree(providers: set<FunctionEvidence>, count: nat) {
    || ConventionClash(providers)
    || FactsDisagree(ResultFacts(providers))
    || exists i :: 0 <= i < count && FactsDisagree(ParameterFacts(providers, i))
  }

  /** With a valid profile, what the solver resolves is laid out exactly when it is fully proven, every
      representation is supported, and optional parameters occur only in a closure call; a disagreement
      between providers always ends in a conflict. */
  lemma EvidenceDecidesStatus(providers: set<FunctionEvidence>, count: nat, abi: Resolution, p: Profile, closureCall: bool)
    requires Resolves(providers, count, abi) && ValidProfile(p)
    ensures StatusOf(abi, p, closureCall) == Ok <==>
            && abi.fullyProven && (closureCall || !abi.hasOptional)
            && SupportedResult(abi.result.representation)
            && forall i :: 0 <= i < count ==> SupportedParameter(abi.parameters[i].representation)
    ensures StatusOf(abi, p, closureCall) == ConflictingEvidence <==> ProvidersDisagree(providers, count)
  {
    ConflictIsDisagreement(ResultFacts(providers), abi.result);
    forall i | 0 <= i < count
      ensures abi.parameters[i].proof == Conflicting <==> FactsDisagree(ParameterFacts(providers, i))
    {
      ConflictIsDisagreement(ParameterFacts(providers, i), abi.parameters[i]);
    }
  }

  /** A layout that was produced repeats every parameter fact that a provider proved. */
  lemma LayoutKeepsParameter(providers: set<FunctionEvidence>, count: nat, abi: Resolution, p: Profile, closureCall: bool,
                             layout: CallLayout, provider: FunctionEvidence, i: nat)
    requires Resolves(providers, count, abi) && StatusOf(abi, p, closureCall) == Ok && LaidOut(abi, p, layout)
    requires provider in providers && i < count && i < |provider.parameters| && Known(provider.parameters[i])
    ensures provider.parameters[i].proof == Proven
    ensures layout.parameters[i].representation == provider.parameters[i].representation
  {
    assert provider.parameters[i] in ParameterFacts(providers, i);
    assert SlotProven(abi.parameters[i]);
  }

  /** And every result fact, with or without parameters. */
  lemma LayoutKeepsResult(providers: set<FunctionEvidence>, count: nat, abi: Resolution, p: Profile, closureCall: bool,
                          layout: CallLayout, provider: FunctionEvidence)
    requires Resolves(providers, count, abi) && StatusOf(abi, p, closureCall) == Ok && LaidOut(abi, p, layout)
    requires provider in providers && Known(provider.result)
    ensures provider.result.proof == Proven && layout.result.representation == provider.result.representation
  {
    assert provider.result in ResultFacts(providers);
    assert SlotProven(abi.result);
  }
}
