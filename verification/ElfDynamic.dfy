/** The dynamic section (src/elf/dynamic_view.cpp:48-54 and 535-627; gABI chapter 5, "Dynamic Section"). */
module ElfDynamic {
  import opened Wrappers
  import opened Machine
  import opened BitLaws
  import opened ElfSymbols

  const DT_NULL: U64 := 0
  const DT_HASH: U64 := 4
  const DT_STRTAB: U64 := 5
  const DT_SYMTAB: U64 := 6
  const DT_STRSZ: U64 := 10
  const DT_SYMENT: U64 := 11
  const DT_GNU_HASH: U64 := 0x6fff_fef5

  predicate IsKnown(tag: U64) {
    tag == DT_HASH || tag == DT_STRTAB || tag == DT_SYMTAB || tag == DT_STRSZ || tag == DT_SYMENT || tag == DT_GNU_HASH
  }

  const ENTRY_SIZE: nat := 16

  /** The tag and the value of entry `index`. */
  function EntryAt(r: VaReader, dynamicVa: U64, index: U64): Option<(U64, U64)> {
    match CheckedMulAdd(dynamicVa, index, ENTRY_SIZE)
    case None => None
    case Some(va) =>
      match Fetch(r, va, ENTRY_SIZE)
      case None => None
      case Some(b) => Some((Le64(b[0..8]), Le64(b[8..16])))
  }

  /** Entries below `count` are readable and none of them terminates the section. */
  ghost predicate Running(r: VaReader, dynamicVa: U64, count: U64) {
    forall i: U64 :: i < count ==> EntryAt(r, dynamicVa, i).Some? && EntryAt(r, dynamicVa, i).value.0 != DT_NULL
  }

  /** `slots` holds, for each known tag seen below `count`, the one value all its entries give. */
  ghost predicate Declares(r: VaReader, dynamicVa: U64, count: U64, slots: map<U64, U64>) {
    && (forall tag :: tag in slots ==> IsKnown(tag))
    && (forall i: U64 :: i < count ==> EntryAgrees(r, dynamicVa, i, slots))
    && (forall tag :: tag in slots ==> exists i: U64 :: i < count && EntryAt(r, dynamicVa, i) == Some((tag, slots[tag])))
  }

  ghost predicate EntryAgrees(r: VaReader, dynamicVa: U64, i: U64, slots: map<U64, U64>) {
    match EntryAt(r, dynamicVa, i)
    case None => true
    case Some((tag, value)) => IsKnown(tag) ==> tag in slots && slots[tag] == value
  }

  /** The checks on a complete set of declarations. */
  predicate Usable(r: VaReader, slots: map<U64, U64>) {
    && DT_SYMTAB in slots && DT_STRTAB in slots && DT_STRSZ in slots && DT_SYMENT in slots
    && slots[DT_SYMENT] == SYMBOL_SIZE && slots[DT_STRSZ] != 0
    && AnchorReadable(r, slots[DT_SYMTAB], SYMBOL_SIZE)
    && AnchorReadable(r, slots[DT_STRTAB], slots[DT_STRSZ])
    && (DT_HASH in slots ==> AnchorReadable(r, slots[DT_HASH], 8))
    && (DT_GNU_HASH in slots ==> AnchorReadable(r, slots[DT_GNU_HASH], 16))
  }

  function Slot(slots: map<U64, U64>, tag: U64): Option<U64> {
    if tag in slots then Some(slots[tag]) else None
  }

  function ViewOf(slots: map<U64, U64>): DynamicView
    requires DT_SYMTAB in slots && DT_STRTAB in slots && DT_STRSZ in slots && DT_SYMENT in slots
  {
    DynamicView(slots[DT_SYMTAB], slots[DT_STRTAB], slots[DT_STRSZ], slots[DT_SYMENT],
                Slot(slots, DT_HASH), Slot(slots, DT_GNU_HASH))
  }

  /** A section of `size` bytes that a reader can serve whole. */
  predicate Section(r: VaReader, dynamicVa: U64, size: U64) {
    && dynamicVa != 0 && size >= ENTRY_SIZE && size % ENTRY_SIZE == 0
    && r.readable(dynamicVa).Some? && size <= r.readable(dynamicVa).value
  }

  /** Entry `n`, inside the section, is its first DT_NULL. */
  ghost predicate Terminates(r: VaReader, dynamicVa: U64, size: U64, n: U64) {
    && n < size / ENTRY_SIZE && Running(r, dynamicVa, n)
    && EntryAt(r, dynamicVa, n).Some? && EntryAt(r, dynamicVa, n).value.0 == DT_NULL
  }

  /** The view is what the entries before the first DT_NULL declare. */
  ghost predicate Describes(r: VaReader, dynamicVa: U64, size: U64, view: DynamicView) {
    Section(r, dynamicVa, size) &&
    exists n: U64, slots ::
      Terminates(r, dynamicVa, size, n) && Declares(r, dynamicVa, n, slots) && Usable(r, slots) && view == ViewOf(slots)
  }

  method ReadElfDynamicView(r: VaReader, dynamicVa: U64, size: U64) returns (view: Option<DynamicView>)
    ensures view.Some? ==> Describes(r, dynamicVa, size, view.value)
    ensures view.None? ==> forall v :: !Describes(r, dynamicVa, size, v)
  {
    if !Section(r, dynamicVa, size) {
      return None;
    }
    var end, slots := CollectEntries(r, dynamicVa, size);
    if end.None? {
      return None;
    }
    DescribesHere(r, dynamicVa, size, end.value, slots);
    return if Usable(r, slots) then Some(ViewOf(slots)) else None;
  }

  /** The loop over the entries, up to the first DT_NULL. */
  method CollectEntries(r: VaReader, dynamicVa: U64, size: U64) returns (end: Option<U64>, slots: map<U64, U64>)
    requires Section(r, dynamicVa, size)
    ensures end.Some? ==> Terminates(r, dynamicVa, size, end.value) && Declares(r, dynamicVa, end.value, slots)
    ensures end.None? ==> forall v :: !Describes(r, dynamicVa, size, v)
  {
    slots := map[];
    var index: U64 := 0;
    var count: U64 := size / ENTRY_SIZE;
    while index < count
      invariant index <= count && Running(r, dynamicVa, index) && Declares(r, dynamicVa, index, slots)
    {
      var entry := EntryAt(r, dynamicVa, index);
      if entry.None? {
        NeverDescribed(r, dynamicVa, size, index);
        return None, slots;
      }
      var (tag, value) := entry.value;
      if tag == DT_NULL {
        return Some(index), slots;
      }
      if IsKnown(tag) {
        if tag in slots && slots[tag] != value {
          Conflicting(r, dynamicVa, size, index, slots);
          return None, slots;
        }
        DeclaresStep(r, dynamicVa, index, slots);
        slots := slots[tag := value];
      } else {
        DeclaresUnknown(r, dynamicVa, index, slots);
      }
      RunningStep(r, dynamicVa, index);
      index := index + 1;
    }
    NeverTerminates(r, dynamicVa, size, index);
    return None, slots;
  }

  lemma NeverDescribed(r: VaReader, dynamicVa: U64, size: U64, index: U64)
    requires Running(r, dynamicVa, index) && EntryAt(r, dynamicVa, index).None?
    ensures forall v :: !Describes(r, dynamicVa, size, v)
  {
  }

  lemma NeverTerminates(r: VaReader, dynamicVa: U64, size: U64, index: U64)
    requires Running(r, dynamicVa, index) && index >= size / ENTRY_SIZE
    ensures forall v :: !Describes(r, dynamicVa, size, v)
  {
  }

  lemma RunningStep(r: VaReader, dynamicVa: U64, index: U64)
    requires index < TWO_64 - 1 && Running(r, dynamicVa, index)
    requires EntryAt(r, dynamicVa, index).Some? && EntryAt(r, dynamicVa, index).value.0 != DT_NULL
    ensures Running(r, dynamicVa, index + 1)
  {
  }

  lemma DeclaresUnknown(r: VaReader, dynamicVa: U64, index: U64, slots: map<U64, U64>)
    requires index < TWO_64 - 1
    requires Declares(r, dynamicVa, index, slots) && EntryAt(r, dynamicVa, index).Some?
    requires !IsKnown(EntryAt(r, dynamicVa, index).value.0)
    ensures Declares(r, dynamicVa, index + 1, slots)
  {
    forall tag | tag in slots
      ensures exists i: U64 :: i < index + 1 && EntryAt(r, dynamicVa, i) == Some((tag, slots[tag]))
    {
      var i: U64 :| i < index && EntryAt(r, dynamicVa, i) == Some((tag, slots[tag]));
    }
  }

  lemma DeclaresStep(r: VaReader, dynamicVa: U64, index: U64, slots: map<U64, U64>)
    requires index < TWO_64 - 1
    requires Declares(r, dynamicVa, index, slots) && EntryAt(r, dynamicVa, index).Some?
    requires var (tag, value) := EntryAt(r, dynamicVa, index).value;
             IsKnown(tag) && (tag in slots ==> slots[tag] == value)
    ensures var (tag, value) := EntryAt(r, dynamicVa, index).value;
            Declares(r, dynamicVa, index + 1, slots[tag := value])
  {
    var (tag, value) := EntryAt(r, dynamicVa, index).value;
    var after := slots[tag := value];
    forall i: U64 | i < index + 1
      ensures EntryAgrees(r, dynamicVa, i, after)
    {
      assert i < index ==> EntryAgrees(r, dynamicVa, i, slots);
    }
    forall t | t in after
      ensures exists i: U64 :: i < index + 1 && EntryAt(r, dynamicVa, i) == Some((t, after[t]))
    {
      if t == tag {
        assert EntryAt(r, dynamicVa, index) == Some((t, after[t]));
      } else {
        var i: U64 :| i < index && EntryAt(r, dynamicVa, i) == Some((t, slots[t]));
      }
    }
  }

  /** Two values for one tag leave nothing to describe. */
  lemma Conflicting(r: VaReader, dynamicVa: U64, size: U64, index: U64, slots: map<U64, U64>)
    requires Running(r, dynamicVa, index) && Declares(r, dynamicVa, index, slots)
    requires EntryAt(r, dynamicVa, index).Some?
    requires var (tag, value) := EntryAt(r, dynamicVa, index).value;
             tag != DT_NULL && tag in slots && slots[tag] != value
    ensures forall v :: !Describes(r, dynamicVa, size, v)
  {
    var (tag, value) := EntryAt(r, dynamicVa, index).value;
    var earlier: U64 :| earlier < index && EntryAt(r, dynamicVa, earlier) == Some((tag, slots[tag]));
    assert IsKnown(tag);
    forall n: U64, s | Terminates(r, dynamicVa, size, n)
      ensures !Declares(r, dynamicVa, n, s)
    {
      assert index < n;
      if Declares(r, dynamicVa, n, s) {
        OneValue(r, dynamicVa, n, s, earlier, index);
      }
    }
  }

  lemma OneValue(r: VaReader, dynamicVa: U64, count: U64, slots: map<U64, U64>, i: U64, j: U64)
    requires i < count && j < count && EntryAt(r, dynamicVa, i).Some? && EntryAt(r, dynamicVa, j).Some?
    requires EntryAt(r, dynamicVa, i).value.0 == EntryAt(r, dynamicVa, j).value.0
    requires IsKnown(EntryAt(r, dynamicVa, i).value.0) && Declares(r, dynamicVa, count, slots)
    ensures EntryAt(r, dynamicVa, i) == EntryAt(r, dynamicVa, j)
  {
    assert EntryAgrees(r, dynamicVa, i, slots) && EntryAgrees(r, dynamicVa, j, slots);
  }

  /** At the first DT_NULL the declarations collected so far are the only ones. */
  lemma DescribesHere(r: VaReader, dynamicVa: U64, size: U64, index: U64, slots: map<U64, U64>)
    requires Section(r, dynamicVa, size)
    requires Terminates(r, dynamicVa, size, index) && Declares(r, dynamicVa, index, slots)
    ensures forall v :: Describes(r, dynamicVa, size, v) <==> Usable(r, slots) && v == ViewOf(slots)
  {
    forall n: U64, s | Terminates(r, dynamicVa, size, n) && Declares(r, dynamicVa, n, s)
      ensures s == slots
    {
      assert n == index;
      SameDeclarations(r, dynamicVa, n, slots, s);
      SameDeclarations(r, dynamicVa, n, s, slots);
    }
  }

  lemma SameDeclarations(r: VaReader, dynamicVa: U64, n: U64, a: map<U64, U64>, b: map<U64, U64>)
    requires Declares(r, dynamicVa, n, a) && Declares(r, dynamicVa, n, b)
    ensures forall tag :: tag in a ==> tag in b && b[tag] == a[tag]
  {
    forall tag | tag in a
      ensures tag in b && b[tag] == a[tag]
    {
      var i: U64 :| i < n && EntryAt(r, dynamicVa, i) == Some((tag, a[tag]));
      assert EntryAgrees(r, dynamicVa, i, b);
    }
  }

  // ---- The section by its entries ----

  /** Entry `i` is 16 bytes, a tag and a value. */
  lemma EntryReads(r: VaReader, dynamicVa: U64, i: U64, tag: U64, value: U64)
    requires dynamicVa + 16 * i < TWO_64 && Fetch(r, dynamicVa + 16 * i, 16) == Some(Bytes64(tag) + Bytes64(value))
    ensures EntryAt(r, dynamicVa, i) == Some((tag, value))
  {
    var b := Bytes64(tag) + Bytes64(value);
    assert b[0..8] == Bytes64(tag) && b[8..16] == Bytes64(value);
    Le64Reads(tag);
    Le64Reads(value);
  }

  /** Some entry below `n` gives this value to this tag. */
  ghost predicate Gives(r: VaReader, dynamicVa: U64, n: U64, tag: U64, value: U64) {
    exists i: U64 :: i < n && EntryAt(r, dynamicVa, i) == Some((tag, value))
  }

  /** Entry `n` is the first with tag 0, and before it no known tag has two values. */
  ghost predicate EndsAt(r: VaReader, dynamicVa: U64, size: U64, n: U64) {
    && 16 * n + 16 <= size
    && EntryAt(r, dynamicVa, n).Some? && EntryAt(r, dynamicVa, n).value.0 == 0
    && (forall i: U64 :: i < n ==> EntryAt(r, dynamicVa, i).Some? && EntryAt(r, dynamicVa, i).value.0 != 0)
    && (forall tag: U64, a: U64, b: U64 ::
          tag in {4, 5, 6, 10, 11, 0x6fff_fef5} && Gives(r, dynamicVa, n, tag, a) && Gives(r, dynamicVa, n, tag, b) ==> a == b)
  }

  /** The view in the tags of the gABI: 6 the symbol table, 5 and 10 the string table and its size, 11 the entry size of 24,
      4 and 0x6ffffef5 the two hash tables, where there are any; each of them readable. */
  ghost predicate ViewByTags(r: VaReader, dynamicVa: U64, n: U64, view: DynamicView) {
    && Gives(r, dynamicVa, n, 6, view.symtabVa) && Gives(r, dynamicVa, n, 5, view.strtabVa)
    && Gives(r, dynamicVa, n, 10, view.strtabSize) && Gives(r, dynamicVa, n, 11, 24) && view.symbolEntrySize == 24
    && (forall v: U64 :: Gives(r, dynamicVa, n, 4, v) <==> view.sysvHashVa == Some(v))
    && (forall v: U64 :: Gives(r, dynamicVa, n, 0x6fff_fef5, v) <==> view.gnuHashVa == Some(v))
    && view.strtabSize > 0
    && ReadableFrom(r, view.symtabVa, 24) && ReadableFrom(r, view.strtabVa, view.strtabSize)
    && (view.sysvHashVa.Some? ==> ReadableFrom(r, view.sysvHashVa.value, 8))
    && (view.gnuHashVa.Some? ==> ReadableFrom(r, view.gnuHashVa.value, 16))
  }

  predicate ReadableFrom(r: VaReader, va: U64, size: U64) {
    va != 0 && r.readable(va).Some? && r.readable(va).value >= size
  }

  /** What `ReadElfDynamicView` returns, by the entries alone. */
  lemma DescribesByTags(r: VaReader, dynamicVa: U64, size: U64, view: DynamicView)
    ensures Describes(r, dynamicVa, size, view) <==>
            && dynamicVa != 0 && size >= 16 && size % 16 == 0 && ReadableFrom(r, dynamicVa, size)
            && exists n: U64 :: EndsAt(r, dynamicVa, size, n) && ViewByTags(r, dynamicVa, n, view)
  {
    if Describes(r, dynamicVa, size, view) {
      var n: U64, slots :|
        Terminates(r, dynamicVa, size, n) && Declares(r, dynamicVa, n, slots) && Usable(r, slots) && view == ViewOf(slots);
      TerminatesOnce(r, dynamicVa, size, n, slots);
      UsableByTags(r, dynamicVa, n, slots, view);
      assert EndsAt(r, dynamicVa, size, n) && ViewByTags(r, dynamicVa, n, view);
    }
    if n: U64 :| EndsAt(r, dynamicVa, size, n) && ViewByTags(r, dynamicVa, n, view) {
      var slots := SlotsOf(r, dynamicVa, size, n, n);
      TerminatesOnce(r, dynamicVa, size, n, slots);
      UsableByTags(r, dynamicVa, n, slots, view);
    }
  }

  lemma TerminatesOnce(r: VaReader, dynamicVa: U64, size: U64, n: U64, slots: map<U64, U64>)
    requires Declares(r, dynamicVa, n, slots)
    ensures Terminates(r, dynamicVa, size, n) <==> EndsAt(r, dynamicVa, size, n)
  {
    forall tag: U64, a: U64, b: U64 |
      tag in {4, 5, 6, 10, 11, 0x6fff_fef5} && Gives(r, dynamicVa, n, tag, a) && Gives(r, dynamicVa, n, tag, b)
      ensures a == b
    {
      TagGives(r, dynamicVa, n, slots, tag);
    }
    EndsInside(n, size);
  }

  lemma EndsInside(n: U64, size: U64)
    ensures n < size / ENTRY_SIZE <==> 16 * n + 16 <= size
  {
  }

  lemma UsableByTags(r: VaReader, dynamicVa: U64, n: U64, slots: map<U64, U64>, view: DynamicView)
    requires Declares(r, dynamicVa, n, slots)
    ensures Usable(r, slots) && view == ViewOf(slots) <==> ViewByTags(r, dynamicVa, n, view)
  {
    TagGives(r, dynamicVa, n, slots, 4);
    TagGives(r, dynamicVa, n, slots, 5);
    TagGives(r, dynamicVa, n, slots, 6);
    TagGives(r, dynamicVa, n, slots, 10);
    TagGives(r, dynamicVa, n, slots, 11);
    TagGives(r, dynamicVa, n, slots, 0x6fff_fef5);
    if Usable(r, slots) && view == ViewOf(slots) {
      UsableGives(r, dynamicVa, n, slots, view);
    }
    if ViewByTags(r, dynamicVa, n, view) {
      SlotIs(slots, 4, view.sysvHashVa);
      SlotIs(slots, 0x6fff_fef5, view.gnuHashVa);
    }
  }

  lemma UsableGives(r: VaReader, dynamicVa: U64, n: U64, slots: map<U64, U64>, view: DynamicView)
    requires Declares(r, dynamicVa, n, slots) && Usable(r, slots) && view == ViewOf(slots)
    ensures ViewByTags(r, dynamicVa, n, view)
  {
    TagGives(r, dynamicVa, n, slots, 4);
    TagGives(r, dynamicVa, n, slots, 5);
    TagGives(r, dynamicVa, n, slots, 6);
    TagGives(r, dynamicVa, n, slots, 10);
    TagGives(r, dynamicVa, n, slots, 11);
    TagGives(r, dynamicVa, n, slots, 0x6fff_fef5);
  }

  lemma SlotIs(slots: map<U64, U64>, tag: U64, found: Option<U64>)
    requires forall v: U64 :: (tag in slots && slots[tag] == v) <==> found == Some(v)
    ensures Slot(slots, tag) == found
  {
    if found.Some? {
      assert found == Some(found.value);
    } else if tag in slots {
      assert found == Some(slots[tag]);
    }
  }

  /** The declarations are exactly the known tags' values. */
  lemma TagGives(r: VaReader, dynamicVa: U64, n: U64, slots: map<U64, U64>, tag: U64)
    requires Declares(r, dynamicVa, n, slots) && tag in {4, 5, 6, 10, 11, 0x6fff_fef5}
    ensures forall v: U64 :: Gives(r, dynamicVa, n, tag, v) <==> tag in slots && slots[tag] == v
  {
    forall v: U64
      ensures Gives(r, dynamicVa, n, tag, v) <==> tag in slots && slots[tag] == v
    {
      if i: U64 :| i < n && EntryAt(r, dynamicVa, i) == Some((tag, v)) {
        assert EntryAgrees(r, dynamicVa, i, slots);
      }
    }
  }

  /** Entries without two values for a tag declare something. */
  lemma {:induction false} SlotsOf(r: VaReader, dynamicVa: U64, size: U64, n: U64, k: U64) returns (slots: map<U64, U64>)
    requires EndsAt(r, dynamicVa, size, n) && k <= n
    ensures Declares(r, dynamicVa, k, slots)
  {
    slots := map[];
    if k > 0 {
      slots := SlotsOf(r, dynamicVa, size, n, k - 1);
      var (tag, value) := EntryAt(r, dynamicVa, k - 1).value;
      if IsKnown(tag) {
        if tag in slots {
          assert Gives(r, dynamicVa, n, tag, slots[tag]) && Gives(r, dynamicVa, n, tag, value);
        }
        DeclaresStep(r, dynamicVa, k - 1, slots);
        slots := slots[tag := value];
      } else {
        DeclaresUnknown(r, dynamicVa, k - 1, slots);
      }
    }
  }

  /** A section with the four anchors and both hash tables, in the order link editors write them. */
  ghost predicate SevenEntries(r: VaReader, dynamicVa: U64, view: DynamicView) {
    && view.sysvHashVa.Some? && view.gnuHashVa.Some? && view.symbolEntrySize == 24 && view.strtabSize > 0
    && EntryAt(r, dynamicVa, 0) == Some((0x6fff_fef5, view.gnuHashVa.value))
    && EntryAt(r, dynamicVa, 1) == Some((4, view.sysvHashVa.value))
    && EntryAt(r, dynamicVa, 2) == Some((5, view.strtabVa)) && EntryAt(r, dynamicVa, 3) == Some((6, view.symtabVa))
    && EntryAt(r, dynamicVa, 4) == Some((10, view.strtabSize)) && EntryAt(r, dynamicVa, 5) == Some((11, 24))
    && EntryAt(r, dynamicVa, 6) == Some((0, 0))
    && ReadableFrom(r, view.symtabVa, 24) && ReadableFrom(r, view.strtabVa, view.strtabSize)
    && ReadableFrom(r, view.sysvHashVa.value, 8) && ReadableFrom(r, view.gnuHashVa.value, 16)
  }

  lemma SevenDescribe(r: VaReader, dynamicVa: U64, view: DynamicView)
    requires ReadableFrom(r, dynamicVa, 112) && SevenEntries(r, dynamicVa, view)
    ensures Describes(r, dynamicVa, 112, view)
  {
    SixValues(r, dynamicVa, view);
    SixEnd(r, dynamicVa, view);
    SixView(r, dynamicVa, view);
    DescribesByTags(r, dynamicVa, 112, view);
  }

  /** With these six entries a tag has the one value its entry gives. */
  ghost predicate SixGive(r: VaReader, dynamicVa: U64, view: DynamicView)
    requires view.sysvHashVa.Some? && view.gnuHashVa.Some?
  {
    && (forall v: U64 :: Gives(r, dynamicVa, 6, 0x6fff_fef5, v) <==> v == view.gnuHashVa.value)
    && (forall v: U64 :: Gives(r, dynamicVa, 6, 4, v) <==> v == view.sysvHashVa.value)
    && (forall v: U64 :: Gives(r, dynamicVa, 6, 5, v) <==> v == view.strtabVa)
    && (forall v: U64 :: Gives(r, dynamicVa, 6, 6, v) <==> v == view.symtabVa)
    && (forall v: U64 :: Gives(r, dynamicVa, 6, 10, v) <==> v == view.strtabSize)
    && (forall v: U64 :: Gives(r, dynamicVa, 6, 11, v) <==> v == 24)
  }

  lemma SixValues(r: VaReader, dynamicVa: U64, view: DynamicView)
    requires SevenEntries(r, dynamicVa, view)
    ensures SixGive(r, dynamicVa, view)
  {
    OneGives(r, dynamicVa, 0, 0x6fff_fef5, view.gnuHashVa.value);
    OneGives(r, dynamicVa, 1, 4, view.sysvHashVa.value);
    OneGives(r, dynamicVa, 2, 5, view.strtabVa);
    OneGives(r, dynamicVa, 3, 6, view.symtabVa);
    OneGives(r, dynamicVa, 4, 10, view.strtabSize);
    OneGives(r, dynamicVa, 5, 11, 24);
  }

  lemma OneGives(r: VaReader, dynamicVa: U64, i: U64, tag: U64, value: U64)
    requires i < 6 && EntryAt(r, dynamicVa, i) == Some((tag, value))
    requires forall j: U64 :: j < 6 && j != i ==> EntryAt(r, dynamicVa, j).Some? && EntryAt(r, dynamicVa, j).value.0 != tag
    ensures forall v: U64 :: Gives(r, dynamicVa, 6, tag, v) <==> v == value
  {
    assert Gives(r, dynamicVa, 6, tag, value);
  }

  lemma SixEnd(r: VaReader, dynamicVa: U64, view: DynamicView)
    requires SevenEntries(r, dynamicVa, view) && SixGive(r, dynamicVa, view)
    ensures EndsAt(r, dynamicVa, 112, 6)
  {
  }

  lemma SixView(r: VaReader, dynamicVa: U64, view: DynamicView)
    requires SevenEntries(r, dynamicVa, view) && SixGive(r, dynamicVa, view)
    ensures ViewByTags(r, dynamicVa, 6, view)
  {
  }
}
