/** The virtual-address reader, one dynamic symbol record, and the verdict on a set of records
    (src/elf/dynamic_view.cpp:78-145). */
module ElfSymbols {
  import opened Wrappers
  import opened Machine
  import opened BitLaws

  const SHN_UNDEF: U16 := 0
  const SYMBOL_SIZE: nat := 24

  /** One bounded ELF address space. Both answers are arbitrary: nothing about the image is trusted. */
  datatype VaReader = VaReader(read: (U64, nat) -> Option<seq<Byte>>, readable: U64 -> Option<U64>)

  datatype DynamicView = DynamicView(
    symtabVa: U64, strtabVa: U64, strtabSize: U64, symbolEntrySize: U64,
    sysvHashVa: Option<U64>, gnuHashVa: Option<U64>)

  datatype DynamicSymbol = DynamicSymbol(value: U64, size: U64, info: Byte, other: Byte, section: U16)

  datatype Lookup = Found(symbol: DynamicSymbol) | NotFound | Malformed

  /** A read that fills its buffer; anything else is a failed read. */
  function Fetch(r: VaReader, va: U64, size: nat): (b: Option<seq<Byte>>)
    ensures b.Some? ==> |b.value| == size
  {
    match r.read(va, size)
    case Some(bytes) => if |bytes| == size then Some(bytes) else None
    case None => None
  }

  function FetchU32(r: VaReader, va: U64): Option<U32> {
    match Fetch(r, va, 4)
    case Some(bytes) => Some(Le32(bytes))
    case None => None
  }

  function FetchU64(r: VaReader, va: U64): Option<U64> {
    match Fetch(r, va, 8)
    case Some(bytes) => Some(Le64(bytes))
    case None => None
  }

  /** `DynamicAnchorReadable`. */
  predicate AnchorReadable(r: VaReader, va: U64, minimum: U64) {
    va != 0 && r.readable(va).Some? && minimum <= r.readable(va).value
  }

  // ---- The name of a record ----

  /** The NUL-terminated string at `va` whose terminator lies within the next `remaining` bytes. */
  function NameAt(r: VaReader, va: nat, remaining: nat): Option<seq<Byte>>
    decreases remaining
  {
    if remaining == 0 || va >= TWO_64 then None
    else
      match Fetch(r, va, 1)
      case None => None
      case Some(b) =>
        if b[0] == 0 then Some([])
        else
          match NameAt(r, va + 1, remaining - 1)
          case None => None
          case Some(rest) => Some([b[0]] + rest)
  }

  method ReadSymbolName(r: VaReader, view: DynamicView, nameOffset: U32) returns (name: Option<seq<Byte>>)
    ensures name == NameOf(r, view, nameOffset)
  {
    if nameOffset >= view.strtabSize {
      return None;
    }
    var start := CheckedAdd(view.strtabVa, nameOffset);
    if start.None? {
      return None;
    }
    var remaining: U64 := view.strtabSize - nameOffset;
    var output: seq<Byte> := [];
    var index: U64 := 0;
    assert forall t: Option<seq<Byte>> :: Prefixed([], t) == t by {
      assert forall s: seq<Byte> :: [] + s == s;
    }
    while index < remaining
      invariant 0 <= index <= remaining
      invariant NameAt(r, start.value, remaining) == Prefixed(output, NameAt(r, start.value + index, remaining - index))
    {
      var entryVa := CheckedAdd(start.value, index);
      if entryVa.None? {
        return None;
      }
      var value := Fetch(r, entryVa.value, 1);
      if value.None? {
        return None;
      }
      if value.value[0] == 0 {
        assert output + [] == output;
        return Some(output);
      }
      ghost var rest := NameAt(r, start.value + index + 1, remaining - index - 1);
      assert rest.Some? ==> output + ([value.value[0]] + rest.value) == (output + [value.value[0]]) + rest.value;
      output := output + [value.value[0]];
      index := index + 1;
    }
    return None;
  }

  ghost function Prefixed(head: seq<Byte>, tail: Option<seq<Byte>>): Option<seq<Byte>> {
    match tail
    case None => None
    case Some(rest) => Some(head + rest)
  }

  function NameOf(r: VaReader, view: DynamicView, nameOffset: U32): Option<seq<Byte>> {
    if nameOffset < view.strtabSize && view.strtabVa + nameOffset < TWO_64
    then NameAt(r, view.strtabVa + nameOffset, view.strtabSize - nameOffset) else None
  }

  /** The bytes at `va` spell the name, without a zero, and a zero follows it. */
  ghost predicate Spells(r: VaReader, va: nat, name: seq<Byte>) {
    && va + |name| < TWO_64
    && (forall k :: 0 <= k < |name| ==> Fetch(r, va + k, 1) == Some([name[k]]) && name[k] != 0)
    && Fetch(r, va + |name|, 1) == Some([0])
  }

  lemma SpellsUnrolled(r: VaReader, va: nat, name: seq<Byte>)
    requires name != []
    ensures Spells(r, va, name) <==>
            && va + 1 < TWO_64 && Fetch(r, va, 1) == Some([name[0]]) && name[0] != 0
            && Spells(r, va + 1, name[1..])
  {
    var rest := name[1..];
    if Spells(r, va, name) {
      assert Fetch(r, va + 0, 1) == Some([name[0]]);
      forall k | 0 <= k < |rest|
        ensures Fetch(r, va + 1 + k, 1) == Some([rest[k]]) && rest[k] != 0
      {
        assert Fetch(r, va + (k + 1), 1) == Some([name[k + 1]]);
      }
    }
  }

  /** What `NameAt` means: it yields a name exactly when the memory spells it within the bound. */
  lemma {:induction false} NameAtSpells(r: VaReader, va: nat, remaining: nat, name: seq<Byte>)
    ensures NameAt(r, va, remaining) == Some(name) <==> |name| < remaining && Spells(r, va, name)
    decreases remaining
  {
    if name == [] {
      if remaining != 0 && va < TWO_64 && Fetch(r, va, 1).Some? {
        var b := Fetch(r, va, 1).value;
        assert b == [b[0]];
        assert va + 0 == va;
      }
    } else {
      SpellsUnrolled(r, va, name);
      if remaining != 0 && va < TWO_64 && Fetch(r, va, 1).Some? {
        var b := Fetch(r, va, 1).value;
        assert b == [b[0]];
        NameAtSpells(r, va + 1, remaining - 1, name[1..]);
        assert name == [name[0]] + name[1..];
        var rest := NameAt(r, va + 1, remaining - 1);
        if rest.Some? {
          assert ([b[0]] + rest.value)[1..] == rest.value;
        }
      }
    }
  }

  /** The name of a record: what the string table spells from its offset on, terminator included, and nothing after
      the table. */
  lemma NameMeans(r: VaReader, view: DynamicView, nameOffset: U32, name: seq<Byte>)
    ensures NameOf(r, view, nameOffset) == Some(name) <==>
            nameOffset + |name| < view.strtabSize && Spells(r, view.strtabVa + nameOffset, name)
  {
    if nameOffset < view.strtabSize && view.strtabVa + nameOffset < TWO_64 {
      NameAtSpells(r, view.strtabVa + nameOffset, view.strtabSize - nameOffset, name);
    }
  }

  // ---- One record against one wanted name ----

  /** The 24 bytes of a record (gABI chapter 4, "Symbol Table"). */
  function RecordBytes(nameOffset: U32, symbol: DynamicSymbol): seq<Byte> {
    Bytes32(nameOffset) + [symbol.info, symbol.other] + Bytes16(symbol.section) + Bytes64(symbol.value) + Bytes64(symbol.size)
  }

  /** Record `i` stands `24 * i` bytes into the symbol table, and what was written there is read back. */
  lemma RecordReads(r: VaReader, view: DynamicView, i: U64, nameOffset: U32, symbol: DynamicSymbol)
    requires view.symbolEntrySize == 24 && view.symtabVa + 24 * i < TWO_64
    requires Fetch(r, view.symtabVa + 24 * i, 24) == Some(RecordBytes(nameOffset, symbol))
    ensures RecordAt(r, view, i) == match NameOf(r, view, nameOffset)
                                    case None => None
                                    case Some(name) => Some((name, symbol))
  {
    FieldsRead(nameOffset, symbol);
  }

  lemma FieldsRead(nameOffset: U32, symbol: DynamicSymbol)
    ensures var b := RecordBytes(nameOffset, symbol);
            |b| == 24 && Le32(b[0..4]) == nameOffset && SymbolFields(b) == symbol
  {
    var b := RecordBytes(nameOffset, symbol);
    assert b[0..4] == Bytes32(nameOffset) && b[4] == symbol.info && b[5] == symbol.other;
    assert b[6..8] == Bytes16(symbol.section) && b[8..16] == Bytes64(symbol.value) && b[16..24] == Bytes64(symbol.size);
    Le32Reads(nameOffset);
    Le16Reads(symbol.section);
    Le64Reads(symbol.value);
    Le64Reads(symbol.size);
  }

  /** The record at `index`: its name and its fields. */
  function RecordAt(r: VaReader, view: DynamicView, index: U64): Option<(seq<Byte>, DynamicSymbol)> {
    if view.symbolEntrySize != SYMBOL_SIZE then None
    else
      match CheckedMulAdd(view.symtabVa, index, view.symbolEntrySize)
      case None => None
      case Some(va) =>
        match Fetch(r, va, SYMBOL_SIZE)
        case None => None
        case Some(b) =>
          match NameOf(r, view, Le32(b[0..4]))
          case None => None
          case Some(name) => Some((name, SymbolFields(b)))
  }

  function SymbolFields(b: seq<Byte>): DynamicSymbol
    requires |b| == SYMBOL_SIZE
  {
    DynamicSymbol(Le64(b[8..16]), Le64(b[16..24]), b[4], b[5], Le16(b[6..8]))
  }

  /** Another name is not a match; the wanted name on an undefined record is malformed. */
  function Judge(record: Option<(seq<Byte>, DynamicSymbol)>, wanted: seq<Byte>): Lookup {
    match record
    case None => Malformed
    case Some((name, symbol)) =>
      if name != wanted then NotFound
      else if symbol.section == SHN_UNDEF || symbol.value == 0 then Malformed
      else Found(symbol)
  }

  function MatchAt(r: VaReader, view: DynamicView, wanted: seq<Byte>, index: U64): Lookup {
    Judge(RecordAt(r, view, index), wanted)
  }

  method MatchSymbol(r: VaReader, view: DynamicView, index: U64, wanted: seq<Byte>) returns (result: Lookup)
    ensures result == MatchAt(r, view, wanted, index)
  {
    if view.symbolEntrySize != SYMBOL_SIZE {
      return Malformed;
    }
    var symbolVa := CheckedMulAdd(view.symtabVa, index, view.symbolEntrySize);
    if symbolVa.None? {
      return Malformed;
    }
    var bytes := Fetch(r, symbolVa.value, SYMBOL_SIZE);
    if bytes.None? {
      return Malformed;
    }
    var actual := ReadSymbolName(r, view, Le32(bytes.value[0..4]));
    if actual.None? {
      return Malformed;
    }
    if actual.value != wanted {
      return NotFound;
    }
    var symbol := SymbolFields(bytes.value);
    if symbol.section == SHN_UNDEF || symbol.value == 0 {
      return Malformed;
    }
    return Found(symbol);
  }

  // ---- The verdict on a set of records: the linear scan every lookup is compared with ----

  /** What examining every record of a set, in any order, says about a name. */
  ghost function Verdict(r: VaReader, view: DynamicView, wanted: seq<Byte>, records: set<U64>): Lookup {
    if exists i :: i in records && MatchAt(r, view, wanted, i) == Malformed then Malformed
    else if Disagree(r, view, wanted, records) then Malformed
    else if exists i :: i in records && MatchAt(r, view, wanted, i).Found? then
      var i :| i in records && MatchAt(r, view, wanted, i).Found?;
      MatchAt(r, view, wanted, i)
    else NotFound
  }

  ghost predicate Disagree(r: VaReader, view: DynamicView, wanted: seq<Byte>, records: set<U64>) {
    exists i, j ::
      && i in records && j in records
      && MatchAt(r, view, wanted, i).Found? && MatchAt(r, view, wanted, j).Found?
      && MatchAt(r, view, wanted, i) != MatchAt(r, view, wanted, j)
  }

  /** The state of a scan: `candidate` is what the examined records have agreed on so far. */
  ghost predicate Scanned(r: VaReader, view: DynamicView, wanted: seq<Byte>, records: set<U64>,
                          candidate: Option<DynamicSymbol>)
  {
    && (forall i :: i in records ==>
                      MatchAt(r, view, wanted, i) == NotFound ||
                      (candidate.Some? && MatchAt(r, view, wanted, i) == Found(candidate.value)))
    && (candidate.Some? ==> exists i :: i in records && MatchAt(r, view, wanted, i) == Found(candidate.value))
  }

  function Outcome(candidate: Option<DynamicSymbol>): Lookup {
    match candidate
    case Some(symbol) => Found(symbol)
    case None => NotFound
  }

  lemma ScannedVerdict(r: VaReader, view: DynamicView, wanted: seq<Byte>, records: set<U64>,
                       candidate: Option<DynamicSymbol>)
    requires Scanned(r, view, wanted, records, candidate)
    ensures Verdict(r, view, wanted, records) == Outcome(candidate)
  {
    if candidate.Some? {
      var i :| i in records && MatchAt(r, view, wanted, i) == Found(candidate.value);
      assert MatchAt(r, view, wanted, i).Found?;
    }
  }

  /** `RememberDynamicSymbol` and the malformed check: this match cannot join the candidate. */
  predicate Rejects(m: Lookup, candidate: Option<DynamicSymbol>) {
    m == Malformed || (m.Found? && candidate.Some? && candidate.value != m.symbol)
  }

  lemma ScannedStep(r: VaReader, view: DynamicView, wanted: seq<Byte>, records: set<U64>, next: U64,
                    candidate: Option<DynamicSymbol>)
    requires Scanned(r, view, wanted, records, candidate)
    requires !Rejects(MatchAt(r, view, wanted, next), candidate)
    ensures var m := MatchAt(r, view, wanted, next);
            Scanned(r, view, wanted, records + {next}, if m.Found? then Some(m.symbol) else candidate)
  {
    if candidate.Some? {
      var i :| i in records && MatchAt(r, view, wanted, i) == Found(candidate.value);
      assert i in records + {next};
    }
    assert next in records + {next};
  }

  /** One rejected match makes the verdict on every set around it malformed. */
  lemma RejectedVerdict(r: VaReader, view: DynamicView, wanted: seq<Byte>, records: set<U64>, next: U64, all: set<U64>,
                        candidate: Option<DynamicSymbol>)
    requires Scanned(r, view, wanted, records, candidate)
    requires Rejects(MatchAt(r, view, wanted, next), candidate)
    requires records <= all && next in all
    ensures Verdict(r, view, wanted, all) == Malformed
  {
    if MatchAt(r, view, wanted, next) != Malformed {
      var i :| i in records && MatchAt(r, view, wanted, i) == Found(candidate.value);
      assert Disagree(r, view, wanted, all);
    }
  }

  /** Records that answer "not this name" never change a verdict. */
  lemma VerdictIgnoresOthers(r: VaReader, view: DynamicView, wanted: seq<Byte>, some: set<U64>, all: set<U64>)
    requires some <= all
    requires forall i :: i in all && i !in some ==> MatchAt(r, view, wanted, i) == NotFound
    ensures Verdict(r, view, wanted, some) == Verdict(r, view, wanted, all)
  {
    if Disagree(r, view, wanted, all) {
      assert Disagree(r, view, wanted, some);
    } else if i :| i in some && MatchAt(r, view, wanted, i).Found? {
      assert forall j :: j in all && MatchAt(r, view, wanted, j).Found? ==>
                           MatchAt(r, view, wanted, j) == MatchAt(r, view, wanted, i);
    }
  }

  /** The verdict in words. Found: a record carries the name, and every record that does is this defined
      symbol. Not found: no record carries it. Otherwise - two differ, or one is undefined - malformed. */
  lemma VerdictMeaning(r: VaReader, view: DynamicView, wanted: seq<Byte>, records: set<U64>, symbol: DynamicSymbol)
    requires forall i :: i in records ==> RecordAt(r, view, i).Some?
    ensures Verdict(r, view, wanted, records) == Found(symbol) <==>
            && symbol.section != 0 && symbol.value != 0
            && (exists i :: i in records && RecordAt(r, view, i) == Some((wanted, symbol)))
            && (forall i :: i in records ==> Carries(r, view, wanted, i, symbol))
    ensures Verdict(r, view, wanted, records) == NotFound <==>
            forall i :: i in records ==> RecordAt(r, view, i).value.0 != wanted
  {
    if Verdict(r, view, wanted, records) == Found(symbol) {
      var i :| i in records && MatchAt(r, view, wanted, i).Found?;
      assert !Disagree(r, view, wanted, records);
      forall j | j in records
        ensures Carries(r, view, wanted, j, symbol)
      {
        assert MatchAt(r, view, wanted, j) != Malformed;
      }
    }
    if && symbol.section != 0 && symbol.value != 0
       && (exists i :: i in records && RecordAt(r, view, i) == Some((wanted, symbol)))
       && (forall i :: i in records ==> Carries(r, view, wanted, i, symbol))
    {
      forall j | j in records
        ensures MatchAt(r, view, wanted, j) == NotFound || MatchAt(r, view, wanted, j) == Found(symbol)
      {
        assert Carries(r, view, wanted, j, symbol);
      }
      var i :| i in records && RecordAt(r, view, i) == Some((wanted, symbol));
      assert MatchAt(r, view, wanted, i) == Found(symbol);
      ScannedVerdict(r, view, wanted, records, Some(symbol));
    }
    VerdictNotFound(r, view, wanted, records);
  }

  /** Record `i` is either another name or exactly this symbol. */
  ghost predicate Carries(r: VaReader, view: DynamicView, wanted: seq<Byte>, i: U64, symbol: DynamicSymbol) {
    RecordAt(r, view, i).Some? && RecordAt(r, view, i).value.0 == wanted ==> RecordAt(r, view, i).value.1 == symbol
  }

  lemma VerdictNotFound(r: VaReader, view: DynamicView, wanted: seq<Byte>, records: set<U64>)
    requires forall i :: i in records ==> RecordAt(r, view, i).Some?
    ensures Verdict(r, view, wanted, records) == NotFound <==>
            forall i :: i in records ==> RecordAt(r, view, i).value.0 != wanted
  {
    if forall i :: i in records ==> RecordAt(r, view, i).value.0 != wanted {
      ScannedVerdict(r, view, wanted, records, None);
    } else {
      var i :| i in records && RecordAt(r, view, i).value.0 == wanted;
      assert MatchAt(r, view, wanted, i) != NotFound;
    }
  }

  // ---- Readable tables ----

  /** The reader serves every non-empty part of `content`, placed at `base`. */
  ghost predicate Backs(r: VaReader, base: U64, content: seq<Byte>) {
    && base + |content| <= TWO_64
    && (forall o: nat, n: nat :: 0 < n && o + n <= |content| ==> Serves(r, base, content, o, n))
  }

  ghost predicate Serves(r: VaReader, base: U64, content: seq<Byte>, o: nat, n: nat)
    requires base + |content| <= TWO_64 && 0 < n && o + n <= |content|
  {
    && r.read(base + o, n) == Some(content[o..o + n])
    && r.readable(base + o).Some? && r.readable(base + o).value >= |content| - o
  }

  /** The `k`-th 32-bit word of a table. */
  function Word(content: seq<Byte>, k: nat): U32
    requires 4 * k + 4 <= |content|
  {
    Le32(content[4 * k..4 * k + 4])
  }

  lemma BackedRange(r: VaReader, base: U64, content: seq<Byte>, o: nat, n: nat)
    requires Backs(r, base, content) && 0 < n && o + n <= |content|
    ensures Fetch(r, base + o, n) == Some(content[o..o + n])
    ensures r.readable(base + o).Some? && r.readable(base + o).value >= |content| - o
  {
    assert Serves(r, base, content, o, n);
  }

  lemma BackedWord(r: VaReader, base: U64, content: seq<Byte>, k: nat)
    requires Backs(r, base, content) && 4 * k + 4 <= |content|
    ensures FetchU32(r, base + 4 * k) == Some(Word(content, k))
  {
    BackedRange(r, base, content, 4 * k, 4);
  }

  /** The records `first` to `count` - 1 of the symbol table. */
  ghost function AllRecords(first: nat, count: U32): (s: set<U64>)
    ensures forall i :: i in s <==> first <= i < count
  {
    if count <= first then {} else AllRecords(first, count - 1) + {count - 1}
  }
}
