/** System V hash lookup (src/elf/dynamic_view.cpp:61-70 and 147-214; gABI chapter 5, "Hash Table"). */
module ElfSysvHash {
  import opened Wrappers
  import opened Machine
  import opened BitLaws
  import opened ElfSymbols

  /** One step of the hash: shift, add, and fold the top nibble back in. */
  function SysvStep(hash: U32, value: Byte): U32 {
    var shifted: U32 := (hash * 16 + value) % TWO_32;
    var high := And(shifted, 0xf000_0000);
    var folded := if high != 0 then Xor(shifted, high / 0x100_0000) else shifted;
    AndBelowMask(shifted, 0xf000_0000);
    AndBelowMask(folded, 0xffff_ffff - high);
    And(folded, 0xffff_ffff - high)
  }

  function SysvHash(name: seq<Byte>): U32 {
    if name == [] then 0 else SysvStep(SysvHash(name[..|name| - 1]), name[|name| - 1])
  }

  /** What a step means: of the 32 bits of `16 * hash + value`, the top four are taken off and folded into bits 4 to 7
      of the rest. */
  lemma StepFolds(hash: U32, value: Byte)
    ensures var t := (16 * hash + value) % 0x1_0000_0000;
            SysvStep(hash, value) == Xor(t % 0x1000_0000, 16 * (t / 0x1000_0000)) < 0x1000_0000
  {
    var t: U32 := (hash * 16 + value) % TWO_32;
    var k := Power28();
    Fold(t, t / 0x1000_0000, t % 0x1000_0000, k, 0x1000_0000);
  }

  lemma Power28() returns (k: nat)
    ensures Pow2(k) == 0x1000_0000
  {
    Pow2Values();
    k := 28;
  }

  lemma Fold(t: U32, q: nat, r: nat, k: nat, p: nat)
    requires p == Pow2(k) && p == 0x1000_0000 && t == q * p + r && r < p
    ensures var high := And(t, 0xf000_0000);
            var folded := if high != 0 then Xor(t, high / 0x100_0000) else t;
            high < 0x1_0000_0000 && And(folded, 0xffff_ffff - high) == Xor(r, 16 * q) < p
  {
    TopNibble(t, q, r, k, p);
    XorSplit(t, 16 * q, q, r, 0, 16 * q, k, p);
    XorZero(q);
    XorZero(t);
    XorZero(r);
    Cleared(q * p + Xor(r, 16 * q), q, Xor(r, 16 * q), k, p);
  }

  lemma TopNibble(t: U32, q: nat, r: nat, k: nat, p: nat)
    requires p == Pow2(k) && p == 0x1000_0000 && t == q * p + r && r < p
    ensures q < 16 && And(t, 0xf000_0000) == q * p
  {
    HighMask(t, q, r, 15, k, p);
    AndAllOnes(q, 4, 16);
  }

  lemma Cleared(x: nat, q: nat, low: nat, k: nat, p: nat)
    requires p == Pow2(k) && p == 0x1000_0000 && q < 16 && x == q * p + low && low < p
    ensures And(x, 0xffff_ffff - q * p) == low
  {
    AndSplit(x, 0xffff_ffff - q * p, q, low, 15 - q, p - 1, k, p);
    AndAllOnes(low, k, p);
    AndComplement(q, 15 - q, 4, 16);
  }

  /** A step whose 32-bit sum is `q`, `high` and `low` put together. */
  lemma StepIs(hash: U32, value: Byte, q: nat, high: nat, low: nat)
    requires q < 16 && low < 0x100 && high < 0x10_0000
    requires 16 * hash + value == q * 0x1000_0000 + high * 0x100 + low
    ensures SysvStep(hash, value) == high * 0x100 + Xor(low, 16 * q)
  {
    StepFolds(hash, value);
    CutAt28(16 * hash + value, q, high * 0x100 + low);
    Parted(high * 0x100 + low, q, high, low);
  }

  lemma CutAt28(s: nat, q: nat, r: nat)
    requires s == q * 0x1000_0000 + r && q < 16 && r < 0x1000_0000
    ensures s % 0x1_0000_0000 / 0x1000_0000 == q && s % 0x1_0000_0000 % 0x1000_0000 == r
  {
  }

  lemma Parted(r: nat, q: nat, high: nat, low: nat)
    requires q < 16 && low < 0x100 && r == high * 0x100 + low
    ensures Xor(r, 16 * q) == high * 0x100 + Xor(low, 16 * q)
  {
    Pow2Values();
    XorSplit(r, 16 * q, high, low, 0, 16 * q, 8, 0x100);
    XorZero(high);
  }

  lemma XorZero(x: nat)
    ensures Xor(x, 0) == x
  {
  }

  method ComputeSysvHash(name: seq<Byte>) returns (hash: U32)
    ensures hash == SysvHash(name)
  {
    hash := 0;
    for k := 0 to |name|
      invariant hash == SysvHash(name[..k])
    {
      assert name[..k + 1][..k] == name[..k];
      hash := SysvStep(hash, name[k]);
    }
    assert name[..|name|] == name;
  }

  /** A table whose declared extent is readable: where its chains start, how many entries it has, and the
      first record of the wanted bucket. */
  datatype SysvTable = SysvTable(chainCount: U32, chainsVa: U64, head: U32)

  /** Every check the lookup makes before it walks a chain. */
  function OpenSysvTable(r: VaReader, view: DynamicView, hash: U32): Option<SysvTable> {
    if view.sysvHashVa.None? then None
    else
      var hashVa := view.sysvHashVa.value;
      var header := Fetch(r, hashVa, 8);
      if header.None? then None
      else
        var bucketCount: U32 := Le32(header.value[0..4]);
        var chainCount: U32 := Le32(header.value[4..8]);
        if bucketCount == 0 || chainCount == 0 || view.symbolEntrySize != SYMBOL_SIZE then None
        else
          var bucketsVa := CheckedAdd(hashVa, 8);
          var bucketsSize := CheckedMul(bucketCount, 4);
          var chainsSize := CheckedMul(chainCount, 4);
          var dynsymSize := CheckedMul(chainCount, view.symbolEntrySize);
          if bucketsVa.None? || bucketsSize.None? || chainsSize.None? || dynsymSize.None? then None
          else
            var withBuckets := CheckedAdd(8, bucketsSize.value);
            if withBuckets.None? then None
            else
              var tableSize := CheckedAdd(withBuckets.value, chainsSize.value);
              if tableSize.None? || !AnchorReadable(r, hashVa, tableSize.value)
                 || !AnchorReadable(r, view.symtabVa, dynsymSize.value) then None
              else
                var bucketVa := CheckedMulAdd(bucketsVa.value, hash % bucketCount, 4);
                if bucketVa.None? then None
                else
                  var head := FetchU32(r, bucketVa.value);
                  var chainsVa := CheckedAdd(bucketsVa.value, bucketsSize.value);
                  if head.None? || chainsVa.None? then None
                  else Some(SysvTable(chainCount, chainsVa.value, head.value))
  }

  /** The lookup goes on to a chain exactly when the header names a bucket and a record, all of the table and of the symbol
      table is readable, and the hash's bucket is; the chain words follow the buckets. */
  lemma OpensExactly(r: VaReader, view: DynamicView, hash: U32, va: U64, header: seq<Byte>, buckets: U32, records: U32)
    requires view.sysvHashVa == Some(va) && Fetch(r, va, 8) == Some(header)
    requires buckets == Le32(header[0..4]) && records == Le32(header[4..8])
    ensures OpenSysvTable(r, view, hash).Some? <==>
            && va != 0 && view.symtabVa != 0 && view.symbolEntrySize == 24
            && buckets > 0 && records > 0 && va + 8 + 4 * buckets < TWO_64
            && r.readable(va).Some? && r.readable(va).value >= 8 + 4 * buckets + 4 * records
            && r.readable(view.symtabVa).Some? && r.readable(view.symtabVa).value >= 24 * records
            && FetchU32(r, va + 8 + 4 * (hash % buckets)).Some?
    ensures OpenSysvTable(r, view, hash).Some? ==>
              OpenSysvTable(r, view, hash).value
              == SysvTable(records, va + 8 + 4 * buckets, FetchU32(r, va + 8 + 4 * (hash % buckets)).value)
  {
  }

  lemma OpensNothing(r: VaReader, view: DynamicView, hash: U32)
    requires view.sysvHashVa.None? || Fetch(r, view.sysvHashVa.value, 8).None?
    ensures OpenSysvTable(r, view, hash).None?
  {
  }

  /** The link stored for a record, when it is readable. */
  function Link(r: VaReader, t: SysvTable, record: U32): Option<U32> {
    match CheckedMulAdd(t.chainsVa, record, 4)
    case None => None
    case Some(va) => FetchU32(r, va)
  }

  /** `path` is the whole chain from `start`: in-range records, each linked to the next, the last to 0. */
  ghost predicate Chain(r: VaReader, t: SysvTable, start: U32, path: seq<U32>)
    decreases |path|
  {
    if path == [] then start == 0
    else
      && path[0] == start && 0 < start < t.chainCount
      && Link(r, t, start).Some?
      && Chain(r, t, Link(r, t, start).value, path[1..])
  }

  lemma {:induction false} ChainUnique(r: VaReader, t: SysvTable, start: U32, p: seq<U32>, q: seq<U32>)
    requires Chain(r, t, start, p) && Chain(r, t, start, q)
    ensures p == q
    decreases |p|
  {
    if p != [] && q != [] {
      ChainUnique(r, t, Link(r, t, start).value, p[1..], q[1..]);
      assert p == [p[0]] + p[1..] && q == [q[0]] + q[1..];
    }
  }

  lemma {:induction false} ChainSuffix(r: VaReader, t: SysvTable, start: U32, p: seq<U32>, k: nat)
    requires Chain(r, t, start, p) && k < |p|
    ensures Chain(r, t, p[k], p[k..])
    ensures 0 < p[k] < t.chainCount
    decreases k
  {
    if k > 0 {
      ChainSuffix(r, t, Link(r, t, start).value, p[1..], k - 1);
      assert p[1..][k - 1..] == p[k..];
    }
  }

  /** A chain visits no record twice: a repeated record would have two different tails. */
  lemma ChainDistinct(r: VaReader, t: SysvTable, start: U32, p: seq<U32>)
    requires Chain(r, t, start, p)
    ensures forall i, j :: 0 <= i < j < |p| ==> p[i] != p[j]
  {
    forall i, j | 0 <= i < j < |p|
      ensures p[i] != p[j]
    {
      ChainSuffix(r, t, start, p, i);
      ChainSuffix(r, t, start, p, j);
      if p[i] == p[j] {
        ChainUnique(r, t, p[i], p[i..], p[j..]);
      }
    }
  }

  /** Pigeonhole: distinct records below a bound, none of them 0, are fewer than the bound. */
  lemma Pigeonhole(p: seq<U32>, bound: U32)
    requires bound > 0
    requires forall k :: 0 <= k < |p| ==> 0 < p[k] < bound
    requires forall i, j :: 0 <= i < j < |p| ==> p[i] != p[j]
    ensures |p| < bound
  {
    DistinctCardinality(p);
    BelowCardinality(Elements(p), bound);
  }

  lemma {:induction false} DistinctCardinality(p: seq<U32>)
    requires forall i, j :: 0 <= i < j < |p| ==> p[i] != p[j]
    ensures |Elements(p)| == |p|
  {
    if p != [] {
      var last := |p| - 1;
      DistinctCardinality(p[..last]);
      assert Elements(p) == Elements(p[..last]) + {p[last]};
    }
  }

  lemma {:induction false} BelowCardinality(s: set<U64>, bound: nat)
    requires bound > 0
    requires forall v :: v in s ==> 0 < v < bound
    ensures |s| < bound
  {
    if bound == 1 {
      assert s == {};
    } else {
      BelowCardinality(s - {bound - 1}, bound - 1);
      assert s <= (s - {bound - 1}) + {bound - 1};
    }
  }

  /** An in-range chain is never as long as the table has entries, so no length bound rejects one. */
  lemma ChainShort(r: VaReader, t: SysvTable, start: U32, p: seq<U32>)
    requires Chain(r, t, start, p)
    ensures |p| == 0 || |p| < t.chainCount
  {
    ChainDistinct(r, t, start, p);
    forall k | 0 <= k < |p| ensures 0 < p[k] < t.chainCount {
      ChainSuffix(r, t, start, p, k);
    }
    if p != [] {
      Pigeonhole(p, t.chainCount);
    }
  }

  /** `seen` is the part of the walk already made from `start`; `here` is where it stands. */
  ghost predicate Walked(r: VaReader, t: SysvTable, start: U32, seen: seq<U32>, here: U32)
    decreases |seen|
  {
    if seen == [] then start == here
    else
      && seen[0] == start && 0 < start < t.chainCount
      && Link(r, t, start).Some?
      && Walked(r, t, Link(r, t, start).value, seen[1..], here)
  }

  lemma {:induction false} WalkedStep(r: VaReader, t: SysvTable, start: U32, seen: seq<U32>, here: U32)
    requires Walked(r, t, start, seen, here)
    requires 0 < here < t.chainCount && Link(r, t, here).Some?
    ensures Walked(r, t, start, seen + [here], Link(r, t, here).value)
    decreases |seen|
  {
    if seen != [] {
      WalkedStep(r, t, Link(r, t, start).value, seen[1..], here);
      assert (seen + [here])[1..] == seen[1..] + [here];
    }
  }

  /** Every chain from `start` continues the walk made so far, and conversely. */
  lemma {:induction false} WalkedChain(r: VaReader, t: SysvTable, start: U32, seen: seq<U32>, here: U32, p: seq<U32>)
    requires Walked(r, t, start, seen, here)
    ensures Chain(r, t, start, p) <==> seen <= p && Chain(r, t, here, p[|seen|..])
    decreases |seen|
  {
    if seen == [] {
      assert p[0..] == p;
    } else if p != [] {
      WalkedChain(r, t, Link(r, t, start).value, seen[1..], here, p[1..]);
      assert seen <= p ==> p[1..][|seen| - 1..] == p[|seen|..];
      assert seen == [seen[0]] + seen[1..] && p == [p[0]] + p[1..];
      assert seen[1..] <= p[1..] && seen[0] == p[0] ==> seen <= p;
    }
  }

  ghost function Elements(path: seq<U32>): (s: set<U64>)
    ensures forall v :: v in s <==> v in path
  {
    set v: U64 | v in path
  }

  /** What a SysV lookup answers: the verdict on the records of the wanted bucket's chain when that chain is
      complete, and malformed when it cycles, leaves the table or cannot be read. */
  ghost function SysvAnswer(r: VaReader, view: DynamicView, name: seq<Byte>): Lookup {
    match OpenSysvTable(r, view, SysvHash(name))
    case None => Malformed
    case Some(t) =>
      if exists p :: Chain(r, t, t.head, p) then
        var p :| Chain(r, t, t.head, p);
        Verdict(r, view, name, Elements(p))
      else Malformed
  }

  method FindSysvSymbol(r: VaReader, view: DynamicView, name: seq<Byte>) returns (result: Lookup)
    ensures result == SysvAnswer(r, view, name)
  {
    var hash := ComputeSysvHash(name);
    var table := OpenSysvTable(r, view, hash);
    if table.None? {
      return Malformed;
    }
    var t := table.value;
    var index: U32 := t.head;
    var visited: U64 := 0;
    var candidate: Option<DynamicSymbol> := None;
    ghost var seen: seq<U32> := [];
    while index != 0
      invariant visited == |seen| <= t.chainCount
      invariant Walked(r, t, t.head, seen, index)
      invariant Scanned(r, view, name, Elements(seen), candidate)
      decreases t.chainCount - visited
    {
      if index >= t.chainCount || visited >= t.chainCount {
        NoChainFrom(r, t, seen, index);
        return Malformed;
      }
      var match_ := MatchSymbol(r, view, index, name);
      if Rejects(match_, candidate) {
        RejectedRecord(r, view, name, t, seen, index, candidate);
        return Malformed;
      }
      ScannedStep(r, view, name, Elements(seen), index, candidate);
      candidate := if match_.Found? then Some(match_.symbol) else candidate;
      var next := Link(r, t, index);
      if next.None? || next.value == index {
        BrokenLink(r, t, seen, index);
        return Malformed;
      }
      WalkedStep(r, t, t.head, seen, index);
      assert Elements(seen + [index]) == Elements(seen) + {index};
      seen := seen + [index];
      index := next.value;
      visited := visited + 1;
    }
    WalkedChain(r, t, t.head, seen, 0, seen);
    CompleteChain(r, view, name, t, seen);
    ScannedVerdict(r, view, name, Elements(seen), candidate);
    return Outcome(candidate);
  }

  lemma NoChainFrom(r: VaReader, t: SysvTable, seen: seq<U32>, here: U32)
    requires Walked(r, t, t.head, seen, here) && here != 0
    requires here >= t.chainCount || |seen| >= t.chainCount
    ensures forall p :: !Chain(r, t, t.head, p)
  {
    forall p
      ensures !Chain(r, t, t.head, p)
    {
      if Chain(r, t, t.head, p) {
        WalkedChain(r, t, t.head, seen, here, p);
        ChainShort(r, t, t.head, p);
      }
    }
  }

  lemma BrokenLink(r: VaReader, t: SysvTable, seen: seq<U32>, here: U32)
    requires Walked(r, t, t.head, seen, here) && here != 0
    requires Link(r, t, here).None? || Link(r, t, here).value == here
    ensures forall p :: !Chain(r, t, t.head, p)
  {
    forall p
      ensures !Chain(r, t, t.head, p)
    {
      if Chain(r, t, t.head, p) {
        WalkedChain(r, t, t.head, seen, here, p);
        var q := p[|seen|..];
        ChainUnique(r, t, here, q, q[1..]);
      }
    }
  }

  lemma CompleteChain(r: VaReader, view: DynamicView, name: seq<Byte>, t: SysvTable, p: seq<U32>)
    requires OpenSysvTable(r, view, SysvHash(name)) == Some(t) && Chain(r, t, t.head, p)
    ensures SysvAnswer(r, view, name) == Verdict(r, view, name, Elements(p))
  {
    var q :| Chain(r, t, t.head, q) && SysvAnswer(r, view, name) == Verdict(r, view, name, Elements(q));
    ChainUnique(r, t, t.head, p, q);
  }

  /** A record that is malformed, or disagrees with the candidate, decides the answer however the walk ends. */
  lemma RejectedRecord(r: VaReader, view: DynamicView, name: seq<Byte>, t: SysvTable, seen: seq<U32>, here: U32,
                       candidate: Option<DynamicSymbol>)
    requires OpenSysvTable(r, view, SysvHash(name)) == Some(t)
    requires Walked(r, t, t.head, seen, here) && here != 0
    requires Scanned(r, view, name, Elements(seen), candidate)
    requires Rejects(MatchAt(r, view, name, here), candidate)
    ensures SysvAnswer(r, view, name) == Malformed
  {
    if p :| Chain(r, t, t.head, p) {
      CompleteChain(r, view, name, t, p);
      WalkedChain(r, t, t.head, seen, here, p);
      assert p[|seen|] == here;
      assert here in Elements(p) && Elements(seen) <= Elements(p);
      RejectedVerdict(r, view, name, Elements(seen), here, Elements(p), candidate);
    }
  }

  // ---- Well-formed tables ----

  /** The table bytes are `[bucketCount, chainCount] + buckets + chains`, all of them readable, beside a
      symbol table of `chainCount` records. */
  ghost predicate SysvLayout(r: VaReader, view: DynamicView, table: seq<Byte>) {
    && view.sysvHashVa.Some? && view.sysvHashVa.value != 0 && view.symtabVa != 0
    && view.symbolEntrySize == SYMBOL_SIZE
    && |table| >= 8 && Word(table, 0) > 0 && Word(table, 1) > 0
    && |table| == 8 + 4 * Word(table, 0) + 4 * Word(table, 1)
    && Backs(r, view.sysvHashVa.value, table)
    && AnchorReadable(r, view.symtabVa, SYMBOL_SIZE * Word(table, 1))
  }

  ghost function Bucket(view: DynamicView, table: seq<Byte>, b: nat): SysvTable
    requires view.sysvHashVa.Some? && |table| >= 8
    requires b < Word(table, 0) && |table| == 8 + 4 * Word(table, 0) + 4 * Word(table, 1)
    requires view.sysvHashVa.value + |table| <= TWO_64 && Word(table, 1) > 0
  {
    SysvTable(Word(table, 1), view.sysvHashVa.value + 8 + 4 * Word(table, 0), Word(table, 2 + b))
  }

  /** A link editor's promise: every bucket's chain is complete, and every record lies on the chain of the
      bucket its name hashes to. */
  ghost predicate WellFormedSysv(r: VaReader, view: DynamicView, table: seq<Byte>) {
    && SysvLayout(r, view, table)
    && (forall i :: i in AllRecords(1, Word(table, 1)) ==> RecordAt(r, view, i).Some?)
    && forall b :: 0 <= b < Word(table, 0) ==>
                     exists p :: Chain(r, Bucket(view, table, b), Bucket(view, table, b).head, p)
                                 && Files(r, view, table, b, p)
  }

  /** The chain `p` holds every record whose name hashes to bucket `b`. */
  ghost predicate Files(r: VaReader, view: DynamicView, table: seq<Byte>, b: nat, p: seq<U32>)
    requires |table| >= 8 && Word(table, 0) > 0
  {
    forall i :: i in AllRecords(1, Word(table, 1)) ==>
                  match RecordAt(r, view, i)
                  case Some((name, _)) => SysvHash(name) % Word(table, 0) == b ==> i in p
                  case None => true
  }

  lemma LayoutOpens(r: VaReader, view: DynamicView, table: seq<Byte>, hash: U32)
    requires SysvLayout(r, view, table)
    ensures OpenSysvTable(r, view, hash) == Some(Bucket(view, table, hash % Word(table, 0)))
  {
    var h := view.sysvHashVa.value;
    HeaderReads(r, view, table);
    BackedWord(r, h, table, 2 + hash % Word(table, 0));
    BackedRange(r, h, table, 0, 1);
  }

  /** The link of record `i` is chain word `i`. */
  lemma LayoutLink(r: VaReader, view: DynamicView, table: seq<Byte>, b: nat, i: U32)
    requires SysvLayout(r, view, table) && b < Word(table, 0) && i < Word(table, 1)
    ensures Link(r, Bucket(view, table, b), i) == Some(Word(table, 2 + Word(table, 0) + i))
  {
    BackedWord(r, view.sysvHashVa.value, table, 2 + Word(table, 0) + i);
  }

  lemma HeaderReads(r: VaReader, view: DynamicView, table: seq<Byte>)
    requires SysvLayout(r, view, table)
    ensures var header := Fetch(r, view.sysvHashVa.value, 8);
            && header.Some? && |header.value| == 8
            && Le32(header.value[0..4]) == Word(table, 0) && Le32(header.value[4..8]) == Word(table, 1)
  {
    BackedRange(r, view.sysvHashVa.value, table, 0, 8);
    assert table[0..8][0..4] == table[0..4] && table[0..8][4..8] == table[4..8];
  }

  /** On a well-formed table the chained lookup is the linear scan of the whole symbol table. */
  lemma SysvIsLinearScan(r: VaReader, view: DynamicView, table: seq<Byte>, name: seq<Byte>)
    requires WellFormedSysv(r, view, table)
    ensures SysvAnswer(r, view, name) == Verdict(r, view, name, AllRecords(1, Word(table, 1)))
  {
    LayoutOpens(r, view, table, SysvHash(name));
    var b := SysvHash(name) % Word(table, 0);
    var t := Bucket(view, table, b);
    var p :| Chain(r, t, t.head, p) && Files(r, view, table, b, p);
    CompleteChain(r, view, name, t, p);
    forall v | v in Elements(p)
      ensures v in AllRecords(1, Word(table, 1))
    {
      var k :| 0 <= k < |p| && p[k] == v;
      ChainSuffix(r, t, t.head, p, k);
    }
    VerdictIgnoresOthers(r, view, name, Elements(p), AllRecords(1, Word(table, 1)));
  }
}
