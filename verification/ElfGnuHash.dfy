/** GNU hash lookup and the choice between the two indexes
    (src/elf/dynamic_view.cpp:72-76, 216-312 and 629-635). */
module ElfGnuHash {
  import opened Wrappers
  import opened Machine
  import opened BitLaws
  import opened ElfSymbols
  import ElfSysvHash

  function GnuHash(name: seq<Byte>): U32 {
    if name == [] then 5381 else (GnuHash(name[..|name| - 1]) * 33 + name[|name| - 1]) % TWO_32
  }

  function Power33(n: nat): nat {
    if n == 0 then 1 else 33 * Power33(n - 1)
  }

  /** `name[0] * 33^(n - 1) + ... + name[n - 1]`. */
  function Polynomial(name: seq<Byte>): nat {
    if name == [] then 0 else name[0] * Power33(|name| - 1) + Polynomial(name[1..])
  }

  /** The hash in closed form. */
  lemma {:induction false} GnuHashIs(name: seq<Byte>)
    ensures GnuHash(name) == (5381 * Power33(|name|) + Polynomial(name)) % 0x1_0000_0000
  {
    if name != [] {
      var n: nat := |name| - 1;
      var before, last: nat := name[..n], name[n];
      GnuHashIs(before);
      PolynomialLast(name);
      Horner(5381 * Power33(n) + Polynomial(before), last);
    }
  }

  lemma Horner(x: nat, c: nat)
    ensures (x % 0x1_0000_0000 * 33 + c) % 0x1_0000_0000 == (x * 33 + c) % 0x1_0000_0000
  {
  }

  lemma {:induction false} PolynomialLast(name: seq<Byte>)
    requires name != []
    ensures Polynomial(name) == Polynomial(name[..|name| - 1]) * 33 + name[|name| - 1]
  {
    if |name| > 1 {
      var n: nat := |name| - 1;
      PolynomialLast(name[1..]);
      assert name[1..][..n - 1] == name[..n][1..];
      Thirties(name[0], Power33(n - 1));
    }
  }

  lemma Thirties(c: nat, x: nat)
    ensures c * (33 * x) == 33 * (c * x)
  {
  }

  method ComputeGnuHash(name: seq<Byte>) returns (hash: U32)
    ensures hash == GnuHash(name)
  {
    hash := 5381;
    for k := 0 to |name|
      invariant hash == GnuHash(name[..k])
    {
      assert name[..k + 1][..k] == name[..k];
      hash := (hash * 33 + name[k]) % TWO_32;
    }
    assert name[..|name|] == name;
  }

  /** The fixed prefix of a table: `[buckets, symbol offset, Bloom words, Bloom shift]`, Bloom filter, buckets. */
  datatype GnuTable = GnuTable(
    bucketCount: U32, symbolOffset: U32, bloomWords: U32, bloomShift: U32,
    bloomVa: U64, bucketsVa: U64, bucketsSize: U64)

  /** Every check the lookup makes before it consults the Bloom filter. */
  function OpenGnuTable(r: VaReader, view: DynamicView): (t: Option<GnuTable>)
    ensures t.Some? ==>
              t.value.bucketCount > 0 && t.value.bloomWords > 0 && And(t.value.bloomWords, t.value.bloomWords - 1) == 0
  {
    if view.gnuHashVa.None? then None
    else
      var hashVa := view.gnuHashVa.value;
      var header := Fetch(r, hashVa, 16);
      if header.None? then None
      else
        var bucketCount: U32 := Le32(header.value[0..4]);
        var symbolOffset: U32 := Le32(header.value[4..8]);
        var bloomWords: U32 := Le32(header.value[8..12]);
        var bloomShift: U32 := Le32(header.value[12..16]);
        if bucketCount == 0 || bloomWords == 0 || bloomShift >= 32 || And(bloomWords, bloomWords - 1) != 0 then None
        else
          var bloomVa := CheckedAdd(hashVa, 16);
          var bloomSize := CheckedMul(bloomWords, 8);
          var bucketsSize := CheckedMul(bucketCount, 4);
          if bloomVa.None? || bloomSize.None? || bucketsSize.None? then None
          else
            var bucketsVa := CheckedAdd(bloomVa.value, bloomSize.value);
            var withBloom := CheckedAdd(16, bloomSize.value);
            if bucketsVa.None? || withBloom.None? then None
            else
              var fixedSize := CheckedAdd(withBloom.value, bucketsSize.value);
              if fixedSize.None? || !AnchorReadable(r, hashVa, fixedSize.value) then None
              else Some(GnuTable(bucketCount, symbolOffset, bloomWords, bloomShift,
                                 bloomVa.value, bucketsVa.value, bucketsSize.value))
  }

  /** The lookup goes on to the filter exactly when the header is sensible and filter and buckets are readable; the
      buckets follow the filter. */
  lemma OpensExactly(r: VaReader, view: DynamicView, va: U64, header: seq<Byte>, buckets: U32, words: U32, shift: U32)
    requires view.gnuHashVa == Some(va) && Fetch(r, va, 16) == Some(header)
    requires buckets == Le32(header[0..4]) && words == Le32(header[8..12]) && shift == Le32(header[12..16])
    ensures OpenGnuTable(r, view).Some? <==>
            && va != 0 && buckets > 0 && words > 0 && And(words, words - 1) == 0 && shift < 32
            && va + 16 + 8 * words < TWO_64
            && r.readable(va).Some? && r.readable(va).value >= 16 + 8 * words + 4 * buckets
    ensures OpenGnuTable(r, view).Some? ==>
              OpenGnuTable(r, view).value
              == GnuTable(buckets, Le32(header[4..8]), words, shift, va + 16, va + 16 + 8 * words, 4 * buckets)
  {
  }

  lemma OpensNothing(r: VaReader, view: DynamicView)
    requires view.gnuHashVa.None? || Fetch(r, view.gnuHashVa.value, 16).None?
    ensures OpenGnuTable(r, view).None?
  {
  }

  function BloomIndex(hash: U32, bloomWords: U32): U64
    requires bloomWords > 0
  {
    AndBelowMask(hash / 64, bloomWords - 1);
    And(hash / 64, bloomWords - 1)
  }

  /** The two filter bits of a hash. */
  function BloomMask(hash: U32, shift: U32): nat {
    Or(Pow2(hash % 64), Pow2(ShiftRight(hash, shift) % 64))
  }

  /** The filter word a hash selects, when it is readable. */
  function BloomWord(r: VaReader, t: GnuTable, hash: U32): Option<U64>
    requires t.bloomWords > 0
  {
    match CheckedMulAdd(t.bloomVa, BloomIndex(hash, t.bloomWords), 8)
    case None => None
    case Some(va) => FetchU64(r, va)
  }

  function BucketHead(r: VaReader, t: GnuTable, hash: U32): Option<U32>
    requires t.bucketCount > 0
  {
    match CheckedMulAdd(t.bucketsVa, hash % t.bucketCount, 4)
    case None => None
    case Some(va) => FetchU32(r, va)
  }

  /** The chain array after the buckets and how many entries of it can be read. */
  function ChainArea(r: VaReader, t: GnuTable): Option<(U64, U64)> {
    match CheckedAdd(t.bucketsVa, t.bucketsSize)
    case None => None
    case Some(va) =>
      match r.readable(va)
      case None => None
      case Some(remaining) => Some((va, remaining / 4))
  }

  /** The hash word stored for a record, when it is inside the readable chain array. */
  function ChainHash(r: VaReader, area: (U64, U64), offset: U32, record: nat): Option<U32>
    requires record >= offset
  {
    if record - offset >= area.1 then None
    else
      match CheckedMulAdd(area.0, record - offset, 4)
      case None => None
      case Some(va) => FetchU32(r, va)
  }

  /** The chain words start where the buckets end; the one of a record is there as far as the words are readable. */
  lemma ChainReads(r: VaReader, t: GnuTable, readable: U64, record: nat)
    requires t.bucketsVa + t.bucketsSize < TWO_64 && record >= t.symbolOffset
    requires r.readable(t.bucketsVa + t.bucketsSize) == Some(readable)
    ensures var va := t.bucketsVa + t.bucketsSize;
            && ChainArea(r, t) == Some((va, readable / 4))
            && ChainHash(r, (va, readable / 4), t.symbolOffset, record)
               == if 4 * (record - t.symbolOffset) + 4 <= readable && va + 4 * (record - t.symbolOffset) < TWO_64
                  then FetchU32(r, va + 4 * (record - t.symbolOffset)) else None
  {
  }

  predicate Ends(chainHash: U32) {
    And(chainHash, 1) != 0
  }

  predicate SameHash(chainHash: U32, hash: U32) {
    Or(chainHash, 1) == Or(hash, 1)
  }

  /** The bucket's run: readable entries from `first` to `last`, of which only `last` carries the end bit. */
  ghost predicate Run(r: VaReader, area: (U64, U64), offset: U32, first: U32, last: U32) {
    && offset <= first <= last
    && (forall k: U32 :: first <= k <= last ==> ChainHash(r, area, offset, k).Some?)
    && (forall k: U32 :: first <= k < last ==> !Ends(ChainHash(r, area, offset, k).value))
    && Ends(ChainHash(r, area, offset, last).value)
  }

  /** The records of a run whose stored hash agrees with the wanted one, up to the end bit. */
  ghost function Candidates(r: VaReader, area: (U64, U64), offset: U32, hash: U32, first: U32, end: nat): (s: set<U64>)
    requires offset <= first <= end <= TWO_32
    ensures forall i: U64 ::
              i in s <==>
              && first <= i < end
              && ChainHash(r, area, offset, i).Some? && SameHash(ChainHash(r, area, offset, i).value, hash)
  {
    if end == first then {}
    else
      var last: U32 := end - 1;
      var rest := Candidates(r, area, offset, hash, first, last);
      if ChainHash(r, area, offset, last).Some? && SameHash(ChainHash(r, area, offset, last).value, hash)
      then rest + {last} else rest
  }

  /** What a GNU lookup answers. */
  ghost function GnuAnswer(r: VaReader, view: DynamicView, name: seq<Byte>): Lookup {
    match OpenGnuTable(r, view)
    case None => Malformed
    case Some(t) =>
      var hash := GnuHash(name);
      var bloom := if t.bloomWords > 0 then BloomWord(r, t, hash) else None;
      if bloom.None? then Malformed
      else if And(bloom.value, BloomMask(hash, t.bloomShift)) != BloomMask(hash, t.bloomShift) then NotFound
      else
        var head := if t.bucketCount > 0 then BucketHead(r, t, hash) else None;
        if head.None? then Malformed
        else if head.value == 0 then NotFound
        else if head.value < t.symbolOffset then Malformed
        else RunAnswer(r, view, name, t, head.value)
  }

  /** What the first look at an open table decides, for every reader. `word` is the filter word the hash selects and
      `head` its bucket: without both bits of the hash, or with an empty bucket, the name is absent; a bucket below the
      hashed records is malformed; any other starts the run. */
  lemma FirstLook(r: VaReader, view: DynamicView, name: seq<Byte>, t: GnuTable, word: U64, head: U32)
    requires OpenGnuTable(r, view) == Some(t) && t.bloomWords > 0 && t.bucketCount > 0
    requires t.bloomVa + 8 * (GnuHash(name) / 64 % t.bloomWords) < TWO_64
    requires t.bucketsVa + 4 * (GnuHash(name) % t.bucketCount) < TWO_64
    requires FetchU64(r, t.bloomVa + 8 * (GnuHash(name) / 64 % t.bloomWords)) == Some(word)
    requires FetchU32(r, t.bucketsVa + 4 * (GnuHash(name) % t.bucketCount)) == Some(head)
    ensures var hash := GnuHash(name);
            GnuAnswer(r, view, name)
            == if !Bit(word, hash % 64) || !Bit(word, hash / Pow2(t.bloomShift) % 64) || head == 0 then NotFound
               else if head < t.symbolOffset then Malformed
               else RunAnswer(r, view, name, t, head)
  {
    var hash := GnuHash(name);
    FilterWord(r, t, hash, word);
    BucketIs(r, t, hash, head);
    MaskIs(hash, t.bloomShift, word);
    Looked(r, view, name, t, word, head);
  }

  lemma Looked(r: VaReader, view: DynamicView, name: seq<Byte>, t: GnuTable, word: U64, head: U32)
    requires OpenGnuTable(r, view) == Some(t) && t.bloomWords > 0 && t.bucketCount > 0
    requires BloomWord(r, t, GnuHash(name)) == Some(word) && BucketHead(r, t, GnuHash(name)) == Some(head)
    ensures var mask := BloomMask(GnuHash(name), t.bloomShift);
            GnuAnswer(r, view, name)
            == if And(word, mask) != mask || head == 0 then NotFound
               else if head < t.symbolOffset then Malformed
               else RunAnswer(r, view, name, t, head)
  {
  }

  lemma BucketIs(r: VaReader, t: GnuTable, hash: U32, head: U32)
    requires t.bucketCount > 0 && t.bucketsVa + 4 * (hash % t.bucketCount) < TWO_64
    requires FetchU32(r, t.bucketsVa + 4 * (hash % t.bucketCount)) == Some(head)
    ensures BucketHead(r, t, hash) == Some(head)
  {
  }

  lemma FilterWord(r: VaReader, t: GnuTable, hash: U32, word: U64)
    requires t.bloomWords > 0 && And(t.bloomWords, t.bloomWords - 1) == 0
    requires t.bloomVa + 8 * (hash / 64 % t.bloomWords) < TWO_64
    requires FetchU64(r, t.bloomVa + 8 * (hash / 64 % t.bloomWords)) == Some(word)
    ensures BloomWord(r, t, hash) == Some(word)
  {
    BloomIndexIs(hash, t.bloomWords);
  }

  lemma MaskIs(hash: U32, shift: U32, word: U64)
    ensures And(word, BloomMask(hash, shift)) == BloomMask(hash, shift) <==>
            Bit(word, hash % 64) && Bit(word, hash / Pow2(shift) % 64)
  {
    ShiftRightDivides(hash, shift);
    MaskHeld(word, hash % 64, ShiftRight(hash, shift) % 64);
  }

  ghost function RunAnswer(r: VaReader, view: DynamicView, name: seq<Byte>, t: GnuTable, first: U32): Lookup
    requires t.symbolOffset <= first
  {
    match ChainArea(r, t)
    case None => Malformed
    case Some(area) =>
      if exists last: U32 :: Run(r, area, t.symbolOffset, first, last) then
        var last: U32 :| Run(r, area, t.symbolOffset, first, last);
        Verdict(r, view, name, Candidates(r, area, t.symbolOffset, GnuHash(name), first, last + 1))
      else Malformed
  }

  /** The entries from `first` up to `index` are readable and the run has not ended in them. */
  ghost predicate StillOpen(r: VaReader, area: (U64, U64), offset: U32, first: U32, index: nat)
    requires offset <= first
  {
    forall k: U32 :: first <= k < index ==>
                       ChainHash(r, area, offset, k).Some? && !Ends(ChainHash(r, area, offset, k).value)
  }

  lemma CompleteRun(r: VaReader, view: DynamicView, name: seq<Byte>, t: GnuTable, first: U32, last: U32)
    requires t.symbolOffset <= first && ChainArea(r, t).Some?
    requires Run(r, ChainArea(r, t).value, t.symbolOffset, first, last)
    ensures RunAnswer(r, view, name, t, first)
         == Verdict(r, view, name, Candidates(r, ChainArea(r, t).value, t.symbolOffset, GnuHash(name), first, last + 1))
  {
    var area := ChainArea(r, t).value;
    forall l: U32 | Run(r, area, t.symbolOffset, first, l)
      ensures l == last
    {
    }
  }

  /** A run that stays open up to an unreadable entry, or to the end of the index space, never ends. */
  lemma NoRun(r: VaReader, view: DynamicView, name: seq<Byte>, t: GnuTable, first: U32, index: nat)
    requires t.symbolOffset <= first <= index <= TWO_32 && ChainArea(r, t).Some?
    requires StillOpen(r, ChainArea(r, t).value, t.symbolOffset, first, index)
    requires index < TWO_32 ==> ChainHash(r, ChainArea(r, t).value, t.symbolOffset, index).None?
    ensures RunAnswer(r, view, name, t, first) == Malformed
  {
    var area := ChainArea(r, t).value;
    forall last: U32
      ensures !Run(r, area, t.symbolOffset, first, last)
    {
    }
  }

  /** A malformed or disagreeing candidate decides the answer however the run ends. */
  lemma RejectedCandidate(r: VaReader, view: DynamicView, name: seq<Byte>, t: GnuTable, first: U32, index: U32,
                          candidate: Option<DynamicSymbol>)
    requires t.symbolOffset <= first <= index && ChainArea(r, t).Some?
    requires StillOpen(r, ChainArea(r, t).value, t.symbolOffset, first, index)
    requires var area := ChainArea(r, t).value;
             && ChainHash(r, area, t.symbolOffset, index).Some?
             && SameHash(ChainHash(r, area, t.symbolOffset, index).value, GnuHash(name))
             && Scanned(r, view, name, Candidates(r, area, t.symbolOffset, GnuHash(name), first, index), candidate)
    requires Rejects(MatchAt(r, view, name, index), candidate)
    ensures RunAnswer(r, view, name, t, first) == Malformed
  {
    var area := ChainArea(r, t).value;
    forall last: U32 | Run(r, area, t.symbolOffset, first, last)
      ensures Verdict(r, view, name, Candidates(r, area, t.symbolOffset, GnuHash(name), first, last + 1)) == Malformed
    {
      var before := Candidates(r, area, t.symbolOffset, GnuHash(name), first, index);
      var all := Candidates(r, area, t.symbolOffset, GnuHash(name), first, last + 1);
      assert index <= last;
      RejectedVerdict(r, view, name, before, index, all, candidate);
    }
  }

  method FindGnuSymbol(r: VaReader, view: DynamicView, name: seq<Byte>) returns (result: Lookup)
    ensures result == GnuAnswer(r, view, name)
  {
    var table := OpenGnuTable(r, view);
    if table.None? {
      return Malformed;
    }
    var t := table.value;
    var hash := ComputeGnuHash(name);
    var bloom := BloomWord(r, t, hash);
    if bloom.None? {
      return Malformed;
    }
    var mask := BloomMask(hash, t.bloomShift);
    if And(bloom.value, mask) != mask {
      return NotFound;
    }
    var head := BucketHead(r, t, hash);
    if head.None? {
      return Malformed;
    }
    if head.value == 0 {
      return NotFound;
    }
    if head.value < t.symbolOffset {
      return Malformed;
    }
    result := ScanRun(r, view, name, t, hash, head.value);
  }

  /** The chain loop of the lookup. */
  method ScanRun(r: VaReader, view: DynamicView, name: seq<Byte>, t: GnuTable, hash: U32, first: U32)
    returns (result: Lookup)
    requires hash == GnuHash(name) && t.symbolOffset <= first
    ensures result == RunAnswer(r, view, name, t, first)
  {
    var chains := ChainArea(r, t);
    if chains.None? {
      return Malformed;
    }
    var area := chains.value;
    var index: U32 := first;
    var chainIndex: U64 := index - t.symbolOffset;
    var candidate: Option<DynamicSymbol> := None;
    while chainIndex < area.1
      invariant first <= index && chainIndex == index - t.symbolOffset
      invariant StillOpen(r, area, t.symbolOffset, first, index)
      invariant Scanned(r, view, name, Candidates(r, area, t.symbolOffset, hash, first, index), candidate)
      decreases area.1 - chainIndex
    {
      var chainHash := ChainHash(r, area, t.symbolOffset, index);
      if chainHash.None? {
        NoRun(r, view, name, t, first, index);
        return Malformed;
      }
      var rejected;
      rejected, candidate := ConsiderEntry(r, view, name, t, area, hash, first, index, chainHash.value, candidate);
      if rejected {
        return Malformed;
      }
      if Ends(chainHash.value) {
        CompleteRun(r, view, name, t, first, index);
        ScannedVerdict(r, view, name, Candidates(r, area, t.symbolOffset, hash, first, index + 1), candidate);
        return Outcome(candidate);
      }
      if index == TWO_32 - 1 {
        NoRun(r, view, name, t, first, TWO_32);
        return Malformed;
      }
      index := index + 1;
      chainIndex := chainIndex + 1;
    }
    NoRun(r, view, name, t, first, index);
    return Malformed;
  }

  /** One entry of the run: its record is looked at when the stored hash agrees. */
  method ConsiderEntry(r: VaReader, view: DynamicView, name: seq<Byte>, t: GnuTable, area: (U64, U64), hash: U32,
                       first: U32, index: U32, chainHash: U32, candidate: Option<DynamicSymbol>)
    returns (rejected: bool, next: Option<DynamicSymbol>)
    requires hash == GnuHash(name) && t.symbolOffset <= first <= index && ChainArea(r, t) == Some(area)
    requires ChainHash(r, area, t.symbolOffset, index) == Some(chainHash)
    requires StillOpen(r, area, t.symbolOffset, first, index)
    requires Scanned(r, view, name, Candidates(r, area, t.symbolOffset, hash, first, index), candidate)
    ensures rejected ==> RunAnswer(r, view, name, t, first) == Malformed
    ensures !rejected ==> Scanned(r, view, name, Candidates(r, area, t.symbolOffset, hash, first, index + 1), next)
  {
    ghost var before := Candidates(r, area, t.symbolOffset, hash, first, index);
    if !SameHash(chainHash, hash) {
      assert Candidates(r, area, t.symbolOffset, hash, first, index + 1) == before;
      return false, candidate;
    }
    var match_ := MatchSymbol(r, view, index, name);
    if Rejects(match_, candidate) {
      RejectedCandidate(r, view, name, t, first, index, candidate);
      return true, candidate;
    }
    ScannedStep(r, view, name, before, index, candidate);
    assert Candidates(r, area, t.symbolOffset, hash, first, index + 1) == before + {index};
    return false, if match_.Found? then Some(match_.symbol) else candidate;
  }

  // ---- Well-formed tables ----

  /** The table bytes are the 16-byte header, the Bloom words, the buckets and one chain word for each of the
      records `symbolOffset` to `count` - 1, all of them readable. */
  ghost predicate GnuLayout(r: VaReader, view: DynamicView, table: seq<Byte>, count: U32) {
    && view.gnuHashVa.Some? && view.gnuHashVa.value != 0
    && |table| >= 16
    && Word(table, 0) > 0 && Word(table, 2) > 0 && Word(table, 3) < 32
    && And(Word(table, 2), Word(table, 2) - 1) == 0
    && 0 < Word(table, 1) <= count
    && |table| == 16 + 8 * Word(table, 2) + 4 * Word(table, 0) + 4 * (count - Word(table, 1))
    && Backs(r, view.gnuHashVa.value, table)
  }

  ghost function LayoutTable(view: DynamicView, table: seq<Byte>): GnuTable
    requires view.gnuHashVa.Some? && |table| >= 16
    requires view.gnuHashVa.value + 16 + 8 * Word(table, 2) < TWO_64
  {
    GnuTable(Word(table, 0), Word(table, 1), Word(table, 2), Word(table, 3), view.gnuHashVa.value + 16,
             view.gnuHashVa.value + 16 + 8 * Word(table, 2), 4 * Word(table, 0))
  }

  ghost function BloomEntry(table: seq<Byte>, j: nat): U64
    requires 24 + 8 * j <= |table|
  {
    Le64(table[16 + 8 * j..24 + 8 * j])
  }

  ghost function BucketEntry(table: seq<Byte>, b: nat): U32
    requires |table| >= 16 && 20 + 8 * Word(table, 2) + 4 * b <= |table|
  {
    Word(table, 4 + 2 * Word(table, 2) + b)
  }

  ghost function ChainEntry(table: seq<Byte>, i: nat): U32
    requires |table| >= 16 && Word(table, 1) <= i
    requires 20 + 8 * Word(table, 2) + 4 * Word(table, 0) + 4 * (i - Word(table, 1)) <= |table|
  {
    Word(table, 4 + 2 * Word(table, 2) + Word(table, 0) + (i - Word(table, 1)))
  }

  /** How a link editor files record `i` under hash `h`: its chain word is the hash up to the end bit, its two
      Bloom bits are set, and its bucket starts a run that is still open when it reaches `i`. */
  ghost predicate Filed(table: seq<Byte>, count: U32, i: U64, h: U32)
    requires |table| >= 16 && Word(table, 0) > 0 && Word(table, 2) > 0 && Word(table, 1) <= i < count
    requires |table| == 16 + 8 * Word(table, 2) + 4 * Word(table, 0) + 4 * (count - Word(table, 1))
  {
    && SameHash(ChainEntry(table, i), h)
    && var word := BloomEntryFor(table, count, h);
    && var bit0, bit1 := Pow2(h % 64), Pow2(ShiftRight(h, Word(table, 3)) % 64);
    && And(word, bit0) == bit0 && And(word, bit1) == bit1
    && Word(table, 1) <= BucketEntry(table, h % Word(table, 0)) <= i
    && forall k :: BucketEntry(table, h % Word(table, 0)) <= k < i ==> !Ends(ChainEntry(table, k))
  }

  ghost function BloomEntryFor(table: seq<Byte>, count: U32, h: U32): U64
    requires |table| >= 16 && Word(table, 2) > 0 && Word(table, 1) <= count
    requires |table| == 16 + 8 * Word(table, 2) + 4 * Word(table, 0) + 4 * (count - Word(table, 1))
  {
    BloomEntry(table, (h / 64) % Word(table, 2))
  }

  ghost predicate WellFormedGnu(r: VaReader, view: DynamicView, table: seq<Byte>, count: U32) {
    && GnuLayout(r, view, table, count)
    && (forall i :: i in AllRecords(Word(table, 1), count) ==>
                      && RecordAt(r, view, i).Some?
                      && Filed(table, count, i, GnuHash(RecordAt(r, view, i).value.0)))
    && (forall b :: 0 <= b < Word(table, 0) ==>
                      BucketEntry(table, b) == 0 || Word(table, 1) <= BucketEntry(table, b) < count)
    && (Word(table, 1) < count ==> Ends(ChainEntry(table, count - 1)))
  }

  lemma LayoutOpens(r: VaReader, view: DynamicView, table: seq<Byte>, count: U32)
    requires GnuLayout(r, view, table, count)
    ensures OpenGnuTable(r, view) == Some(LayoutTable(view, table))
  {
    BackedRange(r, view.gnuHashVa.value, table, 0, 16);
    var header := table[0..16];
    assert header[0..4] == table[0..4] && header[4..8] == table[4..8];
    assert header[8..12] == table[8..12] && header[12..16] == table[12..16];
  }

  lemma LayoutBloom(r: VaReader, view: DynamicView, table: seq<Byte>, count: U32, h: U32)
    requires GnuLayout(r, view, table, count)
    ensures BloomWord(r, LayoutTable(view, table), h) == Some(BloomEntryFor(table, count, h))
  {
    BloomIndexIs(h, Word(table, 2));
    BackedRange(r, view.gnuHashVa.value, table, 16 + 8 * ((h / 64) % Word(table, 2)), 8);
  }

  /** With a power of two of filter words, a hash selects the word of its bits from 6 on, modulo their number. */
  lemma BloomIndexIs(hash: U32, bloomWords: U32)
    requires bloomWords > 0 && And(bloomWords, bloomWords - 1) == 0
    ensures BloomIndex(hash, bloomWords) == (hash / 64) % bloomWords
  {
    var k := PowerOfTwo(bloomWords);
    LowMask(hash / 64, k);
  }

  /** The mask has exactly two bits, or one when they coincide: the low six bits of the hash and those of the shifted
      hash name them. */
  lemma MaskBits(hash: U32, shift: U32, k: nat)
    ensures Bit(BloomMask(hash, shift), k) <==> k == hash % 64 || k == hash / Pow2(shift) % 64
  {
    var a, b := hash % 64, ShiftRight(hash, shift) % 64;
    ShiftRightDivides(hash, shift);
    OrBits(Pow2(a), Pow2(b), k);
    OneBit(a, k);
    OneBit(b, k);
  }

  /** The end bit is the lowest bit of a chain word; the rest is the hash. */
  lemma ChainWord(chainHash: U32, hash: U32)
    ensures Ends(chainHash) <==> chainHash % 2 == 1
    ensures SameHash(chainHash, hash) <==> chainHash / 2 == hash / 2
  {
    AndHalves(chainHash, 1);
    OrHalves(chainHash, 1);
    OrHalves(hash, 1);
  }

  lemma LayoutBucket(r: VaReader, view: DynamicView, table: seq<Byte>, count: U32, h: U32)
    requires GnuLayout(r, view, table, count)
    ensures BucketHead(r, LayoutTable(view, table), h) == Some(BucketEntry(table, h % Word(table, 0)))
  {
    BackedWord(r, view.gnuHashVa.value, table, 4 + 2 * Word(table, 2) + h % Word(table, 0));
  }

  lemma LayoutChain(r: VaReader, view: DynamicView, table: seq<Byte>, count: U32)
    requires GnuLayout(r, view, table, count) && Word(table, 1) < count
    ensures var area := ChainArea(r, LayoutTable(view, table));
            && area.Some?
            && forall k: U32 :: Word(table, 1) <= k < count ==>
                                  ChainHash(r, area.value, Word(table, 1), k) == Some(ChainEntry(table, k))
  {
    var h, first := view.gnuHashVa.value, 4 + 2 * Word(table, 2) + Word(table, 0);
    BackedRange(r, h, table, 4 * first, 1);
    var area := ChainArea(r, LayoutTable(view, table)).value;
    assert area.0 == h + 4 * first;
    forall k: U32 | Word(table, 1) <= k < count
      ensures ChainHash(r, area, Word(table, 1), k) == Some(ChainEntry(table, k))
    {
      BackedWord(r, h, table, first + (k - Word(table, 1)));
    }
  }

  lemma {:induction false} RunEnds(table: seq<Byte>, count: U32, first: U32) returns (last: U32)
    requires |table| >= 16 && Word(table, 1) <= first < count
    requires |table| == 16 + 8 * Word(table, 2) + 4 * Word(table, 0) + 4 * (count - Word(table, 1))
    requires Ends(ChainEntry(table, count - 1))
    ensures first <= last < count && Ends(ChainEntry(table, last))
    ensures forall k :: first <= k < last ==> !Ends(ChainEntry(table, k))
    decreases count - first
  {
    last := first;
    if !Ends(ChainEntry(table, first)) {
      last := RunEnds(table, count, first + 1);
    }
  }

  /** The Bloom filter never rejects a name the table holds. */
  lemma BloomAdmitsPresent(r: VaReader, view: DynamicView, table: seq<Byte>, count: U32, i: U64)
    requires WellFormedGnu(r, view, table, count) && i in AllRecords(Word(table, 1), count)
    ensures var hash := GnuHash(RecordAt(r, view, i).value.0);
            var mask := BloomMask(hash, Word(table, 3));
            && BloomWord(r, LayoutTable(view, table), hash).Some?
            && And(BloomWord(r, LayoutTable(view, table), hash).value, mask) == mask
  {
    var hash := GnuHash(RecordAt(r, view, i).value.0);
    LayoutBloom(r, view, table, count, hash);
    assert Filed(table, count, i, hash);
    AndAbsorbsOr(BloomEntryFor(table, count, hash), Pow2(hash % 64), Pow2(ShiftRight(hash, Word(table, 3)) % 64));
  }

  /** On a well-formed table the GNU lookup is the linear scan of the hashed records. */
  lemma GnuIsLinearScan(r: VaReader, view: DynamicView, table: seq<Byte>, count: U32, name: seq<Byte>)
    requires WellFormedGnu(r, view, table, count)
    ensures GnuAnswer(r, view, name) == Verdict(r, view, name, AllRecords(Word(table, 1), count))
  {
    var hash := GnuHash(name);
    var t := LayoutTable(view, table);
    LayoutOpens(r, view, table, count);
    LayoutBloom(r, view, table, count, hash);
    LayoutBucket(r, view, table, count, hash);
    var mask := BloomMask(hash, t.bloomShift);
    var head := BucketEntry(table, hash % Word(table, 0));
    if And(BloomEntryFor(table, count, hash), mask) != mask || head == 0 {
      AbsentName(r, view, table, count, name);
    } else {
      assert Word(table, 1) <= head < count;
      RunIsLinearScan(r, view, table, count, name, head);
    }
  }

  lemma AbsentName(r: VaReader, view: DynamicView, table: seq<Byte>, count: U32, name: seq<Byte>)
    requires WellFormedGnu(r, view, table, count)
    requires var hash := GnuHash(name);
             var mask := BloomMask(hash, Word(table, 3));
             || And(BloomEntryFor(table, count, hash), mask) != mask
             || BucketEntry(table, hash % Word(table, 0)) == 0
    ensures Verdict(r, view, name, AllRecords(Word(table, 1), count)) == NotFound
  {
    var hash := GnuHash(name);
    LayoutBloom(r, view, table, count, hash);
    forall i | i in AllRecords(Word(table, 1), count)
      ensures MatchAt(r, view, name, i) == NotFound
    {
      BloomAdmitsPresent(r, view, table, count, i);
      assert Filed(table, count, i, GnuHash(RecordAt(r, view, i).value.0));
    }
    ScannedVerdict(r, view, name, AllRecords(Word(table, 1), count), None);
  }

  lemma RunIsLinearScan(r: VaReader, view: DynamicView, table: seq<Byte>, count: U32, name: seq<Byte>, head: U32)
    requires WellFormedGnu(r, view, table, count)
    requires head == BucketEntry(table, GnuHash(name) % Word(table, 0)) && Word(table, 1) <= head < count
    ensures RunAnswer(r, view, name, LayoutTable(view, table), head)
         == Verdict(r, view, name, AllRecords(Word(table, 1), count))
  {
    var t, off := LayoutTable(view, table), Word(table, 1);
    LayoutChain(r, view, table, count);
    var area := ChainArea(r, t).value;
    var last := RunEnds(table, count, head);
    assert Run(r, area, off, head, last);
    CompleteRun(r, view, name, t, head, last);
    var found := Candidates(r, area, off, GnuHash(name), head, last + 1);
    forall i | i in AllRecords(off, count) && i !in found
      ensures MatchAt(r, view, name, i) == NotFound
    {
      var actual := RecordAt(r, view, i).value.0;
      assert Filed(table, count, i, GnuHash(actual));
    }
    VerdictIgnoresOthers(r, view, name, found, AllRecords(off, count));
  }

  // ---- The choice between the indexes ----

  /** GNU hash is preferred; an empty name or a view without an index is malformed. */
  method FindElfDynamicSymbol(r: VaReader, view: DynamicView, name: seq<Byte>) returns (result: Lookup)
    ensures name == [] ==> result == Malformed
    ensures name != [] && view.gnuHashVa.Some? ==> result == GnuAnswer(r, view, name)
    ensures name != [] && view.gnuHashVa.None? && view.sysvHashVa.Some? ==> result == ElfSysvHash.SysvAnswer(r, view, name)
    ensures view.gnuHashVa.None? && view.sysvHashVa.None? ==> result == Malformed
  {
    if name == [] {
      return Malformed;
    }
    if view.gnuHashVa.Some? {
      result := FindGnuSymbol(r, view, name);
    } else if view.sysvHashVa.Some? {
      result := ElfSysvHash.FindSysvSymbol(r, view, name);
    } else {
      result := Malformed;
    }
  }

  /** Two well-formed indexes over one symbol table answer alike for every name that no unhashed record
      (below the GNU symbol offset) carries. */
  lemma IndexesAgree(r: VaReader, view: DynamicView, gnu: seq<Byte>, sysv: seq<Byte>, count: U32, name: seq<Byte>)
    requires WellFormedGnu(r, view, gnu, count)
    requires ElfSysvHash.WellFormedSysv(r, view, sysv) && Word(sysv, 1) == count
    requires forall i :: i in AllRecords(1, Word(gnu, 1)) ==> MatchAt(r, view, name, i) == NotFound
    ensures GnuAnswer(r, view, name) == ElfSysvHash.SysvAnswer(r, view, name)
  {
    GnuIsLinearScan(r, view, gnu, count, name);
    ElfSysvHash.SysvIsLinearScan(r, view, sysv, name);
    VerdictIgnoresOthers(r, view, name, AllRecords(Word(gnu, 1), count), AllRecords(1, count));
  }
}
