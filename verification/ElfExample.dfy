/** A small image with both indexes (src/elf/dynamic_view.cpp:147-312): one symbol `bb` after the null record, in tables of
    three buckets, and of two buckets and two Bloom words. Both are well formed, so the theorems about them speak of
    something; and the hash of a longer name. */
module ElfExample {
  import opened Wrappers
  import opened Machine
  import opened BitLaws
  import opened ElfSymbols
  import opened ElfSysvHash
  import opened ElfGnuHash

  const BASE: nat := 0x1000

  /** Three buckets, two chain words; bucket 1 starts at record 1, where its chain ends. */
  const SYSV: seq<Byte> := [3, 0, 0, 0, 2, 0, 0, 0, 0, 0, 0, 0, 1, 0, 0, 0, 0, 0, 0, 0, 0, 0, 0, 0, 0, 0, 0, 0]

  /** Two buckets, hashed records from 1, two Bloom words, shift 5. The hash of `bb` is 0x597749: bits 9 and 58 of Bloom
      word 1, bucket 1, and a chain word with the end bit. */
  const GNU: seq<Byte> := [2, 0, 0, 0, 1, 0, 0, 0, 2, 0, 0, 0, 5, 0, 0, 0,
                           0, 0, 0, 0, 0, 0, 0, 0, 0, 2, 0, 0, 0, 0, 0, 4,
                           0, 0, 0, 0, 1, 0, 0, 0, 0x49, 0x77, 0x59, 0]

  const RECORD: seq<Byte> := [1, 0, 0, 0, 0x12, 0, 7, 0, 0, 0x40, 0, 0, 1, 0, 0, 0, 8, 0, 0, 0, 0, 0, 0, 0]

  const NULL_RECORD: seq<Byte> := [0, 0, 0, 0, 0, 0, 0, 0, 0, 0, 0, 0, 0, 0, 0, 0, 0, 0, 0, 0, 0, 0, 0, 0]

  const SYMBOLS: seq<Byte> := NULL_RECORD + RECORD

  const STRINGS: seq<Byte> := [0, 0x62, 0x62, 0]

  const IMAGE: seq<Byte> := SYSV + GNU + SYMBOLS + STRINGS

  const NAME: seq<Byte> := [0x62, 0x62]

  const SYMBOL: DynamicSymbol := DynamicSymbol(0x1_0000_4000, 8, 0x12, 0, 7)

  const VIEW: DynamicView := DynamicView(BASE + 72, BASE + 120, 4, 24, Some(BASE), Some(BASE + 28))

  function Read(va: U64, size: nat): Option<seq<Byte>> {
    if BASE <= va && va + size <= BASE + |IMAGE| then Some(IMAGE[va - BASE..va - BASE + size]) else None
  }

  function Readable(va: U64): Option<U64> {
    if BASE <= va < BASE + |IMAGE| then Some(BASE + |IMAGE| - va) else None
  }

  const READER: VaReader := VaReader(Read, Readable)

  lemma Sizes()
    ensures |SYSV| == 28 && |GNU| == 44 && |NULL_RECORD| == |RECORD| == 24 && |STRINGS| == 4
  {
  }

  lemma Parts()
    ensures |IMAGE| == 124
    ensures IMAGE[0..28] == SYSV && IMAGE[28..72] == GNU && IMAGE[72..120] == SYMBOLS && IMAGE[120..124] == STRINGS
    ensures IMAGE[96..120] == RECORD
  {
    Sizes();
    Joined(IMAGE, SYSV, GNU, NULL_RECORD, RECORD, STRINGS);
  }

  lemma Joined(whole: seq<Byte>, a: seq<Byte>, b: seq<Byte>, c: seq<Byte>, d: seq<Byte>, e: seq<Byte>)
    requires whole == a + b + (c + d) + e && |a| == 28 && |b| == 44 && |c| == |d| == 24 && |e| == 4
    ensures |whole| == 124
    ensures whole[0..28] == a && whole[28..72] == b && whole[72..120] == c + d && whole[120..124] == e && whole[96..120] == d
  {
    assert whole[72..120] == c + d;
    PartOfPart(whole, 72, 120, 24, 48);
    assert (c + d)[24..48] == d;
  }

  lemma Placed(base: U64, part: seq<Byte>)
    requires BASE <= base && base + |part| <= BASE + |IMAGE| && IMAGE[base - BASE..base - BASE + |part|] == part
    ensures Backs(READER, base, part)
  {
    forall at: nat, n: nat | 0 < n && at + n <= |part|
      ensures Serves(READER, base, part, at, n)
    {
      PartOfPart(IMAGE, base - BASE, base - BASE + |part|, at, at + n);
    }
  }

  lemma PartOfPart(s: seq<Byte>, from: nat, to: nat, a: nat, b: nat)
    requires from <= to <= |s| && a <= b <= to - from
    ensures s[from..to][a..b] == s[from + a..from + b]
  {
    var part, whole := s[from..to][a..b], s[from + a..from + b];
    assert |part| == |whole| && forall j :: 0 <= j < b - a ==> part[j] == whole[j];
  }

  /** The one named record. */
  lemma TheRecord()
    ensures RecordAt(READER, VIEW, 1) == Some((NAME, SYMBOL))
  {
    TheFields();
    TheName();
    RecordReads(READER, VIEW, 1, 1, SYMBOL);
  }

  lemma TheFields()
    ensures Fetch(READER, BASE + 96, 24) == Some(RecordBytes(1, SYMBOL))
  {
    Parts();
    Placed(BASE + 96, RECORD);
    BackedRange(READER, BASE + 96, RECORD, 0, 24);
    assert RECORD[0..24] == RECORD;
    TheBytes(1, SYMBOL);
  }

  lemma TheBytes(nameOffset: U32, symbol: DynamicSymbol)
    requires nameOffset == 1 && symbol == SYMBOL
    ensures RecordBytes(nameOffset, symbol) == RECORD
  {
    assert Bytes32(nameOffset) == [1, 0, 0, 0] && Bytes16(symbol.section) == [7, 0];
    assert Bytes64(symbol.value) == [0, 0x40, 0, 0, 1, 0, 0, 0] && Bytes64(symbol.size) == [8, 0, 0, 0, 0, 0, 0, 0];
  }

  lemma TheName()
    ensures NameOf(READER, VIEW, 1) == Some(NAME)
  {
    Parts();
    Placed(BASE + 120, STRINGS);
    BackedRange(READER, BASE + 120, STRINGS, 1, 1);
    BackedRange(READER, BASE + 120, STRINGS, 2, 1);
    BackedRange(READER, BASE + 120, STRINGS, 3, 1);
    assert STRINGS[1..2] == [NAME[0]] && STRINGS[2..3] == [NAME[1]] && STRINGS[3..4] == [0];
    NameMeans(READER, VIEW, 1, NAME);
  }

  lemma OnlyRecord(i: U64)
    requires i in AllRecords(1, 2)
    ensures i == 1
  {
  }

  lemma WordIs(table: seq<Byte>, k: nat, b: seq<Byte>)
    requires |b| == 4 && 4 * k + 4 <= |table|
    requires forall j :: 0 <= j < 4 ==> table[4 * k + j] == b[j]
    ensures Word(table, k) == Le32(b)
  {
    assert table[4 * k..4 * k + 4] == b;
  }

  // ---- System V ----

  lemma SysvWords()
    ensures |SYSV| == 28 && Word(SYSV, 0) == 3 && Word(SYSV, 1) == 2
    ensures Word(SYSV, 2) == 0 && Word(SYSV, 3) == 1 && Word(SYSV, 4) == 0 && Word(SYSV, 6) == 0
  {
    WordIs(SYSV, 0, [3, 0, 0, 0]);
    WordIs(SYSV, 1, [2, 0, 0, 0]);
    WordIs(SYSV, 2, [0, 0, 0, 0]);
    WordIs(SYSV, 3, [1, 0, 0, 0]);
    WordIs(SYSV, 4, [0, 0, 0, 0]);
    WordIs(SYSV, 6, [0, 0, 0, 0]);
  }

  lemma SysvExample()
    ensures WellFormedSysv(READER, VIEW, SYSV)
  {
    SysvWords();
    SysvPlaced();
    TheRecord();
    TheSysvHash(NAME);
    LayoutLink(READER, VIEW, SYSV, 1, 1);
    OneSysv(READER, VIEW, SYSV, NAME);
  }

  lemma TheSysvHash(name: seq<Byte>)
    requires name == NAME
    ensures SysvHash(name) == 0x682
  {
    assert name[..0] == [] && name[..2] == name;
    Unfolded(name, 0, 0, 0x62);
    Unfolded(name, 1, 0x62, 0x682);
  }

  lemma OneSysv(r: VaReader, view: DynamicView, table: seq<Byte>, name: seq<Byte>)
    requires SysvLayout(r, view, table) && Word(table, 0) == 3 && Word(table, 1) == 2
    requires Word(table, 2) == 0 && Word(table, 3) == 1 && Word(table, 4) == 0
    requires RecordAt(r, view, 1).Some? && RecordAt(r, view, 1).value.0 == name && SysvHash(name) % 3 == 1
    requires Link(r, Bucket(view, table, 1), 1) == Some(0)
    ensures WellFormedSysv(r, view, table)
  {
    forall i | i in AllRecords(1, 2)
      ensures i == 1
    {
      OnlyRecord(i);
    }
    OneLink(r, Bucket(view, table, 1));
    assert Files(r, view, table, 0, []) && Files(r, view, table, 1, [1]) && Files(r, view, table, 2, []);
    assert Chain(r, Bucket(view, table, 0), 0, []) && Chain(r, Bucket(view, table, 2), 0, []);
  }

  lemma OneLink(r: VaReader, t: SysvTable)
    requires t.chainCount == 2 && Link(r, t, 1) == Some(0)
    ensures Chain(r, t, 1, [1])
  {
    assert [1][1..] == [];
    assert Chain(r, t, 0, []);
  }

  lemma SysvPlaced()
    ensures SysvLayout(READER, VIEW, SYSV)
  {
    Parts();
    SysvWords();
    Placed(BASE, SYSV);
    Placed(BASE + 72, SYMBOLS);
    BackedRange(READER, BASE + 72, SYMBOLS, 0, 48);
  }

  // ---- GNU ----

  lemma GnuHeader()
    ensures |GNU| == 44 && Word(GNU, 0) == 2 && Word(GNU, 1) == 1 && Word(GNU, 2) == 2 && Word(GNU, 3) == 5
  {
    WordIs(GNU, 0, [2, 0, 0, 0]);
    WordIs(GNU, 1, [1, 0, 0, 0]);
    WordIs(GNU, 2, [2, 0, 0, 0]);
    WordIs(GNU, 3, [5, 0, 0, 0]);
  }

  lemma GnuWords()
    ensures |GNU| == 44 && Word(GNU, 8) == 0 && Word(GNU, 9) == 1 && Word(GNU, 10) == 0x59_7749
  {
    WordIs(GNU, 8, [0, 0, 0, 0]);
    WordIs(GNU, 9, [1, 0, 0, 0]);
    WordIs(GNU, 10, [0x49, 0x77, 0x59, 0]);
  }

  lemma GnuFilter(word: U64)
    requires word == 0x400_0000_0000_0200
    ensures |GNU| == 44 && Le64(GNU[24..32]) == word
  {
    assert Bytes64(word) == [0, 2, 0, 0, 0, 0, 0, 4];
    assert GNU[24..32] == [0, 2, 0, 0, 0, 0, 0, 4];
    Le64Reads(word);
  }

  lemma TheHash()
    ensures GnuHash(NAME) == 0x59_7749
  {
    GnuHashIs(NAME);
    assert NAME[1..] == [0x62] && NAME[1..][1..] == [];
    assert Power33(2) == 33 * Power33(1) == 1089;
  }

  lemma GnuPlaced()
    ensures GnuLayout(READER, VIEW, GNU, 2)
  {
    Parts();
    GnuHeader();
    AndHalves(2, 1);
    AndHalves(1, 0);
    Placed(BASE + 28, GNU);
  }

  /** A table with two buckets, two Bloom words of shift 5 and one hashed record, in bucket 1. */
  ghost predicate OneEntry(table: seq<Byte>) {
    && |table| == 44
    && Word(table, 0) == 2 && Word(table, 1) == 1 && Word(table, 2) == 2 && Word(table, 3) == 5
    && Word(table, 8) == 0 && Word(table, 9) == 1
  }

  lemma OneFiled(table: seq<Byte>, h: U32, word: U64)
    requires OneEntry(table) && h % 2 == 1 && h / 64 % 2 == 1 && Word(table, 10) / 2 == h / 2
    requires Le64(table[24..32]) == word && Bit(word, h % 64) && Bit(word, h / 32 % 64)
    ensures Filed(table, 2, 1, h)
  {
    ChainWord(Word(table, 10), h);
    BitHeld(word, h % 64);
    BitHeld(word, h / 32 % 64);
    ShiftRightDivides(h, 5);
    assert Pow2(5) == 32;
  }

  lemma OneWellFormed(r: VaReader, view: DynamicView, table: seq<Byte>)
    requires OneEntry(table) && GnuLayout(r, view, table, 2) && RecordAt(r, view, 1).Some?
    requires Filed(table, 2, 1, GnuHash(RecordAt(r, view, 1).value.0)) && Word(table, 10) % 2 == 1
    ensures WellFormedGnu(r, view, table, 2)
  {
    ChainWord(Word(table, 10), 0);
    forall i | i in AllRecords(1, 2)
      ensures i == 1
    {
      OnlyRecord(i);
    }
  }

  lemma BloomBits(word: U64, low: nat, high: nat)
    requires word == 0x400_0000_0000_0200 && low == 9 && high == 58
    ensures Bit(word, low) && Bit(word, high)
  {
    Pow2Values();
    Pow2Adds(8, 1);
    Pow2Adds(28, 28);
    Pow2Adds(56, 2);
    BitIs(word, low);
    BitIs(word, high);
  }

  lemma GnuFiled(h: U32, word: U64)
    requires h == 0x59_7749 && word == 0x400_0000_0000_0200
    ensures OneEntry(GNU) && Filed(GNU, 2, 1, h) && Word(GNU, 10) % 2 == 1
  {
    GnuHeader();
    GnuWords();
    GnuFilter(word);
    BloomBits(word, h % 64, h / 32 % 64);
    OneFiled(GNU, h, word);
  }

  lemma GnuExample()
    ensures WellFormedGnu(READER, VIEW, GNU, 2)
  {
    var h := GnuHash(NAME);
    TheHash();
    GnuFiled(h, 0x400_0000_0000_0200);
    GnuPlaced();
    TheRecord();
    OneWellFormed(READER, VIEW, GNU);
  }

  lemma Shown(r: VaReader, view: DynamicView, name: seq<Byte>, symbol: DynamicSymbol)
    requires MatchAt(r, view, name, 1) == Found(symbol)
    ensures Verdict(r, view, name, AllRecords(1, 2)) == Found(symbol)
  {
    assert 1 in AllRecords(1, 2);
    ScannedVerdict(r, view, name, AllRecords(1, 2), Some(symbol));
  }

  lemma BothAnswer(r: VaReader, view: DynamicView, gnu: seq<Byte>, sysv: seq<Byte>, name: seq<Byte>, symbol: DynamicSymbol)
    requires WellFormedGnu(r, view, gnu, 2) && Word(gnu, 1) == 1 && WellFormedSysv(r, view, sysv) && Word(sysv, 1) == 2
    requires MatchAt(r, view, name, 1) == Found(symbol)
    ensures GnuAnswer(r, view, name) == SysvAnswer(r, view, name) == Found(symbol)
  {
    Shown(r, view, name, symbol);
    GnuIsLinearScan(r, view, gnu, 2, name);
    SysvIsLinearScan(r, view, sysv, name);
  }

  /** Both lookups find the symbol. */
  lemma BothFind(r: VaReader, view: DynamicView, name: seq<Byte>)
    requires r == READER && view == VIEW && name == NAME
    ensures GnuAnswer(r, view, name) == SysvAnswer(r, view, name) == Found(SYMBOL)
  {
    SysvExample();
    GnuExample();
    SysvWords();
    GnuHeader();
    TheMatch();
    BothAnswer(r, view, GNU, SYSV, name, SYMBOL);
  }

  lemma TheMatch()
    ensures MatchAt(READER, VIEW, NAME, 1) == Found(SYMBOL)
  {
    TheRecord();
  }

  // ---- The hash of a name ----

  /** `snprintf`. */
  const LONG_NAME: seq<Byte> := [0x73, 0x6e, 0x70, 0x72, 0x69, 0x6e, 0x74, 0x66]

  lemma NextHash(name: seq<Byte>, k: nat, hash: U32, q: nat, high: nat, low: nat)
    requires k < |name| && SysvHash(name[..k]) == hash && q < 16 && low < 0x100 && high < 0x10_0000
    requires 16 * hash + name[k] == q * 0x1000_0000 + high * 0x100 + low
    ensures SysvHash(name[..k + 1]) == high * 0x100 + Xor(low, 16 * q)
  {
    assert name[..k + 1][..k] == name[..k];
    StepIs(hash, name[k], q, high, low);
  }

  lemma Unfolded(name: seq<Byte>, k: nat, hash: U32, next: U32)
    requires k < |name| && SysvHash(name[..k]) == hash && 16 * hash + name[k] == next < 0x1000_0000
    ensures SysvHash(name[..k + 1]) == next
  {
    NextHash(name, k, hash, 0, next / 0x100, next % 0x100);
    XorZero(next % 0x100);
  }

  /** The name byte by byte. */
  predicate IsLongName(name: seq<Byte>) {
    && |name| == 8 && name[0] == 0x73 && name[1] == 0x6e && name[2] == 0x70 && name[3] == 0x72
    && name[4] == 0x69 && name[5] == 0x6e && name[6] == 0x74 && name[7] == 0x66
  }

  lemma FirstSix(name: seq<Byte>)
    requires IsLongName(name)
    ensures SysvHash(name[..6]) == 0x7a578fe
  {
    assert name[..0] == [];
    Unfolded(name, 0, 0x0, 0x73);
    Unfolded(name, 1, 0x73, 0x79e);
    Unfolded(name, 2, 0x79e, 0x7a50);
    Unfolded(name, 3, 0x7a50, 0x7a572);
    Unfolded(name, 4, 0x7a572, 0x7a5789);
    Unfolded(name, 5, 0x7a5789, 0x7a578fe);
  }

  lemma FirstSeven(name: seq<Byte>)
    requires IsLongName(name)
    ensures SysvHash(name[..7]) == 0xa579024
  {
    FirstSix(name);
    FoldedBytes();
    NextHash(name, 6, 0x7a578fe, 0x7, 0xa5790, 0x54);
  }

  lemma AllEight(name: seq<Byte>)
    requires IsLongName(name)
    ensures SysvHash(name) == 0x5790206
  {
    FirstSeven(name);
    FoldedBytes();
    NextHash(name, 7, 0xa579024, 0xa, 0x57902, 0xa6);
    assert name[..8] == name;
  }

  /** Its System V hash, which folds the top four bits of the seventh and the eighth byte's step. */
  lemma LongHash(name: seq<Byte>)
    requires name == LONG_NAME
    ensures SysvHash(name) == 0x5790206
  {
    AllEight(name);
  }

  lemma FoldedBytes()
    ensures Xor(0x54, 0x70) == 0x24 && Xor(0xa6, 0xa0) == 0x06
  {
    XorHalves(0x54, 0x70);
    XorHalves(0x2a, 0x38);
    XorHalves(0x15, 0x1c);
    XorHalves(0xa, 0xe);
    XorHalves(0x5, 0x7);
    XorHalves(0x2, 0x3);
    XorHalves(0x1, 0x1);
    XorHalves(0xa6, 0xa0);
    XorHalves(0x53, 0x50);
    XorHalves(0x29, 0x28);
    XorHalves(0x14, 0x14);
    XorHalves(0xa, 0xa);
    XorHalves(0x5, 0x5);
    XorHalves(0x2, 0x2);
    XorHalves(0x1, 0x1);
  }
}
