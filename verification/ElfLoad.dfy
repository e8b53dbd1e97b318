/** PT_LOAD layout, virtual-address translation and the three readers
    (src/elf/dynamic_view.cpp:15-40, 316-370 and 386-465). */
module ElfLoad {
  import opened Wrappers
  import opened Machine
  import opened BitLaws
  import opened ElfSymbols

  const PT_LOAD: U32 := 1
  const PF_R: U32 := 4

  datatype ProgramHeader = ProgramHeader(
    kind: U32, flags: U32, offset: U64, va: U64, fileSize: U64, memorySize: U64, alignment: U64)

  predicate IsLoad(h: ProgramHeader) {
    h.kind == PT_LOAD
  }

  predicate IsReadable(h: ProgramHeader) {
    And(h.flags, PF_R) != 0
  }

  predicate ValidAlignment(alignment: U64, offset: U64, va: U64) {
    alignment <= 1 || (And(alignment, alignment - 1) == 0 && va % alignment == offset % alignment)
  }

  /** Which headers count: type 1 is loaded, and bit 2 of the flags makes it readable (gABI chapter 5, "Program Header"). */
  lemma HeaderMeans(h: ProgramHeader)
    ensures IsLoad(h) <==> h.kind == 1
    ensures IsReadable(h) <==> h.flags / 4 % 2 == 1
  {
    AndHalves(h.flags, 4);
    AndHalves(h.flags / 2, 2);
    AndHalves(h.flags / 2 / 2, 1);
  }

  /** An alignment above 1 is a power of two, and address and offset agree modulo it. */
  lemma AlignmentMeans(alignment: U64, offset: U64, va: U64)
    ensures ValidAlignment(alignment, offset, va) <==>
            alignment <= 1 || ((exists k: nat :: alignment == Pow2(k)) && va % alignment == offset % alignment)
  {
    if alignment > 1 {
      if And(alignment, alignment - 1) == 0 {
        var k := PowerOfTwo(alignment);
      }
      if k: nat :| alignment == Pow2(k) {
        PowerPasses(k);
      }
    }
  }

  // ---- Layout ----

  predicate SoundLoad(h: ProgramHeader) {
    h.fileSize <= h.memorySize && h.va + h.memorySize < TWO_64 && ValidAlignment(h.alignment, h.offset, h.va)
  }

  /** Every PT_LOAD is sound, and they lie in ascending order with disjoint memory ranges. */
  ghost predicate Layout(headers: seq<ProgramHeader>) {
    && (forall i :: 0 <= i < |headers| && IsLoad(headers[i]) ==> SoundLoad(headers[i]))
    && (forall i, j :: 0 <= i < j < |headers| && IsLoad(headers[i]) && IsLoad(headers[j]) ==>
                         headers[i].va + headers[i].memorySize <= headers[j].va)
  }

  method ValidateElfLoadLayout(headers: seq<ProgramHeader>) returns (ok: bool)
    ensures ok <==> Layout(headers)
  {
    var sawLoad := false;
    var previousVa: U64, previousEnd: U64 := 0, 0;
    for k := 0 to |headers|
      invariant Layout(headers[..k])
      invariant !sawLoad ==> forall i :: 0 <= i < k ==> !IsLoad(headers[i])
      invariant sawLoad ==>
          exists i :: 0 <= i < k && IsLoad(headers[i]) && headers[i].va == previousVa
                      && previousEnd == headers[i].va + headers[i].memorySize
      invariant sawLoad ==>
          forall i :: 0 <= i < k && IsLoad(headers[i]) ==> headers[i].va + headers[i].memorySize <= previousEnd
    {
      var h := headers[k];
      assert headers[..k + 1][..k] == headers[..k];
      if !IsLoad(h) {
        continue;
      }
      var end := CheckedAdd(h.va, h.memorySize);
      if h.fileSize > h.memorySize || end.None? || !ValidAlignment(h.alignment, h.offset, h.va) {
        assert !SoundLoad(headers[k]);
        return false;
      }
      if sawLoad && (h.va < previousVa || h.va < previousEnd) {
        return false;
      }
      sawLoad, previousVa, previousEnd := true, h.va, end.value;
    }
    assert headers[..|headers|] == headers;
    return true;
  }

  ghost predicate FileBounds(fileSize: nat, headers: seq<ProgramHeader>) {
    forall i :: 0 <= i < |headers| && IsLoad(headers[i]) ==> headers[i].offset + headers[i].fileSize <= fileSize
  }

  method ValidateElfLoadFileBounds(fileSize: U64, headers: seq<ProgramHeader>) returns (ok: bool)
    ensures ok <==> FileBounds(fileSize, headers)
  {
    for k := 0 to |headers|
      invariant FileBounds(fileSize, headers[..k])
    {
      var h := headers[k];
      if IsLoad(h) && !(h.offset <= fileSize && h.fileSize <= fileSize - h.offset) {
        return false;
      }
      assert headers[..k + 1][..k] == headers[..k];
    }
    assert headers[..|headers|] == headers;
    return true;
  }

  /** What both validators accept together. */
  ghost predicate ValidSegments(fileSize: nat, headers: seq<ProgramHeader>) {
    Layout(headers) && FileBounds(fileSize, headers) && fileSize < TWO_64
  }

  // ---- Translation ----

  /** The file range of `h` holds the `size` bytes at `va`. */
  predicate HoldsFileRange(h: ProgramHeader, va: nat, size: nat) {
    IsLoad(h) && h.va <= va && va - h.va < h.fileSize && va + size <= h.va + h.fileSize
    && h.offset + (va - h.va) < TWO_64
  }

  function Translate(h: ProgramHeader, va: nat): nat
    requires h.va <= va
  {
    h.offset + (va - h.va)
  }

  /** Some segment holds the range and all that do translate it to `offset`. */
  ghost predicate TranslatesTo(headers: seq<ProgramHeader>, va: nat, size: nat, offset: nat) {
    && size > 0
    && (exists i :: 0 <= i < |headers| && HoldsFileRange(headers[i], va, size))
    && (forall i :: 0 <= i < |headers| && HoldsFileRange(headers[i], va, size) ==>
                      Translate(headers[i], va) == offset)
  }

  method ElfVaToFileOffset(headers: seq<ProgramHeader>, va: U64, size: U64) returns (result: Option<U64>)
    ensures result.Some? ==> TranslatesTo(headers, va, size, result.value)
    ensures result.None? ==> forall offset :: !TranslatesTo(headers, va, size, offset)
  {
    if size == 0 {
      return None;
    }
    result := None;
    for k := 0 to |headers|
      invariant result.None? ==> forall i :: 0 <= i < k ==> !HoldsFileRange(headers[i], va, size)
      invariant result.Some? ==> TranslatesTo(headers[..k], va, size, result.value)
    {
      var h := headers[k];
      assert headers[..k + 1][..k] == headers[..k];
      if !IsLoad(h) || va < h.va {
        continue;
      }
      var delta: U64 := va - h.va;
      if delta >= h.fileSize || size > h.fileSize - delta || h.offset > TWO_64 - 1 - delta {
        continue;
      }
      var candidate: U64 := h.offset + delta;
      assert HoldsFileRange(headers[..k + 1][k], va, size);
      if result.Some? && result.value != candidate {
        var i :| 0 <= i < k && HoldsFileRange(headers[..k][i], va, size);
        assert HoldsFileRange(headers[i], va, size) && HoldsFileRange(headers[k], va, size);
        return None;
      }
      if result.Some? {
        var i :| 0 <= i < k && HoldsFileRange(headers[..k][i], va, size);
        assert HoldsFileRange(headers[..k + 1][i], va, size);
      }
      result := Some(candidate);
    }
    assert headers[..|headers|] == headers;
  }

  /** In a valid layout at most one segment holds a range, so one holder settles the translation. */
  lemma HolderDecides(headers: seq<ProgramHeader>, va: nat, size: nat, i: nat)
    requires Layout(headers) && size > 0
    requires i < |headers| && HoldsFileRange(headers[i], va, size)
    ensures forall j :: 0 <= j < |headers| && HoldsFileRange(headers[j], va, size) ==> j == i
    ensures TranslatesTo(headers, va, size, Translate(headers[i], va))
    ensures forall offset :: TranslatesTo(headers, va, size, offset) ==> offset == Translate(headers[i], va)
  {
    forall j | 0 <= j < |headers| && HoldsFileRange(headers[j], va, size)
      ensures j == i
    {
    }
  }

  /** In a valid file the translated range lies in the file, and byte `k` of it is `k` bytes further on. */
  lemma TranslationExact(fileSize: nat, headers: seq<ProgramHeader>, va: nat, size: nat, offset: nat, k: nat)
    requires ValidSegments(fileSize, headers)
    requires TranslatesTo(headers, va, size, offset) && k < size
    ensures offset + size <= fileSize
    ensures TranslatesTo(headers, va + k, 1, offset + k)
  {
    var i :| 0 <= i < |headers| && HoldsFileRange(headers[i], va, size);
    assert HoldsFileRange(headers[i], va + k, 1);
    HolderDecides(headers, va + k, 1, i);
  }

  /** In a valid layout a range resolves exactly when one segment's file range holds it. */
  lemma ResolvesIffHeld(headers: seq<ProgramHeader>, va: nat, size: nat)
    requires Layout(headers) && size > 0
    ensures (exists offset: nat :: TranslatesTo(headers, va, size, offset)) <==>
            exists i :: 0 <= i < |headers| && HoldsFileRange(headers[i], va, size)
  {
    if i :| 0 <= i < |headers| && HoldsFileRange(headers[i], va, size) {
      HolderDecides(headers, va, size, i);
    }
  }

  // ---- The loaded image: p_memsz of readable segments, at load bias + address ----

  predicate HoldsReadableMemory(h: ProgramHeader, va: nat) {
    IsLoad(h) && IsReadable(h) && h.va <= va < h.va + h.memorySize
  }

  /** Which bytes and ranges a segment holds, counted from its first address: in the file, in a file of this size, and in
      readable memory. */
  lemma RangesMean(h: ProgramHeader, k: nat, size: nat, fileSize: nat)
    ensures HoldsFileRange(h, h.va + k, size) <==>
            h.kind == 1 && k < h.fileSize && k + size <= h.fileSize && h.offset + k <= 0xffff_ffff_ffff_ffff
    ensures HoldsFileByte(h, fileSize, h.va + k) <==> h.kind == 1 && k < h.fileSize && h.offset + k < fileSize
    ensures HoldsReadableMemory(h, h.va + k) <==> h.kind == 1 && h.flags / 4 % 2 == 1 && k < h.memorySize
    ensures SoundLoad(h) <==>
            && h.fileSize <= h.memorySize && h.va + h.memorySize <= 0xffff_ffff_ffff_ffff
            && ValidAlignment(h.alignment, h.offset, h.va)
  {
    HeaderMeans(h);
  }

  /** The first readable segment that holds `va` in memory decides how much follows it. */
  function LoadedReadable(headers: seq<ProgramHeader>, va: U64): Option<U64> {
    if headers == [] then None
    else if HoldsReadableMemory(headers[0], va) then Some(headers[0].memorySize - (va - headers[0].va))
    else LoadedReadable(headers[1..], va)
  }

  method LoadedReadableBytes(headers: seq<ProgramHeader>, va: U64) returns (remaining: Option<U64>)
    ensures remaining == LoadedReadable(headers, va)
  {
    for k := 0 to |headers|
      invariant LoadedReadable(headers, va) == LoadedReadable(headers[k..], va)
    {
      var h := headers[k];
      assert headers[k..][0] == h && headers[k..][1..] == headers[k + 1..];
      if !IsLoad(h) || !IsReadable(h) || va < h.va {
        continue;
      }
      var delta: U64 := va - h.va;
      if delta < h.memorySize {
        return Some(h.memorySize - delta);
      }
    }
    return None;
  }

  /** `size` bytes of process memory; an unmapped address has no bytes to give. */
  function Copy(memory: map<int, Byte>, runtime: nat, size: nat): Option<seq<Byte>>
    decreases size
  {
    if size == 0 then Some([])
    else if runtime !in memory then None
    else
      match Copy(memory, runtime + 1, size - 1)
      case None => None
      case Some(rest) => Some([memory[runtime]] + rest)
  }

  /** Load bias plus address, and the bytes after it, stay below the top of the address space. */
  predicate NoWrap(bias: U64, va: nat, size: nat) {
    bias + va + size < TWO_64
  }

  function LoadedRead(bias: U64, memory: map<int, Byte>, headers: seq<ProgramHeader>, va: U64, size: nat): Option<seq<Byte>> {
    var remaining := LoadedReadable(headers, va);
    if size == 0 || remaining.None? || size > remaining.value || !NoWrap(bias, va, size) then None
    else Copy(memory, bias + va, size)
  }

  /** The bytes at `runtime` in their order, and nothing as soon as one of them is unmapped. */
  lemma {:induction false} CopyExact(memory: map<int, Byte>, runtime: nat, size: nat)
    ensures Copy(memory, runtime, size).Some? <==> forall a :: runtime <= a < runtime + size ==> a in memory
    ensures Copy(memory, runtime, size).Some? ==>
              && |Copy(memory, runtime, size).value| == size
              && forall k: nat :: k < size ==> Copy(memory, runtime, size).value[k] == memory[runtime + k]
    decreases size
  {
    if size > 0 {
      CopyExact(memory, runtime + 1, size - 1);
    }
  }

  /** A read of the image succeeds exactly when it is not empty, ends within the segment that decides, does not reach the
      top of the address space and meets mapped memory only; it gives the bytes at load bias plus address. */
  lemma LoadedReadFits(bias: U64, memory: map<int, Byte>, headers: seq<ProgramHeader>, va: U64, size: nat)
    ensures LoadedRead(bias, memory, headers, va, size).Some? <==>
            && size > 0 && LoadedReadable(headers, va).Some? && size <= LoadedReadable(headers, va).value
            && bias + va + size < 0x1_0000_0000_0000_0000
            && forall a :: bias + va <= a < bias + va + size ==> a in memory
    ensures LoadedRead(bias, memory, headers, va, size).Some? ==>
              forall k: nat :: k < size ==>
                |LoadedRead(bias, memory, headers, va, size).value| == size
                && LoadedRead(bias, memory, headers, va, size).value[k] == memory[bias + va + k]
  {
    CopyExact(memory, bias + va, size);
  }

  // ---- The file-backed view of a loaded image: only canonical p_filesz bytes of readable segments ----

  /** The holders of `va` among the first `count` segments are all readable at one file offset. */
  ghost predicate Consistent(headers: seq<ProgramHeader>, count: nat, va: U64)
    requires count <= |headers|
  {
    && (forall i :: 0 <= i < count && HoldsFileRange(headers[i], va, 1) ==> IsReadable(headers[i]))
    && (forall i, j :: 0 <= i < j < count && HoldsFileRange(headers[i], va, 1) && HoldsFileRange(headers[j], va, 1) ==>
                         Translate(headers[i], va) == Translate(headers[j], va))
  }

  /** `remaining` is the least remainder of the holders among the first `count` segments, if there are any. */
  ghost predicate LeastRemainder(headers: seq<ProgramHeader>, count: nat, va: U64, remaining: Option<U64>)
    requires count <= |headers|
  {
    && (remaining.Some? ==>
          exists i :: 0 <= i < count && HoldsFileRange(headers[i], va, 1)
                      && remaining.value == headers[i].va + headers[i].fileSize - va)
    && (forall i :: 0 <= i < count && HoldsFileRange(headers[i], va, 1) ==>
                      remaining.Some? && remaining.value <= headers[i].va + headers[i].fileSize - va)
  }

  /** Nothing when the holders of `va` are unreadable or disagree, else their least remainder. */
  ghost predicate FileBackedAnswer(headers: seq<ProgramHeader>, va: U64, result: Option<U64>) {
    if Consistent(headers, |headers|, va) then LeastRemainder(headers, |headers|, va, result) else result.None?
  }

  method FileBackedReadableBytes(headers: seq<ProgramHeader>, va: U64) returns (remaining: Option<U64>)
    ensures FileBackedAnswer(headers, va, remaining)
  {
    remaining := None;
    var fileOffset: Option<U64> := None;
    for k := 0 to |headers|
      invariant Consistent(headers, k, va) && LeastRemainder(headers, k, va, remaining)
      invariant remaining.Some? == fileOffset.Some?
      invariant forall i :: 0 <= i < k && HoldsFileRange(headers[i], va, 1) ==>
                              fileOffset.Some? && Translate(headers[i], va) == fileOffset.value
    {
      var h := headers[k];
      if !IsLoad(h) || va < h.va {
        continue;
      }
      var delta: U64 := va - h.va;
      if delta >= h.fileSize || h.offset > TWO_64 - 1 - delta {
        continue;
      }
      var candidate: U64 := h.offset + delta;
      assert HoldsFileRange(headers[k], va, 1);
      if !IsReadable(h) {
        assert !Consistent(headers, |headers|, va);
        return None;
      }
      if fileOffset.Some? && fileOffset.value != candidate {
        var i :| 0 <= i < k && HoldsFileRange(headers[i], va, 1);
        assert Translate(headers[i], va) != Translate(headers[k], va);
        assert !Consistent(headers, |headers|, va);
        return None;
      }
      fileOffset := Some(candidate);
      var available: U64 := h.fileSize - delta;
      remaining := Some(if remaining.Some? && remaining.value < available then remaining.value else available);
    }
  }

  ghost function FileBackedReadable(headers: seq<ProgramHeader>, va: U64): Option<U64> {
    if exists n: U64 :: FileBackedAnswer(headers, va, Some(n)) then
      var n: U64 :| FileBackedAnswer(headers, va, Some(n));
      Some(n)
    else None
  }

  ghost function FileBackedRead(bias: U64, memory: map<int, Byte>, headers: seq<ProgramHeader>, va: U64, size: nat)
    : Option<seq<Byte>>
  {
    var remaining := FileBackedReadable(headers, va);
    if size == 0 || remaining.None? || !(exists offset: nat :: TranslatesTo(headers, va, size, offset))
       || size > remaining.value || !NoWrap(bias, va, size) then None
    else Copy(memory, bias + va, size)
  }

  // ---- The file image ----

  predicate HoldsFileByte(h: ProgramHeader, fileSize: nat, va: nat) {
    IsLoad(h) && h.va <= va < h.va + h.fileSize && h.offset + (va - h.va) < fileSize
  }

  /** The first segment with this byte in the file decides; its remainder is cut at the end of the file. */
  function FileReadable(headers: seq<ProgramHeader>, fileSize: U64, va: U64): Option<U64> {
    if headers == [] then None
    else if HoldsFileByte(headers[0], fileSize, va) then
      var delta := va - headers[0].va;
      Some(if headers[0].fileSize - delta <= fileSize - headers[0].offset - delta
           then headers[0].fileSize - delta else fileSize - headers[0].offset - delta)
    else FileReadable(headers[1..], fileSize, va)
  }

  method FileReadableBytes(headers: seq<ProgramHeader>, fileSize: U64, va: U64) returns (remaining: Option<U64>)
    ensures remaining == FileReadable(headers, fileSize, va)
  {
    for k := 0 to |headers|
      invariant FileReadable(headers, fileSize, va) == FileReadable(headers[k..], fileSize, va)
    {
      var h := headers[k];
      assert headers[k..][0] == h && headers[k..][1..] == headers[k + 1..];
      if !IsLoad(h) || va < h.va {
        continue;
      }
      var delta: U64 := va - h.va;
      if delta >= h.fileSize || h.offset > fileSize {
        continue;
      }
      var available: U64 := fileSize - h.offset;
      if delta >= available {
        continue;
      }
      return Some(if h.fileSize - delta <= available - delta then h.fileSize - delta else available - delta);
    }
    return None;
  }

  ghost function FileRead(file: seq<Byte>, headers: seq<ProgramHeader>, va: U64, size: nat): Option<seq<Byte>> {
    if exists offset: nat :: TranslatesTo(headers, va, size, offset) && offset + size <= |file| then
      var offset: nat :| TranslatesTo(headers, va, size, offset) && offset + size <= |file|;
      Some(file[offset..offset + size])
    else None
  }

  // ---- Agreement ----

  /** The loader put byte `k` of a segment's file range where the image expects it. */
  predicate BytePlaced(file: seq<Byte>, h: ProgramHeader, k: nat, bias: U64, memory: map<int, Byte>) {
    h.offset + k < |file| && bias + h.va + k in memory && memory[bias + h.va + k] == file[h.offset + k]
  }

  /** `memory` is an image mapped from `file` at load bias `bias`. */
  ghost predicate MappedFrom(file: seq<Byte>, headers: seq<ProgramHeader>, bias: U64, memory: map<int, Byte>) {
    forall i, k: nat ::
      0 <= i < |headers| && IsLoad(headers[i]) && k < headers[i].fileSize && NoWrap(bias, headers[i].va + k, 0) ==>
        BytePlaced(file, headers[i], k, bias, memory)
  }

  lemma {:induction false} CopyPlaced(file: seq<Byte>, h: ProgramHeader, from: nat, size: nat, bias: U64,
                                      memory: map<int, Byte>)
    requires from + size <= h.fileSize && h.offset + h.fileSize <= |file|
    requires forall k: nat :: from <= k < from + size ==> BytePlaced(file, h, k, bias, memory)
    ensures Copy(memory, bias + h.va + from, size) == Some(file[h.offset + from..h.offset + from + size])
    decreases size
  {
    if size > 0 {
      assert BytePlaced(file, h, from, bias, memory);
      CopyPlaced(file, h, from + 1, size - 1, bias, memory);
      assert file[h.offset + from..h.offset + from + size]
          == [file[h.offset + from]] + file[h.offset + from + 1..h.offset + from + size];
    }
  }

  /** In a valid layout the segment that holds an address gives each reader's answer. */
  lemma ReadableInSegment(headers: seq<ProgramHeader>, fileSize: U64, va: U64, i: nat)
    requires ValidSegments(fileSize, headers) && i < |headers| && HoldsFileRange(headers[i], va, 1)
    ensures FileReadable(headers, fileSize, va) == Some(headers[i].va + headers[i].fileSize - va)
    ensures FileBackedReadable(headers, va)
         == if IsReadable(headers[i]) then Some(headers[i].va + headers[i].fileSize - va) else None
    ensures IsReadable(headers[i]) ==>
              LoadedReadable(headers, va) == Some(headers[i].va + headers[i].memorySize - va)
  {
    HolderDecides(headers, va, 1, i);
    FirstHolder(headers, fileSize, va, i);
    var remaining: U64 := headers[i].va + headers[i].fileSize - va;
    if IsReadable(headers[i]) {
      assert FileBackedAnswer(headers, va, Some(remaining));
    }
    forall n: U64 | FileBackedAnswer(headers, va, Some(n))
      ensures n == remaining && IsReadable(headers[i])
    {
    }
  }

  lemma {:induction false} FirstHolder(headers: seq<ProgramHeader>, fileSize: U64, va: U64, i: nat)
    requires ValidSegments(fileSize, headers) && i < |headers| && HoldsFileRange(headers[i], va, 1)
    ensures FileReadable(headers, fileSize, va) == Some(headers[i].va + headers[i].fileSize - va)
    ensures IsReadable(headers[i]) ==>
              LoadedReadable(headers, va) == Some(headers[i].va + headers[i].memorySize - va)
  {
    if i > 0 {
      assert headers[1..][i - 1] == headers[i];
      assert IsLoad(headers[0]) ==> headers[0].va + headers[0].memorySize <= headers[i].va;
      FirstHolder(headers[1..], fileSize, va, i - 1);
    }
  }

  lemma {:induction false} NoHolderNoFile(headers: seq<ProgramHeader>, fileSize: U64, va: U64)
    requires ValidSegments(fileSize, headers)
    requires forall i :: 0 <= i < |headers| ==> !HoldsFileRange(headers[i], va, 1)
    ensures FileReadable(headers, fileSize, va).None?
  {
    if headers != [] {
      assert !HoldsFileRange(headers[0], va, 1);
      assert forall i :: 0 <= i < |headers| - 1 ==> headers[1..][i] == headers[i + 1];
      NoHolderNoFile(headers[1..], fileSize, va);
    }
  }

  /** A non-empty read of a valid file succeeds exactly when it fits what the reader says is readable. */
  lemma FileReadFits(file: seq<Byte>, headers: seq<ProgramHeader>, va: U64, size: nat)
    requires ValidSegments(|file|, headers) && size > 0
    ensures FileRead(file, headers, va, size).Some? <==>
            FileReadable(headers, |file|, va).Some? && size <= FileReadable(headers, |file|, va).value
  {
    if i :| 0 <= i < |headers| && HoldsFileRange(headers[i], va, 1) {
      ReadableInSegment(headers, |file|, va, i);
      HolderDecides(headers, va, 1, i);
      if HoldsFileRange(headers[i], va, size) {
        HolderDecides(headers, va, size, i);
        TranslationExact(|file|, headers, va, size, Translate(headers[i], va), 0);
      } else {
        assert forall j :: 0 <= j < |headers| && HoldsFileRange(headers[j], va, size) ==> HoldsFileRange(headers[j], va, 1);
      }
    } else {
      NoHolderNoFile(headers, |file|, va);
      assert forall j :: 0 <= j < |headers| && HoldsFileRange(headers[j], va, size) ==> HoldsFileRange(headers[j], va, 1);
    }
  }

  /** The same for the mapped image: it succeeds exactly when it fits and does not wrap. */
  lemma FileBackedReadFits(file: seq<Byte>, headers: seq<ProgramHeader>, bias: U64, memory: map<int, Byte>,
                           va: U64, size: nat)
    requires ValidSegments(|file|, headers) && size > 0
    requires MappedFrom(file, headers, bias, memory)
    ensures FileBackedRead(bias, memory, headers, va, size).Some? <==>
            && FileBackedReadable(headers, va).Some? && size <= FileBackedReadable(headers, va).value
            && bias + va + size < 0x1_0000_0000_0000_0000
  {
    if FileBackedReadable(headers, va).Some? && size <= FileBackedReadable(headers, va).value && NoWrap(bias, va, size) {
      var n: U64 :| FileBackedAnswer(headers, va, Some(n));
      var i :| 0 <= i < |headers| && HoldsFileRange(headers[i], va, 1);
      ReadableInSegment(headers, |file|, va, i);
      assert HoldsFileRange(headers[i], va, size);
      ReadersAgree(file, headers, bias, memory, va, size, i);
    }
  }

  /** Over a mapped image, every range a readable segment holds reads the same through all three readers. */
  lemma ReadersAgree(file: seq<Byte>, headers: seq<ProgramHeader>, bias: U64, memory: map<int, Byte>,
                     va: U64, size: nat, i: nat)
    requires ValidSegments(|file|, headers) && MappedFrom(file, headers, bias, memory)
    requires i < |headers| && size > 0 && HoldsFileRange(headers[i], va, size)
    requires IsReadable(headers[i]) && NoWrap(bias, va, size)
    ensures FileRead(file, headers, va, size)
         == Some(file[Translate(headers[i], va)..Translate(headers[i], va) + size])
    ensures FileBackedRead(bias, memory, headers, va, size) == FileRead(file, headers, va, size)
    ensures LoadedRead(bias, memory, headers, va, size) == FileRead(file, headers, va, size)
  {
    var h := headers[i];
    HolderDecides(headers, va, size, i);
    assert HoldsFileRange(h, va, 1);
    ReadableInSegment(headers, |file|, va, i);
    forall k: nat | va - h.va <= k < va - h.va + size
      ensures BytePlaced(file, h, k, bias, memory)
    {
      assert NoWrap(bias, headers[i].va + k, 0);
    }
    CopyPlaced(file, h, va - h.va, size, bias, memory);
  }

  /** The file-backed reader never reads a range it should not: what it returns is what the file holds. */
  lemma FileBackedIsFile(file: seq<Byte>, headers: seq<ProgramHeader>, bias: U64, memory: map<int, Byte>,
                         va: U64, size: nat)
    requires ValidSegments(|file|, headers) && MappedFrom(file, headers, bias, memory)
    requires FileBackedRead(bias, memory, headers, va, size).Some?
    ensures FileBackedRead(bias, memory, headers, va, size) == FileRead(file, headers, va, size)
  {
    var n: U64 :| FileBackedAnswer(headers, va, Some(n));
    var offset: nat :| TranslatesTo(headers, va, size, offset);
    var i :| 0 <= i < |headers| && HoldsFileRange(headers[i], va, size);
    assert HoldsFileRange(headers[i], va, 1);
    ReadersAgree(file, headers, bias, memory, va, size, i);
  }

  // ---- The readers as lookup backings ----

  ghost function FileReader(file: seq<Byte>, headers: seq<ProgramHeader>): VaReader
    requires |file| < TWO_64
  {
    VaReader((va: U64, size: nat) => FileRead(file, headers, va, size),
             (va: U64) => FileReadable(headers, |file|, va))
  }

  ghost function FileBackedReader(bias: U64, memory: map<int, Byte>, headers: seq<ProgramHeader>): VaReader {
    VaReader((va: U64, size: nat) => FileBackedRead(bias, memory, headers, va, size),
             (va: U64) => FileBackedReadable(headers, va))
  }

  /** A table inside a readable segment is served alike by the file and by the image mapped from it, so the
      lookup theorems apply to both with the same table bytes. */
  lemma BothBack(file: seq<Byte>, headers: seq<ProgramHeader>, bias: U64, memory: map<int, Byte>,
                 va: U64, size: nat, i: nat)
    requires ValidSegments(|file|, headers) && MappedFrom(file, headers, bias, memory)
    requires i < |headers| && size > 0 && HoldsFileRange(headers[i], va, size)
    requires IsReadable(headers[i]) && NoWrap(bias, va, size)
    ensures var content := file[Translate(headers[i], va)..Translate(headers[i], va) + size];
            Backs(FileReader(file, headers), va, content)
            && Backs(FileBackedReader(bias, memory, headers), va, content)
  {
    var offset := Translate(headers[i], va);
    var content := file[offset..offset + size];
    forall o: nat, n: nat | 0 < n && o + n <= |content|
      ensures Serves(FileReader(file, headers), va, content, o, n)
      ensures Serves(FileBackedReader(bias, memory, headers), va, content, o, n)
    {
      BothServe(file, headers, bias, memory, va, size, i, o, n);
    }
  }

  lemma BothServe(file: seq<Byte>, headers: seq<ProgramHeader>, bias: U64, memory: map<int, Byte>,
                  va: U64, size: nat, i: nat, o: nat, n: nat)
    requires ValidSegments(|file|, headers) && MappedFrom(file, headers, bias, memory)
    requires i < |headers| && 0 < n && o + n <= size && HoldsFileRange(headers[i], va, size)
    requires IsReadable(headers[i]) && NoWrap(bias, va, size)
    requires Translate(headers[i], va) + size <= |file|
    ensures var content := file[Translate(headers[i], va)..Translate(headers[i], va) + size];
            && Serves(FileReader(file, headers), va, content, o, n)
            && Serves(FileBackedReader(bias, memory, headers), va, content, o, n)
  {
    var content := file[Translate(headers[i], va)..Translate(headers[i], va) + size];
    var at: U64 := va + o;
    BothRead(file, headers, bias, memory, va, size, i, o, n, at);
    BothReadable(|file|, headers, va, size, i, o, at);
    ServedBy(FileReader(file, headers), va, content, o, n,
             FileRead(file, headers, at, n), FileReadable(headers, |file|, at));
    ServedBy(FileBackedReader(bias, memory, headers), va, content, o, n,
             FileBackedRead(bias, memory, headers, at, n), FileBackedReadable(headers, at));
  }

  /** Both readers' bytes for a part of the range. */
  lemma BothRead(file: seq<Byte>, headers: seq<ProgramHeader>, bias: U64, memory: map<int, Byte>,
                 va: U64, size: nat, i: nat, o: nat, n: nat, at: U64)
    requires ValidSegments(|file|, headers) && MappedFrom(file, headers, bias, memory)
    requires i < |headers| && 0 < n && o + n <= size && HoldsFileRange(headers[i], va, size)
    requires IsReadable(headers[i]) && NoWrap(bias, va, size) && at == va + o
    requires Translate(headers[i], va) + size <= |file|
    ensures var part := file[Translate(headers[i], va)..Translate(headers[i], va) + size][o..o + n];
            FileRead(file, headers, at, n) == FileBackedRead(bias, memory, headers, at, n) == Some(part)
  {
    PartHeld(headers[i], bias, va, size, o, n);
    PartOfPart(file, Translate(headers[i], va), size, o, n);
    ReadersAgree(file, headers, bias, memory, at, n, i);
  }

  /** And how much follows it. */
  lemma BothReadable(fileSize: U64, headers: seq<ProgramHeader>, va: U64, size: nat, i: nat, o: nat, at: U64)
    requires ValidSegments(fileSize, headers) && i < |headers| && o < size && HoldsFileRange(headers[i], va, size)
    requires IsReadable(headers[i]) && at == va + o && Translate(headers[i], va) + size <= fileSize
    ensures FileReadable(headers, fileSize, at) == FileBackedReadable(headers, at)
            == Some(headers[i].va + headers[i].fileSize - at)
    ensures headers[i].va + headers[i].fileSize - at >= size - o
  {
    assert HoldsFileRange(headers[i], at, 1);
    ReadableInSegment(headers, fileSize, at, i);
  }

  lemma ServedBy(r: VaReader, va: U64, content: seq<Byte>, o: nat, n: nat, bytes: Option<seq<Byte>>, readable: Option<U64>)
    requires va + |content| <= TWO_64 && 0 < n && o + n <= |content|
    requires r.read(va + o, n) == bytes == Some(content[o..o + n])
    requires r.readable(va + o) == readable && readable.Some? && readable.value >= |content| - o
    ensures Serves(r, va, content, o, n)
  {
  }

  lemma PartHeld(h: ProgramHeader, bias: U64, va: U64, size: nat, o: nat, n: nat)
    requires HoldsFileRange(h, va, size) && NoWrap(bias, va, size) && 0 < n && o + n <= size
    requires Translate(h, va) + size < TWO_64
    ensures va + o < TWO_64 && HoldsFileRange(h, va + o, n) && HoldsFileRange(h, va + o, 1) && NoWrap(bias, va + o, n)
    ensures Translate(h, va + o) == Translate(h, va) + o
  {
  }

  lemma PartOfPart(file: seq<Byte>, offset: nat, size: nat, o: nat, n: nat)
    requires offset + size <= |file| && o + n <= size
    ensures file[offset..offset + size][o..o + n] == file[offset + o..offset + o + n]
  {
    var left, right := file[offset..offset + size][o..o + n], file[offset + o..offset + o + n];
    assert |left| == |right| == n;
    forall k | 0 <= k < n
      ensures left[k] == right[k]
    {
      assert left[k] == file[offset..offset + size][o + k] == file[offset + (o + k)];
    }
  }
}
