/**
 * The Multiboot memory map of the UEFI loaders: convert_memory_map and the
 * loops around GetMemoryMap and ExitBootServices.
 */
module MemoryMap {
  import opened Arithmetic
  import opened Bytes
  import opened StringOps

  const TWO64 := 0x1_0000_0000_0000_0000
  const MMAP_BUFFER_ADDR := 0x8000
  const AVAILABLE := 1
  const RESERVED := 2
  const ACPI_RECLAIMABLE := 3
  const NVS := 4

  function Get64(s: seq<Byte>, o: nat): (v: nat)
    requires o + 8 <= |s|
    ensures v < TWO64
  {
    Get32(s, o) + TWO32 * Get32(s, o + 4)
  }

  /** An EFI_MEMORY_DESCRIPTOR, as far as the loader reads it. */
  datatype Descriptor = Descriptor(kind: nat, start: nat, pages: nat)

  /** Descriptor `i` of a map whose descriptors are `stride` bytes apart. */
  function DescriptorAt(fmap: seq<Byte>, stride: nat, i: nat): (d: Descriptor)
    ensures d.start < TWO64
  {
    var o := i * stride;
    if o + 40 <= |fmap| then Descriptor(Get32(fmap, o), Get64(fmap, o + 8), Get64(fmap, o + 24)) else Descriptor(0, 0, 0)
  }

  /** What a Multiboot kernel learns about one stretch of memory. */
  datatype Range = Range(start: nat, len: nat, kind: nat)

  predicate ValidRange(r: Range) {
    r.start < TWO64 && r.len < TWO64 && r.kind < TWO32
  }

  function Converted(d: Descriptor): (r: Range)
    requires d.start < TWO64
    ensures ValidRange(r)
  {
    Range(d.start, d.pages * 4096 % TWO64,
          if d.kind in {1, 2, 3, 4, 7} then AVAILABLE
          else if d.kind == 9 then ACPI_RECLAIMABLE
          else if d.kind == 10 then NVS
          else RESERVED)
  }

  function DescriptorCount(size: nat, stride: nat): nat
    requires stride > 0
  {
    size / stride
  }

  function Entries(fmap: seq<Byte>, stride: nat): (n: nat)
    requires stride > 0
    ensures n <= 120
  {
    if DescriptorCount(|fmap|, stride) < 120 then DescriptorCount(|fmap|, stride) else 120
  }

  function FirstRanges(fmap: seq<Byte>, stride: nat, n: nat): (rs: seq<Range>)
    ensures |rs| == n
    ensures forall i :: 0 <= i < n ==> rs[i] == Converted(DescriptorAt(fmap, stride, i))
    ensures AllValid(rs)
  {
    if n == 0 then [] else FirstRanges(fmap, stride, n - 1) + [Converted(DescriptorAt(fmap, stride, n - 1))]
  }

  predicate AllValid(rs: seq<Range>) {
    forall i :: 0 <= i < |rs| ==> ValidRange(rs[i])
  }

  /** The ranges of a firmware map: its first 120 descriptors. */
  function Ranges(fmap: seq<Byte>, stride: nat): (rs: seq<Range>)
    requires stride > 0
    ensures AllValid(rs) && |rs| <= 120
  {
    FirstRanges(fmap, stride, Entries(fmap, stride))
  }

  function AddRam(total: nat, r: Range): (t: nat)
    ensures t < TWO64
  {
    (total + if r.kind == AVAILABLE then r.len else 0) % TWO64
  }

  /** The sum of the available lengths, as a uint64_t. */
  function TotalRam(rs: seq<Range>): (t: nat)
    ensures t < TWO64
  {
    if rs == [] then 0 else AddRam(TotalRam(rs[..|rs| - 1]), rs[|rs| - 1])
  }

  function MemUpper(total: nat): (kb: nat) {
    U32(if total > 1024 * 1024 then (total - 1024 * 1024) / 1024 else 127 * 1024)
  }

  /** Type by type: loader and boot services memory and conventional memory become available. */
  lemma ConvertedInNumbers(d: Descriptor)
    requires d.start < TWO64
    ensures Converted(d).start == d.start && Converted(d).len == d.pages * 4096 % 0x1_0000_0000_0000_0000
    ensures d.kind == 1 || d.kind == 2 || d.kind == 3 || d.kind == 4 || d.kind == 7 ==> Converted(d).kind == 1
    ensures d.kind == 9 ==> Converted(d).kind == 3
    ensures d.kind == 10 ==> Converted(d).kind == 4
    ensures d.kind == 0 || d.kind == 5 || d.kind == 6 || d.kind == 8 || d.kind > 10 ==> Converted(d).kind == 2
  {
  }

  /** The lengths of the available ranges, added up without wrap-around. */
  function RamSum(rs: seq<Range>): nat {
    if rs == [] then 0 else RamSum(rs[..|rs| - 1]) + if rs[|rs| - 1].kind == 1 then rs[|rs| - 1].len else 0
  }

  /** The uint64_t total is that sum modulo 2^64. */
  lemma {:induction false} TotalIsSum(rs: seq<Range>)
    ensures TotalRam(rs) == RamSum(rs) % 0x1_0000_0000_0000_0000
  {
    if rs != [] {
      TotalIsSum(rs[..|rs| - 1]);
      var r := rs[|rs| - 1];
      ModAdd(RamSum(rs[..|rs| - 1]), if r.kind == 1 then r.len else 0);
    }
  }

  lemma ModAdd(a: nat, b: nat)
    ensures (a % TWO64 + b) % TWO64 == (a + b) % TWO64
  {
    var q, s := a / TWO64, a % TWO64 + b;
    assert a + b == q * TWO64 + s;
    DivUnique(a + b, TWO64, q + s / TWO64, s % TWO64);
  }

  /** Kilobytes above the first megabyte, as a uint32_t; 127 MB where there is no more than that megabyte. */
  lemma MemUpperInNumbers(total: nat)
    ensures MemUpper(total) == (if total > 1048576 then (total - 1048576) / 1024 else 130048) % 0x1_0000_0000
  {
  }

  /** Addresses inside the pages of a descriptor. */
  predicate Covers(d: Descriptor, x: nat) {
    d.start <= x < d.start + d.pages * 4096
  }

  /** Memory that is the operating system's once boot services are gone (section 7.2 of UEFI Specification 2.10). */
  predicate FreeAfterExit(d: Descriptor) {
    d.kind == 7 || 1 <= d.kind <= 4
  }

  /** No address belongs to two descriptors. */
  ghost predicate NoOverlap(fmap: seq<Byte>, stride: nat)
    requires stride > 0
  {
    forall i, j, x :: 0 <= i < j < DescriptorCount(|fmap|, stride) && Covers(DescriptorAt(fmap, stride, i), x) ==>
      !Covers(DescriptorAt(fmap, stride, j), x)
  }

  /** A kernel that goes by the ranges takes address `x` for usable memory. */
  ghost predicate TakenForFree(rs: seq<Range>, x: nat) {
    exists k :: 0 <= k < |rs| && rs[k].kind == AVAILABLE && rs[k].start <= x < rs[k].start + rs[k].len
  }

  /**
   * A kernel never takes memory for usable that belongs to the firmware, a
   * device or the ACPI tables, even if its descriptor is not among the first
   * 120; and it may use all free memory of those that are.
   */
  lemma AvailableIffFree(fmap: seq<Byte>, stride: nat, i: nat, x: nat)
    requires stride > 0 && i < DescriptorCount(|fmap|, stride) && NoOverlap(fmap, stride)
    requires Covers(DescriptorAt(fmap, stride, i), x)
    ensures TakenForFree(Ranges(fmap, stride), x) ==> FreeAfterExit(DescriptorAt(fmap, stride, i))
    ensures FreeAfterExit(DescriptorAt(fmap, stride, i)) && i < 120 && DescriptorAt(fmap, stride, i).pages * 4096 < TWO64 ==>
              TakenForFree(Ranges(fmap, stride), x)
  {
    hide DescriptorAt, FirstRanges, DescriptorCount;
    var rs, d := Ranges(fmap, stride), DescriptorAt(fmap, stride, i);
    if TakenForFree(rs, x) {
      var k :| 0 <= k < |rs| && rs[k].kind == AVAILABLE && rs[k].start <= x < rs[k].start + rs[k].len;
      var e := DescriptorAt(fmap, stride, k);
      LengthWithin(e);
      assert Covers(e, x) && FreeAfterExit(e);
      assert k == i;
    }
    if FreeAfterExit(d) && i < 120 && d.pages * 4096 < TWO64 {
      assert rs[i] == Converted(d);
    }
  }

  lemma LengthWithin(d: Descriptor)
    requires d.start < TWO64
    ensures Converted(d).len <= d.pages * 4096
  {
  }

  // ---------------------------------------------------------------------
  // The layout of the entries and how a kernel walks it.
  // ---------------------------------------------------------------------

  function Entry(r: Range): (b: seq<Byte>)
    ensures |b| == 24
  {
    LE32(20) + LE32(r.start % TWO32) + LE32(r.start / TWO32) + LE32(r.len % TWO32) + LE32(r.len / TWO32) + LE32(r.kind)
  }

  function Encode(rs: seq<Range>): (b: seq<Byte>)
    ensures |b| == 24 * |rs|
  {
    if rs == [] then [] else Entry(rs[0]) + Encode(rs[1..])
  }

  lemma {:induction false} EncodeSnoc(rs: seq<Range>, r: Range)
    ensures Encode(rs + [r]) == Encode(rs) + Entry(r)
  {
    if rs == [] {
      assert rs + [r] == [r] && [r][1..] == [];
    } else {
      EncodeSnoc(rs[1..], r);
      assert (rs + [r])[1..] == rs[1..] + [r];
    }
  }

  function ReadEntry(mem: seq<Byte>, a: nat): (r: Range)
    requires a + 24 <= |mem|
  {
    Range(Get64(mem, a + 4), Get64(mem, a + 12), Get32(mem, a + 20))
  }

  /** The walk of section 3.3 of the Multiboot Specification: an entry, then `size + 4` bytes on. */
  function Walk(mem: seq<Byte>, a: nat, end: nat): (w: (seq<Range>, nat))
    decreases end - a
  {
    if a >= end || a + 24 > |mem| then ([], a)
    else
      var rest := Walk(mem, a + Get32(mem, a) + 4, end);
      ([ReadEntry(mem, a)] + rest.0, rest.1)
  }

  lemma Get64Halves(s: seq<Byte>, o: nat, v: nat)
    requires v < TWO64 && o + 8 <= |s|
    requires s[o..o + 4] == LE32(v % TWO32) && s[o + 4..o + 8] == LE32(v / TWO32)
    ensures Get64(s, o) == v
  {
    Slice32(s, o, v % TWO32);
    Slice32(s, o + 4, v / TWO32);
  }

  /** The 64-bit halves recombine. */
  lemma EntryReadsBack(mem: seq<Byte>, a: nat, r: Range)
    requires ValidRange(r) && a + 24 <= |mem| && mem[a..a + 24] == Entry(r)
    ensures ReadEntry(mem, a) == r && Get32(mem, a) == 20
  {
    hide LE32, Get32, Get64;
    EntryFields(r);
    SliceOfSlice(mem, a, a + 24, 0, 4);
    SliceOfSlice(mem, a, a + 24, 4, 8);
    SliceOfSlice(mem, a, a + 24, 8, 12);
    SliceOfSlice(mem, a, a + 24, 12, 16);
    SliceOfSlice(mem, a, a + 24, 16, 20);
    SliceOfSlice(mem, a, a + 24, 20, 24);
    hide Entry;
    Slice32(mem, a, 20);
    Get64Halves(mem, a + 4, r.start);
    Get64Halves(mem, a + 12, r.len);
    Slice32(mem, a + 20, r.kind);
  }

  lemma EntryFields(r: Range)
    ensures var e := Entry(r);
            && e[0..4] == LE32(20) && e[20..24] == LE32(r.kind)
            && e[4..8] == LE32(r.start % TWO32) && e[8..12] == LE32(r.start / TWO32)
            && e[12..16] == LE32(r.len % TWO32) && e[16..20] == LE32(r.len / TWO32)
  {
    hide LE32;
  }

  /** Walking by size + 4 visits exactly the entries and stops at their end. */
  lemma {:induction false} WalkEncoded(mem: seq<Byte>, a: nat, rs: seq<Range>)
    requires AllValid(rs) && a + 24 * |rs| <= |mem| && mem[a..a + 24 * |rs|] == Encode(rs)
    ensures Walk(mem, a, a + 24 * |rs|) == (rs, a + 24 * |rs|)
    decreases |rs|
  {
    hide Entry, ReadEntry, Get32;
    if rs == [] {
      assert Walk(mem, a, a) == ([], a);
    } else {
      var n := 24 * |rs|;
      SliceOfSlice(mem, a, a + n, 0, 24);
      SliceOfSlice(mem, a, a + n, 24, n);
      assert Encode(rs)[0..24] == Entry(rs[0]) && Encode(rs)[24..n] == Encode(rs[1..]);
      EntryReadsBack(mem, a, rs[0]);
      WalkEncoded(mem, a + 24, rs[1..]);
      assert a + 24 + 24 * |rs[1..]| == a + n;
      assert [rs[0]] + rs[1..] == rs;
    }
  }

  // ---------------------------------------------------------------------
  // The conversion.
  // ---------------------------------------------------------------------

  class MultibootInfo {
    var flags: set<nat> // the bits that are set
    var memLower: nat
    var memUpper: nat
    var mmapLength: nat
    var mmapAddr: nat
  }

  /** A kernel that is given `info` finds the ranges `rs`. */
  ghost predicate Describes(mem: seq<Byte>, info: MultibootInfo, rs: seq<Range>)
    reads info
  {
    && {0, 6} <= info.flags
    && Walk(mem, info.mmapAddr, info.mmapAddr + info.mmapLength) == (rs, info.mmapAddr + info.mmapLength)
    && info.mmapAddr == 0x8004 && info.mmapLength == 24 * |rs|
    && 0x8004 <= |mem| && Get32(mem, 0x8000) == |rs|
    && info.memLower == 640
    && var total := TotalRam(rs);
       info.memUpper == (if total > 1048576 then (total - 1048576) / 1024 else 130048) % 0x1_0000_0000
  }

  lemma WithinMap(n: nat, stride: nat, i: nat)
    requires stride > 0 && i < n / stride
    ensures i * stride + stride <= n
  {
    var q := n / stride;
    assert n == q * stride + n % stride;
    MulMono(i + 1, q, stride);
    assert (i + 1) * stride == i * stride + stride;
  }

  /** The fields of descriptor `i`. */
  method ReadDescriptor(mmap: array<Byte>, mmapSize: nat, stride: nat, i: nat) returns (d: Descriptor)
    requires stride >= 40 && mmapSize <= mmap.Length && i < DescriptorCount(mmapSize, stride)
    ensures d == DescriptorAt(mmap[..mmapSize], stride, i) && d.start < TWO64
  {
    WithinMap(mmapSize, stride, i);
    var bytes := mmap[i * stride..i * stride + stride];
    var kind := Get32(bytes, 0);
    var start, pages := Get64(bytes, 8), Get64(bytes, 24);
    d := Descriptor(kind, start, pages);
  }

  /** Writes the six fields of an entry at `at`. */
  method WriteEntry(mem: array<Byte>, at: nat, r: Range)
    requires ValidRange(r) && at + 24 <= mem.Length
    modifies mem
    ensures mem[..] == Patch(old(mem[..]), at, Entry(r))
  {
    var start := LE32(r.start % TWO32) + LE32(r.start / TWO32);
    var len := LE32(r.len % TWO32) + LE32(r.len / TWO32);
    assert Entry(r) == LE32(20) + start + len + LE32(r.kind);
    MemCpy(mem, at, LE32(20) + start + len + LE32(r.kind));
  }

  method Classify(kind: nat) returns (mapped: nat)
    ensures mapped == Converted(Descriptor(kind, 0, 0)).kind
  {
    if kind == 1 || kind == 2 || kind == 3 || kind == 4 || kind == 7 {
      mapped := AVAILABLE;
    } else if kind == 9 {
      mapped := ACPI_RECLAIMABLE;
    } else if kind == 10 {
      mapped := NVS;
    } else {
      mapped := RESERVED;
    }
  }

  lemma {:induction false} TotalSnoc(rs: seq<Range>, r: Range)
    ensures TotalRam(rs + [r]) == AddRam(TotalRam(rs), r)
  {
    assert (rs + [r])[..|rs|] == rs;
  }

  /** The memory `mem` and the running total after `n` descriptors. */
  ghost predicate Progress(mem0: seq<Byte>, mem: seq<Byte>, fmap: seq<Byte>, stride: nat, n: nat, total: nat) {
    && MMAP_BUFFER_ADDR + 4 + 24 * n <= |mem0|
    && mem == Patch(mem0, MMAP_BUFFER_ADDR + 4, Encode(FirstRanges(fmap, stride, n)))
    && total == TotalRam(FirstRanges(fmap, stride, n))
  }

  lemma NoProgress(mem0: seq<Byte>, fmap: seq<Byte>, stride: nat)
    requires |mem0| >= MMAP_BUFFER_ADDR + 4
    ensures Progress(mem0, mem0, fmap, stride, 0, 0)
  {
    assert mem0 == Patch(mem0, MMAP_BUFFER_ADDR + 4, Encode([]));
  }

  lemma {:induction false} OneMoreEntry(mem0: seq<Byte>, a: nat, rs: seq<Range>, r: Range)
    requires a + 24 * (|rs| + 1) <= |mem0|
    ensures Patch(Patch(mem0, a, Encode(rs)), a + 24 * |rs|, Entry(r)) == Patch(mem0, a, Encode(rs + [r]))
  {
    hide Encode, Entry, Patch;
    EncodeSnoc(rs, r);
    PatchAppend(mem0, a, Encode(rs), Entry(r));
  }

  /** One more descriptor. */
  lemma ProgressStep(mem0: seq<Byte>, mem: seq<Byte>, fmap: seq<Byte>, stride: nat, n: nat, total: nat, r: Range)
    requires Progress(mem0, mem, fmap, stride, n, total) && r == Converted(DescriptorAt(fmap, stride, n))
    requires MMAP_BUFFER_ADDR + 4 + 24 * (n + 1) <= |mem0|
    ensures Progress(mem0, Patch(mem, MMAP_BUFFER_ADDR + 4 + n * 24, Entry(r)), fmap, stride, n + 1, AddRam(total, r))
  {
    var rs := FirstRanges(fmap, stride, n);
    assert FirstRanges(fmap, stride, n + 1) == rs + [r];
    hide Encode, Entry, Patch, DescriptorAt, FirstRanges, TotalRam, Converted, AddRam;
    TotalSnoc(rs, r);
    OneMoreEntry(mem0, MMAP_BUFFER_ADDR + 4, rs, r);
  }

  lemma Uncapped(fmap: seq<Byte>, stride: nat, i: nat)
    requires stride > 0
    ensures i < Entries(fmap, stride) <==> i < DescriptorCount(|fmap|, stride) && i < 120
  {
  }

  /** One turn of the loop: reads descriptor `i`, writes its entry and adds to the total. */
  method ConvertOne(mem: array<Byte>, mmap: array<Byte>, mmapSize: nat, descSize: nat, i: nat, at: nat, total: nat)
    returns (total': nat, ghost r: Range)
    requires mem != mmap && at + 24 <= mem.Length
    requires descSize >= 40 && mmapSize <= mmap.Length && i < DescriptorCount(mmapSize, descSize) && total < TWO64
    modifies mem
    ensures r == Converted(DescriptorAt(mmap[..mmapSize], descSize, i))
    ensures mem[..] == Patch(old(mem[..]), at, Entry(r))
    ensures total' == AddRam(total, r)
  {
    hide DescriptorAt, DescriptorCount, Patch, Entry;
    var d := ReadDescriptor(mmap, mmapSize, descSize, i);
    var len := d.pages * 4096 % TWO64;
    var kind := Classify(d.kind);
    total' := total;
    if kind == AVAILABLE {
      total' := (total + len) % TWO64;
    }
    r := Converted(d);
    assert r == Range(d.start, len, kind);
    WriteEntry(mem, at, Range(d.start, len, kind));
  }

  /** ConvertOne as a step of the loop. */
  method ConvertNext(mem: array<Byte>, mmap: array<Byte>, mmapSize: nat, descSize: nat, i: nat, at: nat, total: nat,
                     ghost mem0: seq<Byte>)
    returns (total': nat)
    requires mem != mmap && mem.Length == |mem0| >= 0x8004 + 120 * 24 && i < 120 && at == 0x8004 + i * 24
    requires descSize >= 40 && mmapSize <= mmap.Length && i < DescriptorCount(mmapSize, descSize) && total < TWO64
    requires Progress(mem0, mem[..], mmap[..mmapSize], descSize, i, total)
    modifies mem
    ensures Progress(mem0, mem[..], mmap[..mmapSize], descSize, i + 1, total') && total' < TWO64
  {
    hide Progress, DescriptorCount, Converted, DescriptorAt, Entry, AddRam, Patch;
    ghost var r;
    ghost var m := mem[..];
    total', r := ConvertOne(mem, mmap, mmapSize, descSize, i, at, total);
    ProgressStep(mem0, m, mmap[..mmapSize], descSize, i, total, r);
  }

  method ConvertLoop(mem: array<Byte>, mmap: array<Byte>, mmapSize: nat, descSize: nat) returns (entryCount: nat, total: nat)
    requires mem != mmap && mem.Length >= 0x8004 + 120 * 24
    requires descSize >= 40 && mmapSize <= mmap.Length
    modifies mem
    ensures var rs := Ranges(mmap[..mmapSize], descSize);
            entryCount == |rs| && Progress(old(mem[..]), mem[..], mmap[..mmapSize], descSize, entryCount, total)
  {
    var numDesc := DescriptorCount(mmapSize, descSize);
    var i := 0;
    entryCount, total := 0, 0;
    ghost var fmap, mem0 := mmap[..mmapSize], mem[..];
    hide Progress, Entries, DescriptorCount;
    NoProgress(mem0, fmap, descSize);
    Uncapped(fmap, descSize, 0);
    while i < numDesc && entryCount < 120
      invariant i == entryCount <= Entries(fmap, descSize)
      invariant Progress(mem0, mem[..], fmap, descSize, i, total) && total < TWO64
      decreases numDesc - i
    {
      Uncapped(fmap, descSize, i);
      total := ConvertNext(mem, mmap, mmapSize, descSize, i, MMAP_BUFFER_ADDR + 4 + entryCount * 24, total, mem0);
      entryCount := entryCount + 1;
      i := i + 1;
    }
    Uncapped(fmap, descSize, i);
  }

  method ConvertMemoryMap(mem: array<Byte>, mmap: array<Byte>, mmapSize: nat, descSize: nat, mbi: MultibootInfo)
    requires mem != mmap && mem.Length >= 0x8004 + 120 * 24
    requires descSize >= 40 && mmapSize <= mmap.Length
    modifies mem, mbi
    ensures var rs := Ranges(mmap[..mmapSize], descSize);
            && mem[..] == Patch(Patch(old(mem[..]), 0x8004, Encode(rs)), 0x8000, LE32(|rs|))
            && Describes(mem[..], mbi, rs)
    ensures mbi.mmapAddr == 0x8004 && mbi.flags == old(mbi.flags) + {0, 6} && mbi.memLower == 640
    ensures var rs := Ranges(mmap[..mmapSize], descSize);
            var total := RamSum(rs) % 0x1_0000_0000_0000_0000;
            && mbi.mmapLength == 24 * |rs| && Get32(mem[..], 0x8000) == |rs|
            && mbi.memUpper == (if total > 1048576 then (total - 1048576) / 1024 else 130048) % 0x1_0000_0000
  {
    hide Encode, TotalRam, RamSum, Patch, Walk, MemUpper, Get32, FirstRanges, Entries;
    ghost var rs, mem0 := Ranges(mmap[..mmapSize], descSize), mem[..];
    var entryCount, total := ConvertLoop(mem, mmap, mmapSize, descSize);
    ghost var m := mem[..];
    MemCpy(mem, MMAP_BUFFER_ADDR, LE32(entryCount));
    mbi.mmapAddr := MMAP_BUFFER_ADDR + 4;
    mbi.mmapLength := entryCount * 24;
    mbi.flags := mbi.flags + {6};
    mbi.memLower := 640;
    mbi.memUpper := MemUpper(total);
    mbi.flags := mbi.flags + {0};
    MemUpperInNumbers(total);
    TotalIsSum(rs);
    Readable(mem0, m, mem[..], rs);
  }

  lemma {:induction false} Readable(mem0: seq<Byte>, m: seq<Byte>, mem: seq<Byte>, rs: seq<Range>)
    requires AllValid(rs) && |rs| <= 120 && |mem0| >= MMAP_BUFFER_ADDR + 4 + 120 * 24
    requires m == Patch(mem0, MMAP_BUFFER_ADDR + 4, Encode(rs)) && mem == Patch(m, MMAP_BUFFER_ADDR, LE32(|rs|))
    ensures var a := MMAP_BUFFER_ADDR + 4; Walk(mem, a, a + 24 * |rs|) == (rs, a + 24 * |rs|)
    ensures Get32(mem, MMAP_BUFFER_ADDR) == |rs|
  {
    var a, n := MMAP_BUFFER_ADDR + 4, 24 * |rs|;
    hide LE32, Encode, Get32, Walk;
    PatchInside(mem0, a, Encode(rs), a, a + n);
    PatchOutside(m, MMAP_BUFFER_ADDR, LE32(|rs|), a, a + n);
    assert mem[a..a + n] == Encode(rs);
    WalkEncoded(mem, a, rs);
    assert mem[MMAP_BUFFER_ADDR..a] == LE32(|rs|);
    Slice32(mem, MMAP_BUFFER_ADDR, |rs|);
  }

  // ---------------------------------------------------------------------
  // The map-key protocol.
  // ---------------------------------------------------------------------

  datatype Snapshot = Snapshot(bytes: seq<Byte>, stride: nat)

  /**
   * Boot services, as far as the memory map goes (sections 7.2.3 and 7.4.6 of
   * UEFI Specification 2.10): the map may change whenever the firmware is
   * running, every change brings a new key, and ExitBootServices fails unless
   * it is given the key of the map as it is.
   */
  class Firmware {
    var now: Snapshot
    var key: nat
    var issued: map<nat, Snapshot>
    var exited: bool
    var failures: nat // calls that did not return EFI_SUCCESS

    ghost predicate Valid()
      reads this
    {
      key in issued && issued[key] == now && forall k :: k in issued ==> issued[k].stride >= 40
    }

    /** Anything that was known about a key stays known. */
    ghost predicate Remembers(before: map<nat, Snapshot>)
      reads this
    {
      forall k :: k in before ==> k in issued && issued[k] == before[k]
    }

    constructor (m: Snapshot, k: nat)
      requires m.stride >= 40
      ensures Valid()
    {
      now, key, issued, exited, failures := m, k, map[k := m], false, 0;
    }

    method Events()
      requires Valid()
      modifies this
      ensures Valid() && Remembers(old(issued)) && exited == old(exited) && failures == old(failures)
    {
      var happens: bool := *;
      var m: Snapshot, k: nat := *, *;
      if happens && k !in issued && m.stride >= 40 {
        now, key, issued := m, k, issued[k := m];
      }
    }

    method GetMemoryMap(buf: array<Byte>, size: nat) returns (status: nat, mmapSize: nat, mapKey: nat, descSize: nat)
      requires Valid() && !exited && size <= buf.Length
      modifies this, buf
      ensures Valid() && Remembers(old(issued)) && exited == old(exited)
      ensures failures == old(failures) + if status == 0 then 0 else 1
      ensures status == 0 ==> mmapSize <= size && mapKey in issued && issued[mapKey] == Snapshot(buf[..mmapSize], descSize)
    {
      Events();
      mmapSize, mapKey, descSize := |now.bytes|, key, now.stride;
      if |now.bytes| > size {
        failures := failures + 1;
        return 5, mmapSize, mapKey, descSize;
      }
      MemCpy(buf, 0, now.bytes);
      assert buf[..mmapSize] == buf[..][..mmapSize] == now.bytes;
      status := 0;
    }

    method ExitBootServices(mapKey: nat) returns (status: nat)
      requires Valid() && !exited
      modifies this
      ensures Valid() && Remembers(old(issued))
      ensures status == 0 ==> exited && mapKey == key
      ensures status != 0 ==> exited == old(exited)
      ensures failures == old(failures) + if status == 0 then 0 else 1
    {
      Events();
      var refuses: bool := *;
      if mapKey != key || refuses {
        failures := failures + 1;
        return 2;
      }
      exited := true;
      return 0;
    }
  }

  /** The 32-bit loader converts first and exits afterwards; the loop is cut off after `turns` turns. */
  method ExitLoop32(fw: Firmware, mem: array<Byte>, buf: array<Byte>, mbi: MultibootInfo, turns: nat) returns (done: bool)
    requires fw.Valid() && !fw.exited && mem != buf && mem.Length >= 0x8004 + 120 * 24
    modifies fw, mem, buf, mbi
    ensures fw.Valid()
    ensures done <==> fw.exited
    ensures !done ==> fw.failures == old(fw.failures) + turns
    ensures done ==> Describes(mem[..], mbi, Ranges(fw.now.bytes, fw.now.stride))
  {
    hide Describes;
    for turn := 0 to turns
      invariant fw.Valid() && !fw.exited && fw.failures == old(fw.failures) + turn
    {
      var status, mmapSize, mapKey, descSize := fw.GetMemoryMap(buf, buf.Length);
      if status == 0 {
        ConvertMemoryMap(mem, buf, mmapSize, descSize, mbi);
        status := fw.ExitBootServices(mapKey);
        if status == 0 {
          return true;
        }
      }
    }
    return false;
  }

  /** The 64-bit loader tries ten times to exit and converts afterwards what the last GetMemoryMap gave. */
  method ExitLoop64(fw: Firmware, mem: array<Byte>, buf: array<Byte>, mbi: MultibootInfo) returns (done: bool)
    requires fw.Valid() && !fw.exited && mem != buf && mem.Length >= 0x8004 + 120 * 24
    modifies fw, mem, buf, mbi
    ensures fw.Valid()
    ensures done <==> fw.exited
    ensures !done ==> fw.failures == old(fw.failures) + 10
    ensures done ==> Describes(mem[..], mbi, Ranges(fw.now.bytes, fw.now.stride))
  {
    hide Describes;
    done := false;
    var mmapSize: nat, mapKey: nat, descSize: nat := 0, 0, 0;
    var retry := 0;
    while retry < 10 && !done
      invariant fw.Valid() && done == fw.exited && retry <= 10
      invariant !done ==> fw.failures == old(fw.failures) + retry
      invariant done ==> mmapSize <= buf.Length && fw.now == Snapshot(buf[..mmapSize], descSize)
      decreases 10 - retry, !done
    {
      var status;
      status, mmapSize, mapKey, descSize := fw.GetMemoryMap(buf, buf.Length);
      if status == 0 {
        status := fw.ExitBootServices(mapKey);
        done := status == 0;
      }
      retry := retry + 1;
    }
    if done {
      ConvertMemoryMap(mem, buf, mmapSize, descSize, mbi);
    }
  }

  // ---------------------------------------------------------------------
  // The finished map, byte by byte.
  // ---------------------------------------------------------------------

  /** EFI_MEMORY_DESCRIPTOR, with the padding behind its type. */
  datatype EfiDescriptor = EfiDescriptor(kind: nat, pad: nat, phys: nat, virt: nat, pages: nat, attribute: nat) {
    predicate Valid() {
      kind < TWO32 && pad < TWO32 && phys < TWO64 && virt < TWO64 && pages < TWO64 && attribute < TWO64
    }

    function Bytes(): (b: seq<Byte>)
      requires Valid()
      ensures |b| == 40
    {
      (LE32(kind) + LE32(pad)) + LE64(phys) + LE64(virt) + LE64(pages) + LE64(attribute)
    }
  }

  function LE64(v: nat): (b: seq<Byte>)
    ensures |b| == 8
  {
    LE32(v % 0x1_0000_0000) + LE32(v / 0x1_0000_0000)
  }

  lemma Slice64(s: seq<Byte>, o: nat, v: nat)
    requires o + 8 <= |s| && v < TWO64 && s[o..o + 8] == LE64(v)
    ensures Get64(s, o) == v
  {
    var t := s[o..o + 8];
    assert s[o..o + 4] == t[0..4] && s[o + 4..o + 8] == t[4..8];
    hide LE32, Get64;
    Get64Halves(s, o, v);
  }

  lemma DescriptorParts(d: EfiDescriptor)
    requires d.Valid()
    ensures var b := d.Bytes(); b[0..4] == LE32(d.kind) && b[8..16] == LE64(d.phys) && b[24..32] == LE64(d.pages)
  {
    hide LE32, LE64;
  }

  /** The loader reads a descriptor as the firmware laid it down. */
  lemma DescriptorReadsBack(fmap: seq<Byte>, stride: nat, i: nat, o: nat, d: EfiDescriptor)
    requires d.Valid() && o == i * stride && o + 40 <= |fmap| && fmap[o..o + 40] == d.Bytes()
    ensures DescriptorAt(fmap, stride, i) == Descriptor(d.kind, d.phys, d.pages)
  {
    DescriptorParts(d);
    hide EfiDescriptor.Bytes, LE32, LE64, Get32, Get64;
    SliceOfSlice(fmap, o, o + 40, 0, 4);
    SliceOfSlice(fmap, o, o + 40, 8, 16);
    SliceOfSlice(fmap, o, o + 40, 24, 32);
    Slice32(fmap, o, d.kind);
    Slice64(fmap, o + 8, d.phys);
    Slice64(fmap, o + 24, d.pages);
  }

  lemma Twenty()
    ensures LE32(20) == [20, 0, 0, 0]
  {
  }

  /** An entry of the Multiboot map in bytes: its size without that field, start, length and type. */
  lemma EntryInBytes(r: Range)
    requires ValidRange(r)
    ensures var e := Entry(r);
            && e[0..4] == [20, 0, 0, 0]
            && Get32(e, 4) + 0x1_0000_0000 * Get32(e, 8) == r.start && Get32(e, 12) + 0x1_0000_0000 * Get32(e, 16) == r.len
            && Get32(e, 20) == r.kind
  {
    hide Entry, LE32, Get32;
    EntryFields(r);
    Twenty();
    var e := Entry(r);
    Slice32(e, 4, r.start % TWO32);
    Slice32(e, 8, r.start / TWO32);
    Slice32(e, 12, r.len % TWO32);
    Slice32(e, 16, r.len / TWO32);
    Slice32(e, 20, r.kind);
  }

  lemma {:induction false} EncodedAt(rs: seq<Range>, i: nat)
    requires i < |rs|
    ensures Encode(rs)[24 * i..24 * i + 24] == Entry(rs[i])
  {
    hide Entry;
    if i == 0 {
      assert Encode(rs)[0..24] == Entry(rs[0]);
    } else {
      EncodedAt(rs[1..], i - 1);
      assert Encode(rs)[24 * i..24 * i + 24] == Encode(rs[1..])[24 * (i - 1)..24 * (i - 1) + 24];
    }
  }

  /** How many ranges there are, and range `i` of the map that convert_memory_map makes, in numbers. */
  lemma RangeIs(fmap: seq<Byte>, stride: nat, i: nat)
    requires stride > 0 && i < |Ranges(fmap, stride)|
    ensures |Ranges(fmap, stride)| == if |fmap| / stride < 120 then |fmap| / stride else 120
    ensures Ranges(fmap, stride)[i] == Converted(DescriptorAt(fmap, stride, i))
  {
    hide Converted, DescriptorAt;
  }

  /**
   * Entry `i` of the finished map at 0x8004 + 24 i for a descriptor `d`: 20,
   * the descriptor's start, 4096 times its pages, and the type.
   */
  lemma {:induction false} EntryInMemory(mem0: seq<Byte>, mem: seq<Byte>, fmap: seq<Byte>, stride: nat, i: nat, o: nat,
                                         d: EfiDescriptor)
    requires stride >= 40 && |mem0| >= 0x8004 + 2880 && i < |Ranges(fmap, stride)|
    requires mem == Patch(Patch(mem0, 0x8004, Encode(Ranges(fmap, stride))), 0x8000, LE32(|Ranges(fmap, stride)|))
    requires d.Valid() && o == i * stride && o + 40 <= |fmap| && fmap[o..o + 40] == d.Bytes()
    ensures var a := 0x8004 + 24 * i;
            && a + 24 <= |mem| && mem[a..a + 4] == [20, 0, 0, 0]
            && Get32(mem, a + 4) + 0x1_0000_0000 * Get32(mem, a + 8) == d.phys
            && Get32(mem, a + 12) + 0x1_0000_0000 * Get32(mem, a + 16) == 4096 * d.pages % 0x1_0000_0000_0000_0000
            && Get32(mem, a + 20) == (if d.kind == 7 || 1 <= d.kind <= 4 then 1 else if d.kind == 9 then 3
                                      else if d.kind == 10 then 4 else 2)
  {
    hide Encode, Entry, Patch, LE32, Get32, DescriptorAt, Ranges, EfiDescriptor.Bytes, Converted;
    var rs := Ranges(fmap, stride);
    RangeIs(fmap, stride, i);
    DescriptorReadsBack(fmap, stride, i, o, d);
    ConvertedInNumbers(DescriptorAt(fmap, stride, i));
    EntryInBytes(rs[i]);
    EntryPlaced(mem0, mem, rs, i);
    var a := 0x8004 + 24 * i;
    Get32InSlice(mem, a, a + 24, 4);
    Get32InSlice(mem, a, a + 24, 8);
    Get32InSlice(mem, a, a + 24, 12);
    Get32InSlice(mem, a, a + 24, 16);
    Get32InSlice(mem, a, a + 24, 20);
    SliceOfSlice(mem, a, a + 24, 0, 4);
  }

  lemma {:induction false} EntryPlaced(mem0: seq<Byte>, mem: seq<Byte>, rs: seq<Range>, i: nat)
    requires |mem0| >= 0x8004 + 2880 && i < |rs| <= 120
    requires mem == Patch(Patch(mem0, 0x8004, Encode(rs)), 0x8000, LE32(|rs|))
    ensures mem[0x8004 + 24 * i..0x8004 + 24 * i + 24] == Entry(rs[i])
  {
    hide Encode, Entry, Patch, LE32;
    var a, n, m := 0x8004, 24 * |rs|, Patch(mem0, 0x8004, Encode(rs));
    PatchInside(mem0, a, Encode(rs), a, a + n);
    PatchOutside(m, 0x8000, LE32(|rs|), a, a + n);
    PatchWhole(mem0[a..a + n], Encode(rs));
    assert mem[a..a + n] == Encode(rs);
    EncodedAt(rs, i);
    SliceOfSlice(mem, a, a + n, 24 * i, 24 * i + 24);
  }

  lemma PatchWhole(s: seq<Byte>, b: seq<Byte>)
    requires |s| == |b|
    ensures Patch(s, 0, b) == b
  {
  }
}
