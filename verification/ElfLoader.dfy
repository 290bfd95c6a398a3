/** src/common/elf.c: checking and loading a 32-bit ELF executable. */
module ElfLoader {
  import opened Bytes
  import opened StringOps

  const EHDR := 52
  const PHDR := 32
  const PT_LOAD := 1

  /** What elf32_validate accepts: magic, 32 bits, little-endian, ET_EXEC for EM_386, with program headers. */
  predicate IsExecutable(image: seq<Byte>) {
    && |image| >= EHDR
    && image[..6] == [0x7F, 0x45, 0x4C, 0x46, 1, 1]
    && Get16(image, 16) == 2 && Get16(image, 18) == 3
    && Get32(image, 28) != 0 && Get16(image, 44) != 0
  }

  function Entry(image: seq<Byte>): nat
    requires |image| >= EHDR
  {
    Get32(image, 24)
  }

  function HeaderCount(image: seq<Byte>): nat
    requires |image| >= EHDR
  {
    Get16(image, 44)
  }

  /** Offset of program header `i`, in uint32_t arithmetic. */
  function HeaderAt(image: seq<Byte>, i: nat): nat
    requires |image| >= EHDR
  {
    U32(Get32(image, 28) + i * Get16(image, 42))
  }

  datatype Segment = Segment(kind: nat, offset: nat, paddr: nat, filesz: nat, memsz: nat)

  function SegmentIn(image: seq<Byte>, h: nat): Segment
    requires h + PHDR <= |image|
  {
    Segment(Get32(image, h), Get32(image, h + 4), Get32(image, h + 12), Get32(image, h + 16), Get32(image, h + 20))
  }

  /** A header outside the image reads as one that loads nothing. */
  function Seg(image: seq<Byte>, i: nat): Segment
    requires |image| >= EHDR
  {
    if HeaderAt(image, i) + PHDR <= |image| then SegmentIn(image, HeaderAt(image, i)) else Segment(0, 0, 0, 0, 0)
  }

  /** Header `i` passes the bounds checks of the loop; the sum of the second one is a uint32_t. */
  predicate Checked(image: seq<Byte>, i: nat)
    requires |image| >= EHDR
  {
    && HeaderAt(image, i) + PHDR <= |image|
    && var s := Seg(image, i);
       (s.kind == PT_LOAD && s.filesz > 0 ==> U32(s.offset + s.filesz) <= |image|)
  }

  /** The first header from `i` on that fails a check, or their number. */
  function FirstBad(image: seq<Byte>, i: nat): (k: nat)
    requires |image| >= EHDR && i <= HeaderCount(image)
    ensures i <= k <= HeaderCount(image)
    ensures forall j :: i <= j < k ==> Checked(image, j)
    ensures k < HeaderCount(image) ==> !Checked(image, k)
    decreases HeaderCount(image) - i
  {
    if i == HeaderCount(image) || !Checked(image, i) then i else FirstBad(image, i + 1)
  }

  function Extent(s: Segment): nat {
    if s.memsz > s.filesz then s.memsz else s.filesz
  }

  /** The file part of `s` does not wrap around, and its destination is memory that misses the image. */
  predicate Suits(image: seq<Byte>, base: nat, memory: nat, s: Segment) {
    s.kind == PT_LOAD ==>
      && (s.filesz > 0 ==> s.offset + s.filesz <= |image|)
      && s.paddr + Extent(s) <= memory
      && (s.paddr + Extent(s) <= base || base + |image| <= s.paddr)
  }

  /** What the loader takes for granted about an image in a memory of `memory` bytes. */
  predicate Loadable(image: seq<Byte>, base: nat, memory: nat) {
    |image| >= EHDR ==>
      && (forall j :: 0 <= j < FirstBad(image, 0) ==> Suits(image, base, memory, Seg(image, j)))
      && HeaderCount(image) * Get16(image, 42) < 0x8000_0000
      && Get32(image, 28) + HeaderCount(image) * Get16(image, 42) + PHDR < TWO32
  }

  function FilePart(image: seq<Byte>, offset: nat, filesz: nat): (b: seq<Byte>)
    requires filesz > 0 ==> offset + filesz <= |image|
    ensures |b| == filesz
  {
    if filesz > 0 then image[offset..offset + filesz] else []
  }

  /** The bytes of a segment in memory: those from the file, then zeros. */
  function Content(image: seq<Byte>, s: Segment): (b: seq<Byte>)
    requires s.filesz > 0 ==> s.offset + s.filesz <= |image|
    ensures |b| == Extent(s)
    ensures forall k :: 0 <= k < |b| ==> b[k] == if k < s.filesz then image[s.offset + k] else 0
  {
    FilePart(image, s.offset, s.filesz) + Zeros(Extent(s) - s.filesz)
  }

  /** Memory after one segment. */
  function Place(mem: seq<Byte>, base: nat, image: seq<Byte>, s: Segment): (r: seq<Byte>)
    requires Suits(image, base, |mem|, s)
    ensures |r| == |mem|
  {
    if s.kind == PT_LOAD then Patch(mem, s.paddr, Content(image, s)) else mem
  }

  /** Memory after the first `n` headers, in order. */
  function LoadFirst(mem: seq<Byte>, base: nat, image: seq<Byte>, n: nat): (r: seq<Byte>)
    requires |image| >= EHDR && forall j :: 0 <= j < n ==> Suits(image, base, |mem|, Seg(image, j))
    ensures |r| == |mem|
  {
    hide Seg, Suits;
    if n == 0 then mem else Place(LoadFirst(mem, base, image, n - 1), base, image, Seg(image, n - 1))
  }

  // ---------------------------------------------------------------------
  // The code.
  // ---------------------------------------------------------------------

  function Read16(mem: array<Byte>, a: nat): (v: nat)
    requires a + 2 <= mem.Length
    reads mem
    ensures forall lo: nat, hi: nat :: lo <= a && a + 2 <= hi <= mem.Length ==> v == Get16(mem[..][lo..hi], a - lo)
  {
    (mem[a] as int) + 256 * (mem[a + 1] as int)
  }

  function Read32(mem: array<Byte>, a: nat): (v: nat)
    requires a + 4 <= mem.Length
    reads mem
    ensures forall lo: nat, hi: nat :: lo <= a && a + 4 <= hi <= mem.Length ==> v == Get32(mem[..][lo..hi], a - lo)
  {
    (mem[a] as int) + 256 * (mem[a + 1] as int) + 65536 * (mem[a + 2] as int) + 16777216 * (mem[a + 3] as int)
  }

  /** The image is the `size` bytes of memory from `base`; a base of zero is NULL. */
  method Elf32Validate(mem: array<Byte>, base: nat, size: nat) returns (ok: bool)
    requires base + size <= mem.Length
    ensures ok <==> base != 0 && IsExecutable(mem[..][base..base + size])
  {
    if base == 0 || size < EHDR {
      return false;
    }
    ghost var image := mem[..][base..base + size];
    assert forall k :: 0 <= k < 6 ==> mem[base + k] == image[..6][k];
    if mem[base] != 0x7F || mem[base + 1] != 0x45 || mem[base + 2] != 0x4C || mem[base + 3] != 0x46 {
      return false;
    }
    if mem[base + 4] != 1 || mem[base + 5] != 1 || Read16(mem, base + 16) != 2 || Read16(mem, base + 18) != 3 {
      return false;
    }
    if Read32(mem, base + 28) == 0 || Read16(mem, base + 44) == 0 {
      return false;
    }
    return true;
  }

  method Elf32Load(mem: array<Byte>, base: nat, size: nat) returns (entry: nat)
    requires base + size <= mem.Length
    requires Loadable(mem[..][base..base + size], base, mem.Length)
    modifies mem
    ensures var image := old(mem[..][base..base + size]);
            if base != 0 && IsExecutable(image) then
              var k := FirstBad(image, 0);
              && mem[..] == LoadFirst(old(mem[..]), base, image, k)
              && entry == (if k == HeaderCount(image) then image[24] as int + 256 * image[25] as int + 65536 * image[26] as int
                                                           + 16777216 * image[27] as int
                           else 0)
            else
              mem[..] == old(mem[..]) && entry == 0
  {
    hide IsExecutable, Seg, Get16, Get32, U32, FirstBad, Suits;
    var ok := Elf32Validate(mem, base, size);
    if !ok {
      return 0;
    }
    ghost var image, mem0 := mem[..][base..base + size], mem[..];
    assert |image| >= EHDR by { HasHeader(image); }
    var i := 0;
    while i < Read16(mem, base + 44)
      invariant mem[..][base..base + size] == image && i <= HeaderCount(image)
      invariant FirstBad(image, 0) == FirstBad(image, i)
      invariant mem[..] == LoadFirst(mem0, base, image, i)
      decreases HeaderCount(image) - i
    {
      StepBad(image, i);
      var h := U32(Read32(mem, base + 28) + i * Read16(mem, base + 42));
      assert h == HeaderAt(image, i);
      if h + PHDR > size {
        return 0;
      }
      var fits := LoadSegment(mem, base, size, base + h, image, i);
      if !fits {
        return 0;
      }
      i := i + 1;
    }
    entry := Read32(mem, base + 24);
  }

  lemma HasHeader(image: seq<Byte>)
    requires IsExecutable(image)
    ensures |image| >= EHDR
  {
  }

  lemma StepBad(image: seq<Byte>, i: nat)
    requires |image| >= EHDR && i < HeaderCount(image)
    ensures FirstBad(image, i) == if Checked(image, i) then FirstBad(image, i + 1) else i
  {
  }

  /** One turn of the loop, for the header at address `p`. */
  method LoadSegment(mem: array<Byte>, base: nat, size: nat, p: nat, ghost image: seq<Byte>, ghost i: nat) returns (fits: bool)
    requires base + size <= mem.Length && image == mem[..][base..base + size] && size >= EHDR
    requires p == base + HeaderAt(image, i) && p + PHDR <= base + size
    requires Checked(image, i) ==> Suits(image, base, mem.Length, Seg(image, i))
    modifies mem
    ensures fits == Checked(image, i)
    ensures mem[..] == if fits then Place(old(mem[..]), base, image, Seg(image, i)) else old(mem[..])
    ensures mem[..][base..base + size] == image
  {
    ghost var s := Seg(image, i);
    hide Seg, HeaderAt, Content, Checked, Place, Suits;
    var kind, offset := Read32(mem, p), Read32(mem, p + 4);
    var paddr, filesz, memsz := Read32(mem, p + 12), Read32(mem, p + 16), Read32(mem, p + 20);
    assert s == Segment(kind, offset, paddr, filesz, memsz) by { SegIs(image, i, p - base); }
    CheckIs(image, i);
    PlaceNothing(mem[..], base, image, s);
    fits := true;
    if kind == PT_LOAD {
      if filesz > 0 && U32(offset + filesz) > size {
        return false;
      }
      CopyAndClear(mem, base, size, offset, paddr, filesz, memsz, image, s);
    }
  }

  /** The memcpy of the file part and the memset of the rest. */
  method CopyAndClear(mem: array<Byte>, base: nat, size: nat, offset: nat, paddr: nat, filesz: nat, memsz: nat,
                      ghost image: seq<Byte>, ghost s: Segment)
    requires base + size <= mem.Length && image == mem[..][base..base + size]
    requires s == Segment(PT_LOAD, offset, paddr, filesz, memsz) && Suits(image, base, mem.Length, s)
    modifies mem
    ensures mem[..] == Place(old(mem[..]), base, image, s) && mem[..][base..base + size] == image
  {
    hide Copied, Place, FilePart, Zeros, Content;
    InTwoSteps(mem[..], base, image, s);
    CopyPart(mem, base, size, offset, paddr, filesz, image);
    ClearPart(mem, paddr + filesz, if memsz > filesz then memsz - filesz else 0);
  }

  /** Memory after the file part `b` is copied to `o`. */
  function Copied(m: seq<Byte>, o: nat, b: seq<Byte>): (r: seq<Byte>)
    requires o + |b| <= |m|
    ensures |r| == |m|
  {
    if b != [] then Patch(m, o, b) else m
  }

  method CopyPart(mem: array<Byte>, base: nat, size: nat, offset: nat, paddr: nat, filesz: nat, ghost image: seq<Byte>)
    requires base + size <= mem.Length && image == mem[..][base..base + size] && paddr + filesz <= mem.Length
    requires filesz > 0 ==> offset + filesz <= size
    modifies mem
    ensures mem[..] == Copied(old(mem[..]), paddr, FilePart(image, offset, filesz))
  {
    if filesz > 0 {
      var src := mem[..][base + offset..base + offset + filesz];
      assert src == image[offset..offset + filesz] by { SliceOfSlice(mem[..], base, base + size, offset, offset + filesz); }
      MemCpy(mem, paddr, src);
    }
  }

  method ClearPart(mem: array<Byte>, at: nat, n: nat)
    requires at + n <= mem.Length
    modifies mem
    ensures mem[..] == Copied(old(mem[..]), at, Zeros(n))
  {
    if n > 0 {
      MemSet(mem, at, 0, n);
      assert seq(n, _ => 0) == Zeros(n);
    }
  }

  lemma PlaceNothing(mem: seq<Byte>, base: nat, image: seq<Byte>, s: Segment)
    ensures s.kind != PT_LOAD ==> Suits(image, base, |mem|, s) && Place(mem, base, image, s) == mem
  {
  }

  lemma SegIs(image: seq<Byte>, i: nat, h: nat)
    requires h + PHDR <= |image| && |image| >= EHDR && h == HeaderAt(image, i)
    ensures Seg(image, i) ==
            Segment(Get32(image, h), Get32(image, h + 4), Get32(image, h + 12), Get32(image, h + 16), Get32(image, h + 20))
  {
  }

  lemma CheckIs(image: seq<Byte>, i: nat)
    requires |image| >= EHDR && HeaderAt(image, i) + PHDR <= |image|
    ensures var s := Seg(image, i); Checked(image, i) <==> (s.kind == PT_LOAD && s.filesz > 0 ==> U32(s.offset + s.filesz) <= |image|)
  {
    hide Seg, HeaderAt;
  }

  /** Copying the file part and clearing the rest amounts to one patch, which misses the image. */
  lemma InTwoSteps(m: seq<Byte>, base: nat, image: seq<Byte>, s: Segment)
    requires s.kind == PT_LOAD && Suits(image, base, |m|, s) && base + |image| <= |m|
    ensures Copied(Copied(m, s.paddr, FilePart(image, s.offset, s.filesz)), s.paddr + s.filesz, Zeros(Extent(s) - s.filesz))
         == Place(m, base, image, s)
    ensures Place(m, base, image, s)[base..base + |image|] == m[base..base + |image|]
  {
    var f, z := FilePart(image, s.offset, s.filesz), Zeros(Extent(s) - s.filesz);
    assert Content(image, s) == f + z;
    hide FilePart, Content, Zeros, Copied;
    CopiedTwice(m, s.paddr, f, z);
    PatchOutside(m, s.paddr, f + z, base, base + |image|);
  }

  lemma CopiedTwice(m: seq<Byte>, o: nat, f: seq<Byte>, z: seq<Byte>)
    requires o + |f| + |z| <= |m|
    ensures Copied(Copied(m, o, f), o + |f|, z) == Patch(m, o, f + z)
  {
    CopiedIsPatch(m, o, f);
    CopiedIsPatch(Patch(m, o, f), o + |f|, z);
    hide Patch, Copied;
    PatchAppend(m, o, f, z);
  }

  lemma CopiedIsPatch(m: seq<Byte>, o: nat, b: seq<Byte>)
    requires o + |b| <= |m|
    ensures Copied(m, o, b) == Patch(m, o, b)
  {
    if b == [] { assert Patch(m, o, b) == m; }
  }

  // ---------------------------------------------------------------------
  // What ends up in memory.
  // ---------------------------------------------------------------------

  predicate Covers(s: Segment, x: nat) {
    s.kind == PT_LOAD && s.paddr <= x < s.paddr + Extent(s)
  }

  /** Where segments overlap, the one with the last header wins. */
  lemma {:induction false} LastWriterWins(mem: seq<Byte>, base: nat, image: seq<Byte>, n: nat, j: nat, x: nat)
    requires |image| >= EHDR && forall i :: 0 <= i < n ==> Suits(image, base, |mem|, Seg(image, i))
    requires j < n && Covers(Seg(image, j), x)
    requires forall i :: j < i < n ==> !Covers(Seg(image, i), x)
    ensures x < |mem|
    ensures LoadFirst(mem, base, image, n)[x] == Content(image, Seg(image, j))[x - Seg(image, j).paddr]
  {
    hide Seg;
    if j < n - 1 { LastWriterWins(mem, base, image, n - 1, j, x); }
  }

  /** Memory that no segment covers is unchanged. */
  lemma {:induction false} UncoveredStays(mem: seq<Byte>, base: nat, image: seq<Byte>, n: nat, x: nat)
    requires |image| >= EHDR && forall i :: 0 <= i < n ==> Suits(image, base, |mem|, Seg(image, i))
    requires x < |mem| && forall i :: 0 <= i < n ==> !Covers(Seg(image, i), x)
    ensures LoadFirst(mem, base, image, n)[x] == mem[x]
  {
    hide Seg;
    if n > 0 { UncoveredStays(mem, base, image, n - 1, x); }
  }

  predicate Apart(s: Segment, t: Segment) {
    s.kind == PT_LOAD && t.kind == PT_LOAD ==> s.paddr + Extent(s) <= t.paddr || t.paddr + Extent(t) <= s.paddr
  }

  lemma {:induction false} OneSegmentInPlace(mem: seq<Byte>, base: nat, image: seq<Byte>, n: nat, j: nat, s: Segment)
    requires |image| >= EHDR && forall i :: 0 <= i < n ==> Suits(image, base, |mem|, Seg(image, i))
    requires forall i :: j < i < n ==> Apart(s, Seg(image, i))
    requires j < n && s == Seg(image, j) && s.kind == PT_LOAD
    ensures LoadFirst(mem, base, image, n)[s.paddr..s.paddr + Extent(s)] == Content(image, s)
  {
    var r := LoadFirst(mem, base, image, n);
    assert Suits(image, base, |mem|, s);
    var c := Content(image, s);
    hide Seg, LoadFirst, Suits, Content;
    forall k | 0 <= k < |c| ensures r[s.paddr + k] == c[k] {
      ApartCovers(image, n, j, s, s.paddr + k);
      LastWriterWins(mem, base, image, n, j, s.paddr + k);
    }
    SliceFromBytes(r, s.paddr, c);
  }

  lemma ApartCovers(image: seq<Byte>, n: nat, j: nat, s: Segment, x: nat)
    requires |image| >= EHDR && Covers(s, x) && forall i :: j < i < n ==> Apart(s, Seg(image, i))
    ensures forall i :: j < i < n ==> !Covers(Seg(image, i), x)
  {
    hide Seg;
  }

  lemma SliceFromBytes(r: seq<Byte>, p: nat, c: seq<Byte>)
    requires p + |c| <= |r| && forall k :: 0 <= k < |c| ==> r[p + k] == c[k]
    ensures r[p..p + |c|] == c
  {
  }

  /** With disjoint destinations every PT_LOAD segment is in memory, file bytes first and zeros after them. */
  lemma {:induction false} SegmentsInPlace(mem: seq<Byte>, base: nat, image: seq<Byte>, n: nat, j: nat)
    requires |image| >= EHDR && forall i :: 0 <= i < n ==> Suits(image, base, |mem|, Seg(image, i))
    requires forall a, b :: 0 <= a < b < n ==> Apart(Seg(image, a), Seg(image, b))
    requires j < n && Seg(image, j).kind == PT_LOAD
    ensures var s, r := Seg(image, j), LoadFirst(mem, base, image, n);
            && (s.filesz > 0 ==> r[s.paddr..s.paddr + s.filesz] == image[s.offset..s.offset + s.filesz])
            && (s.memsz > s.filesz ==> r[s.paddr + s.filesz..s.paddr + s.memsz] == Zeros(s.memsz - s.filesz))
  {
    hide Seg, LoadFirst;
    OneSegmentInPlace(mem, base, image, n, j, Seg(image, j));
    ContentParts(image, Seg(image, j), LoadFirst(mem, base, image, n));
  }

  lemma ContentParts(image: seq<Byte>, s: Segment, r: seq<Byte>)
    requires s.filesz > 0 ==> s.offset + s.filesz <= |image|
    requires s.paddr + Extent(s) <= |r| && r[s.paddr..s.paddr + Extent(s)] == Content(image, s)
    ensures s.filesz > 0 ==> r[s.paddr..s.paddr + s.filesz] == image[s.offset..s.offset + s.filesz]
    ensures s.memsz > s.filesz ==> r[s.paddr + s.filesz..s.paddr + s.memsz] == Zeros(s.memsz - s.filesz)
  {
    hide Content;
    var n, c := Extent(s), Content(image, s);
    SliceOfSlice(r, s.paddr, s.paddr + n, 0, s.filesz);
    SliceOfSlice(r, s.paddr, s.paddr + n, s.filesz, n);
    if s.filesz > 0 { assert c[0..s.filesz] == image[s.offset..s.offset + s.filesz]; }
    assert c[s.filesz..n] == Zeros(n - s.filesz);
  }

  /** The image itself survives the load. */
  lemma {:induction false} ImageSurvives(mem: seq<Byte>, base: nat, image: seq<Byte>, n: nat)
    requires |image| >= EHDR && forall i :: 0 <= i < n ==> Suits(image, base, |mem|, Seg(image, i))
    requires base + |image| <= |mem|
    ensures LoadFirst(mem, base, image, n)[base..base + |image|] == mem[base..base + |image|]
  {
    hide Seg, LoadFirst;
    forall k | base <= k < base + |image| ensures LoadFirst(mem, base, image, n)[k] == mem[k] {
      UncoveredStays(mem, base, image, n, k);
    }
  }

  // ---------------------------------------------------------------------
  // The same for a program given as a record of its headers.
  // ---------------------------------------------------------------------

  /** Elf32_Ehdr. */
  datatype Ehdr = Ehdr(ident: seq<Byte>, kind: nat, machine: nat, version: nat, entry: nat, phoff: nat, shoff: nat, flags: nat,
                       ehsize: nat, phentsize: nat, phnum: nat, shentsize: nat, shnum: nat, shstrndx: nat) {
    predicate Valid() {
      && |ident| == 16 && kind < TWO16 && machine < TWO16 && version < TWO32 && entry < TWO32 && phoff < TWO32
      && shoff < TWO32 && flags < TWO32 && ehsize < TWO16 && phentsize < TWO16 && phnum < TWO16 && shentsize < TWO16
      && shnum < TWO16 && shstrndx < TWO16
    }

    function Bytes(): (b: seq<Byte>)
      requires Valid()
      ensures |b| == 52
    {
      ident + (LE16(kind) + LE16(machine) + LE32(version)) + (LE32(entry) + LE32(phoff) + LE32(shoff) + LE32(flags))
      + (LE16(ehsize) + LE16(phentsize) + LE16(phnum) + LE16(shentsize) + LE16(shnum) + LE16(shstrndx))
    }
  }

  /** Elf32_Phdr. */
  datatype Phdr = Phdr(kind: nat, offset: nat, vaddr: nat, paddr: nat, filesz: nat, memsz: nat, flags: nat, align: nat) {
    predicate Valid() {
      && kind < TWO32 && offset < TWO32 && vaddr < TWO32 && paddr < TWO32 && filesz < TWO32 && memsz < TWO32 && flags < TWO32
      && align < TWO32
    }

    /** The end of the memory it occupies. */
    function End(): nat { paddr + if memsz > filesz then memsz else filesz }

    function Bytes(): (b: seq<Byte>)
      requires Valid()
      ensures |b| == 32
    {
      (LE32(kind) + LE32(offset) + LE32(vaddr) + LE32(paddr)) + (LE32(filesz) + LE32(memsz) + LE32(flags) + LE32(align))
    }
  }

  lemma EhdrParts(h: Ehdr)
    requires h.Valid()
    ensures var b := h.Bytes();
            && b[0..16] == h.ident && b[16..18] == LE16(h.kind) && b[18..20] == LE16(h.machine)
            && b[24..28] == LE32(h.entry) && b[28..32] == LE32(h.phoff) && b[42..44] == LE16(h.phentsize) && b[44..46] == LE16(h.phnum)
  {
    hide LE16, LE32;
  }

  lemma FieldOf(image: seq<Byte>, b: seq<Byte>, p: nat, lo: nat, hi: nat)
    requires p + |b| <= |image| && image[p..p + |b|] == b && lo <= hi <= |b|
    ensures image[p + lo..p + hi] == b[lo..hi]
  {
    SliceOfSlice(image, p, p + |b|, lo, hi);
  }

  /** The loader reads the fields of the header as they were laid down. */
  lemma HeaderReadsBack(image: seq<Byte>, h: Ehdr)
    requires h.Valid() && |image| >= 52 && image[0..52] == h.Bytes()
    ensures IsExecutable(image) <==>
              && h.ident[..6] == [0x7F, 0x45, 0x4C, 0x46, 0x01, 0x01] && h.kind == 2 && h.machine == 3
              && h.phoff != 0 && h.phnum != 0
    ensures Entry(image) == h.entry && HeaderCount(image) == h.phnum
    ensures forall i: nat :: HeaderAt(image, i) == (h.phoff + i * h.phentsize) % 0x1_0000_0000
  {
    EhdrParts(h);
    var b := h.Bytes();
    hide Ehdr.Bytes, Get16, Get32, LE16, LE32;
    FieldOf(image, b, 0, 0, 16);
    FieldOf(image, b, 0, 16, 18);
    FieldOf(image, b, 0, 18, 20);
    FieldOf(image, b, 0, 24, 28);
    FieldOf(image, b, 0, 28, 32);
    FieldOf(image, b, 0, 42, 44);
    FieldOf(image, b, 0, 44, 46);
    Slice16(image, 16, h.kind);
    Slice16(image, 18, h.machine);
    Slice32(image, 24, h.entry);
    Slice32(image, 28, h.phoff);
    Slice16(image, 42, h.phentsize);
    Slice16(image, 44, h.phnum);
    assert image[..6] == image[0..16][..6];
  }

  lemma PhdrParts(ph: Phdr)
    requires ph.Valid()
    ensures var b := ph.Bytes();
            && b[0..4] == LE32(ph.kind) && b[4..8] == LE32(ph.offset) && b[12..16] == LE32(ph.paddr)
            && b[16..20] == LE32(ph.filesz) && b[20..24] == LE32(ph.memsz)
  {
    hide LE32;
  }

  /** So are the fields of a program header. */
  lemma SegmentReadsBack(image: seq<Byte>, p: nat, ph: Phdr)
    requires ph.Valid() && p + 32 <= |image| && image[p..p + 32] == ph.Bytes()
    ensures SegmentIn(image, p) == Segment(ph.kind, ph.offset, ph.paddr, ph.filesz, ph.memsz)
  {
    PhdrParts(ph);
    var b := ph.Bytes();
    hide Phdr.Bytes, Get32, LE32;
    FieldOf(image, b, p, 0, 4);
    FieldOf(image, b, p, 4, 8);
    FieldOf(image, b, p, 12, 16);
    FieldOf(image, b, p, 16, 20);
    FieldOf(image, b, p, 20, 24);
    Slice32(image, p, ph.kind);
    Slice32(image, p + 4, ph.offset);
    Slice32(image, p + 12, ph.paddr);
    Slice32(image, p + 16, ph.filesz);
    Slice32(image, p + 20, ph.memsz);
  }

  /** `image` is a file with this header and these program headers, `h.phentsize` bytes apart. */
  ghost predicate IsFile(image: seq<Byte>, h: Ehdr, phs: seq<Phdr>) {
    && h.Valid() && |image| >= 52 && image[0..52] == h.Bytes() && h.phnum == |phs|
    && forall i :: 0 <= i < |phs| ==>
         var p := (h.phoff + i * h.phentsize) % 0x1_0000_0000;
         phs[i].Valid() && p + 32 <= |image| && image[p..p + 32] == phs[i].Bytes()
  }

  lemma SegIsPhdr(image: seq<Byte>, h: Ehdr, phs: seq<Phdr>, i: nat)
    requires IsFile(image, h, phs) && i < |phs|
    ensures Seg(image, i) == Segment(phs[i].kind, phs[i].offset, phs[i].paddr, phs[i].filesz, phs[i].memsz)
    ensures HeaderAt(image, i) + 32 <= |image|
  {
    HeaderReadsBack(image, h);
    hide Ehdr.Bytes, Phdr.Bytes, SegmentIn, HeaderAt;
    var p := (h.phoff + i * h.phentsize) % 0x1_0000_0000;
    assert HeaderAt(image, i) == p && phs[i].Valid() && image[p..p + 32] == phs[i].Bytes();
    SegmentReadsBack(image, p, phs[i]);
  }

  /**
   * The file is loaded whole exactly if the file part of every program header
   * of type 1 ends inside the image, in 32-bit arithmetic.
   */
  lemma {:induction false} LoadsWholeIff(image: seq<Byte>, h: Ehdr, phs: seq<Phdr>)
    requires IsFile(image, h, phs)
    ensures FirstBad(image, 0) == |phs| <==>
            forall i :: 0 <= i < |phs| && phs[i].kind == 1 && phs[i].filesz > 0 ==>
              (phs[i].offset + phs[i].filesz) % 0x1_0000_0000 <= |image|
  {
    FileFacts(image, h, phs);
    hide IsFile, FirstBad, Checked, HeaderCount;
    var k := FirstBad(image, 0);
    forall i | 0 <= i < |phs|
      ensures Checked(image, i) <==>
              (phs[i].kind == 1 && phs[i].filesz > 0 ==> (phs[i].offset + phs[i].filesz) % 0x1_0000_0000 <= |image|)
    {
      CheckedPhdr(image, h, phs, i);
    }
    if k < |phs| { assert !Checked(image, k); } else { assert forall i :: 0 <= i < |phs| ==> Checked(image, i); }
  }

  lemma FileFacts(image: seq<Byte>, h: Ehdr, phs: seq<Phdr>)
    requires IsFile(image, h, phs)
    ensures |image| >= 52 && HeaderCount(image) == |phs|
  {
    HeaderReadsBack(image, h);
  }

  lemma CheckedPhdr(image: seq<Byte>, h: Ehdr, phs: seq<Phdr>, i: nat)
    requires IsFile(image, h, phs) && i < |phs|
    ensures |image| >= 52
    ensures Checked(image, i) <==>
            (phs[i].kind == 1 && phs[i].filesz > 0 ==> (phs[i].offset + phs[i].filesz) % 0x1_0000_0000 <= |image|)
  {
    hide IsFile, Seg, HeaderAt, HeaderCount;
    FileFacts(image, h, phs);
    SegIsPhdr(image, h, phs, i);
  }

  lemma ApartPhdrs(image: seq<Byte>, h: Ehdr, phs: seq<Phdr>, a: nat, b: nat)
    requires IsFile(image, h, phs) && a < |phs| && b < |phs|
    requires phs[a].kind == phs[b].kind == 1 ==> phs[a].End() <= phs[b].paddr || phs[b].End() <= phs[a].paddr
    ensures |image| >= 52 && Apart(Seg(image, a), Seg(image, b))
  {
    FileFacts(image, h, phs);
    hide IsFile, Seg, HeaderCount;
    SegIsPhdr(image, h, phs, a);
    SegIsPhdr(image, h, phs, b);
  }

  lemma InPlaceInBytes(image: seq<Byte>, base: nat, r: seq<Byte>, s: Segment)
    requires s.kind == 1 && Suits(image, base, |r|, s)
    requires s.filesz > 0 ==> r[s.paddr..s.paddr + s.filesz] == image[s.offset..s.offset + s.filesz]
    requires s.memsz > s.filesz ==> r[s.paddr + s.filesz..s.paddr + s.memsz] == Zeros(s.memsz - s.filesz)
    ensures s.filesz > 0 ==> s.offset + s.filesz <= |image| && s.paddr + s.filesz <= |r|
    ensures s.memsz > s.filesz ==>
              s.paddr + s.memsz <= |r| && forall k :: s.paddr + s.filesz <= k < s.paddr + s.memsz ==> r[k] == 0
  {
    if s.memsz > s.filesz {
      forall k | s.paddr + s.filesz <= k < s.paddr + s.memsz ensures r[k] == 0 {
        assert r[s.paddr + s.filesz..s.paddr + s.memsz][k - s.paddr - s.filesz] == r[k];
      }
    }
  }

  /** After the load, every program header of type 1 has its bytes at p_paddr and zeros behind them up to p_memsz. */
  lemma {:induction false} ProgramInMemory(mem: seq<Byte>, base: nat, image: seq<Byte>, h: Ehdr, phs: seq<Phdr>, j: nat)
    requires IsFile(image, h, phs) && forall i :: 0 <= i < |phs| ==> Suits(image, base, |mem|, Seg(image, i))
    requires forall a, b :: 0 <= a < b < |phs| && phs[a].kind == phs[b].kind == 1 ==>
               phs[a].End() <= phs[b].paddr || phs[b].End() <= phs[a].paddr
    requires j < |phs| && phs[j].kind == 1
    ensures var ph, r := phs[j], LoadFirst(mem, base, image, |phs|);
            && (ph.filesz > 0 ==>
                  && ph.offset + ph.filesz <= |image| && ph.paddr + ph.filesz <= |r|
                  && r[ph.paddr..ph.paddr + ph.filesz] == image[ph.offset..ph.offset + ph.filesz])
            && (ph.memsz > ph.filesz ==>
                  ph.paddr + ph.memsz <= |r|
                  && forall k :: ph.paddr + ph.filesz <= k < ph.paddr + ph.memsz ==> r[k] == 0)
  {
    hide IsFile, Seg, LoadFirst, Suits, Apart;
    FileFacts(image, h, phs);
    SegIsPhdr(image, h, phs, j);
    forall a, b | 0 <= a < b < |phs| ensures Apart(Seg(image, a), Seg(image, b)) {
      ApartPhdrs(image, h, phs, a, b);
    }
    SegmentsInPlace(mem, base, image, |phs|, j);
    InPlaceInBytes(image, base, LoadFirst(mem, base, image, |phs|), Seg(image, j));
  }

  /** Memory changes only where a program header of type 1 points. */
  lemma {:induction false} ElsewhereInMemory(mem: seq<Byte>, base: nat, image: seq<Byte>, h: Ehdr, phs: seq<Phdr>, x: nat)
    requires IsFile(image, h, phs) && forall i :: 0 <= i < |phs| ==> Suits(image, base, |mem|, Seg(image, i))
    requires x < |mem|
    requires forall i :: 0 <= i < |phs| && phs[i].kind == 1 ==>
               x < phs[i].paddr || (x >= phs[i].paddr + phs[i].filesz && x >= phs[i].paddr + phs[i].memsz)
    ensures LoadFirst(mem, base, image, |phs|)[x] == mem[x]
  {
    FileFacts(image, h, phs);
    hide IsFile, Seg, LoadFirst, Suits, HeaderCount;
    forall i | 0 <= i < |phs| ensures !Covers(Seg(image, i), x) {
      SegIsPhdr(image, h, phs, i);
    }
    UncoveredStays(mem, base, image, |phs|, x);
  }
}
