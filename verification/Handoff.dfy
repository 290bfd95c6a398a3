/**
 * The boot hand-off: the VBR looks for IO.SYS sector by sector, and the first
 * sector of IO.SYS loads the rest of itself.
 */
module Handoff {
  import opened Bytes
  import opened Names83
  import opened Layout
  import opened BootSectors
  import opened MkDisk
  import opened Volumes
  import opened FatReader
  import opened RoundTrip
  import opened Pipeline
  import opened StringOps

  const GEMI := 0x696D6567        // "gemi"
  const LOAD_AT := 0x10000
  const CHUNK := 64 * 512
  const CHUNKS := 12

  /** "gemi" behind the jump, and the boot signature at the end. */
  predicate LooksLikeIoSys(s: Sector) {
    s[3..7] == [103, 101, 109, 105] && s[510..512] == [0x55, 0xAA]
  }

  /** The two comparisons of the VBR see these bytes and no others. */
  lemma ComparesBytes(s: Sector)
    ensures Get16(s, 510) == 0xAA55 && Get32(s, 3) == GEMI <==> s[3..7] == [103, 101, 109, 105] && s[510..512] == [0x55, 0xAA]
  {
    var t := s[3..7];
    assert t[0] == s[3] && t[1] == s[4] && t[2] == s[5] && t[3] == s[6];
    assert s[510..512][0] == s[510] && s[510..512][1] == s[511];
    WordBytes(s, 3);
    assert Get16(s, 510) == 0xAA55 ==> s[511] as int == 0xAA && s[510] as int == 0x55;
  }

  function SectorOf(img: seq<Byte>, lba: nat): (s: Sector)
    requires lba * 512 + 512 <= |img|
  {
    img[lba * 512..lba * 512 + 512]
  }

  /** read_io_sys_loop: the LBA of the first sector that looks like IO.SYS; None when a read fails first. */
  method ScanForIoSys(img: seq<Byte>, partLba: nat) returns (iosysLba: Option<nat>)
    ensures iosysLba.Some? ==>
              && partLba + 2 <= iosysLba.value && iosysLba.value * 512 + 512 <= |img|
              && img[iosysLba.value * 512 + 3..iosysLba.value * 512 + 7] == [103, 101, 109, 105]
              && img[iosysLba.value * 512 + 510..iosysLba.value * 512 + 512] == [0x55, 0xAA]
              && forall l :: partLba + 2 <= l < iosysLba.value ==> !LooksLikeIoSys(SectorOf(img, l))
    ensures iosysLba.None? ==> forall l :: partLba + 2 <= l && l * 512 + 512 <= |img| ==> !LooksLikeIoSys(SectorOf(img, l))
  {
    var lba := partLba + 2;
    while lba * 512 + 512 <= |img|
      invariant lba >= partLba + 2
      invariant forall l :: partLba + 2 <= l < lba && l * 512 + 512 <= |img| ==> !LooksLikeIoSys(SectorOf(img, l))
      decreases |img| - lba * 512
    {
      var buf := SectorOf(img, lba);
      ComparesBytes(buf);
      if Get16(buf, 510) == 0xAA55 && Get32(buf, 3) == GEMI {
        SectorBytes(img, lba);
        return Some(lba);
      }
      lba := lba + 1;
    }
    return None;
  }

  lemma SectorBytes(img: seq<Byte>, lba: nat)
    requires lba * 512 + 512 <= |img|
    ensures SectorOf(img, lba)[3..7] == img[lba * 512 + 3..lba * 512 + 7]
    ensures SectorOf(img, lba)[510..512] == img[lba * 512 + 510..lba * 512 + 512]
  {
    SliceOfSlice(img, lba * 512, lba * 512 + 512, 3, 7);
    SliceOfSlice(img, lba * 512, lba * 512 + 512, 510, 512);
  }

  /** The two bytes that tell every other sector of the partition apart from IO.SYS. */
  lemma TellsApart(s: Sector)
    requires s[3] != 0x67 || s[511] != 0xAA
    ensures !LooksLikeIoSys(s)
  {
    assert s[3..7][0] == s[3] && s[510..512][1] == s[511];
  }

  // ---------------------------------------------------------------------
  // What lies in front of IO.SYS.
  // ---------------------------------------------------------------------

  predicate SmallEntries(fat: seq<nat>) {
    forall c :: 0 <= c < |fat| ==> fat[c] < TWO28
  }

  /** FAT entries are masked to 28 bits, over any run. */
  lemma {:induction false} EntriesStaySmall(v: Volume, ops: seq<Op>)
    requires WellSized(v) && Legal(ops, |v.clus|) && |v.clus| + 2 < TWO28 && SmallEntries(v.fat1)
    ensures SmallEntries(Run(v, ops).fat1)
  {
    if ops != [] {
      EntriesStaySmall(v, ops[..|ops| - 1]);
      LastStep(v, ops);
      hide Run;
    }
  }

  /** The last byte of a FAT sector is the top byte of a masked entry, never the 0xAA of a boot signature. */
  lemma FatSectorsDiffer(img: seq<Byte>, g: Geometry, lba: nat)
    requires g.Valid() && |img| == g.Bytes() && 2080 <= lba < g.DataStart()
    requires SmallEntries(View(img, g).fat1) && View(img, g).fat2 == View(img, g).fat1
    ensures lba * 512 + 512 <= |img| && !LooksLikeIoSys(SectorOf(img, lba))
  {
    hide View, LooksLikeIoSys, SectorOf;
    RegionsInOrder(g);
    LastEntry(img, g, lba);
    TopByte(img, lba * 512 + 508);
    SectorByte(img, lba, 511);
    TellsApart(SectorOf(img, lba));
  }

  lemma SectorByte(img: seq<Byte>, lba: nat, k: nat)
    requires lba * 512 + 512 <= |img| && k < 512
    ensures SectorOf(img, lba)[k] == img[lba * 512 + k]
  {
  }

  /** The last word of a FAT sector is an entry of one of the FATs. */
  lemma LastEntry(img: seq<Byte>, g: Geometry, lba: nat)
    requires g.Valid() && |img| == g.Bytes() && 2080 <= lba < g.DataStart()
    requires SmallEntries(View(img, g).fat1) && View(img, g).fat2 == View(img, g).fat1
    ensures lba * 512 + 512 <= |img| && Get32(img, lba * 512 + 508) < TWO28
  {
    hide View, Get32;
    RegionsInOrder(g);
    var c, f := (lba - 2080) * 128 + 127, g.FatSize() * 128;
    if c < f {
      assert g.Fat1At() + 4 * c == lba * 512 + 508;
      FatWord(img, g, c);
    } else {
      assert g.Fat2At() + 4 * (c - f) == lba * 512 + 508;
      Fat2Word(img, g, c - f);
    }
  }

  lemma TopByte(s: seq<Byte>, o: nat)
    requires o + 4 <= |s| && Get32(s, o) < TWO28
    ensures s[o + 3] < 16
  {
  }

  /** Without room for the raw copy, the reserved sectors are zero but for two backups, which differ in byte 3. */
  lemma ReservedSectorsDiffer(vbr: seq<Byte>, g: Geometry, io: seq<Byte>, k: nat)
    requires g.Valid() && !RawCopyFits(|io|) && 2 <= k < 32
    ensures ReservedArea(vbr, g, io)[512 * k + 3] != 0x67
  {
    hide BootSector, FsInfo;
    var b, i := BootSector(vbr, g), FsInfo();
    BootSectorFields(vbr, g);
    FsInfoByte3();
    var area := Head(b, i, b, i);
    assert b[3] == b[3..11][0] == GEMIBOOT[0];
    if k == 6 {
      assert area[6 * 512..7 * 512][3] == area[6 * 512 + 3];
    } else if k == 7 {
      assert area[7 * 512..8 * 512][3] == area[7 * 512 + 3];
    } else {
      HeadZeros(b, i, b, i, 512 * k + 3);
    }
  }

  lemma HeadZeros(a: seq<Byte>, b: seq<Byte>, c: seq<Byte>, d: seq<Byte>, i: nat)
    requires |a| == |b| == |c| == |d| == 512 && (2 * 512 <= i < 6 * 512 || 8 * 512 <= i < 32 * 512)
    ensures Head(a, b, c, d)[i] == 0
  {
  }

  lemma FsInfoByte3()
    ensures FsInfo()[3] == 0x41
  {
    hide Assign;
    FsInfoInOrder();
    AssignedField(Zeros(512), FsInfoFields(), 0, 0);
    assert FsInfo()[0..4] == LE32(0x41615252);
    assert FsInfo()[3] == FsInfo()[0..4][3];
  }

  /** The four sectors of the root directory: the first entry is IO.SYS, whose fourth character is a blank. */
  lemma {:induction false} RootSectorsDiffer(ops: seq<Op>, s: nat)
    requires |ops| <= 16 && |ops| > 0 && ops[0].parent == ROOT_CLUS && ops[0].name == IO_SYS && s < 4
    ensures Render(SlotsOf(ops, ROOT_CLUS))[512 * s + 3] != 0x67
  {
    hide Render, BuilderName, EntriesOf, Leftover, EntryImage;
    var es := SlotsOf(ops, ROOT_CLUS);
    RootCount(ops);
    IoSysFirst(ops);
    IoSysName();
    RenderedByte(es, 16 * s, 3);
    assert 32 * (16 * s) + 3 == 512 * s + 3;
    if s == 0 { NameByte(es[0], 3); }
  }

  lemma NameByte(e: Entry, k: nat)
    requires |e.name| == 11 && k < 11
    ensures EntryImage(e)[k] == e.name[k]
  {
  }

  lemma {:induction false} IoSysFirst(ops: seq<Op>)
    requires |ops| > 0 && ops[0].parent == ROOT_CLUS && ops[0].name == IO_SYS
    ensures SlotsOf(ops, ROOT_CLUS) != [] && SlotsOf(ops, ROOT_CLUS)[0].name == BuilderName(IO_SYS)
  {
    FirstByte(IO_SYS);
    hide BuilderName;
    EntriesPrefix(ops, 1, ROOT_CLUS);
    var one := ops[..1];
    assert one[..0] == [] && one[0] == ops[0] && !LooksDeleted(IO_SYS);
    assert EntriesOf(one, ROOT_CLUS) == [EntryOf(ops[0], 3)];
    assert EntriesOf(ops, ROOT_CLUS)[0] == EntryOf(ops[0], 3);
  }

  lemma IoSysName()
    ensures BuilderName(IO_SYS)[3] == SPACE
  {
    SplitAtFirstDot(IO_SYS, 2);
  }

  lemma {:induction false} RootCount(ops: seq<Op>)
    ensures |SlotsOf(ops, ROOT_CLUS)| <= |ops|
  {
    hide LooksDeleted, EntryOf, DotEntries;
    if ops != [] { RootCount(ops[..|ops| - 1]); }
  }

  // ---------------------------------------------------------------------
  // Where IO.SYS is found.
  // ---------------------------------------------------------------------

  /** A file the VBR accepts: it opens with a sector that carries the identifier and the signature. */
  predicate Bootable(io: seq<Byte>) {
    |io| >= 512 && LooksLikeIoSys(io[..512])
  }

  lemma BootableInBytes(io: seq<Byte>)
    ensures Bootable(io) <==> |io| >= 512 && io[3..7] == [103, 101, 109, 105] && io[510..512] == [0x55, 0xAA]
  {
    if |io| >= 512 {
      assert io[..512][3..7] == io[3..7] && io[..512][510..512] == io[510..512];
    }
  }

  /** The reserved area when the copy fits, otherwise cluster 3: IO.SYS is the first file in the data area. */
  function IoSysLba(g: Geometry, io: seq<Byte>): nat
    requires g.Valid()
  {
    if RawCopyFits(|io|) then PARTITION_START_LBA + 2 else g.DataStart() + 4
  }

  lemma PlaceInNumbers(g: Geometry, io: seq<Byte>)
    requires g.Valid()
    ensures IoSysLba(g, io) == if |io| <= 14848 then 2050 else 2084 + 2 * g.FatSize()
  {
  }

  /** The sectors from `lba` on hold `data`. */
  predicate Holds512(img: seq<Byte>, lba: nat, data: seq<Byte>) {
    lba * 512 + |data| <= |img| && img[lba * 512..lba * 512 + |data|] == data
  }

  lemma ReservedByte(img: seq<Byte>, g: Geometry, area: seq<Byte>, i: nat)
    requires g.Valid() && |img| == g.Bytes() && |area| == 32 * 512 && i < 32 * 512
    requires View(img, g).reserved[2048 * 512..2080 * 512] == area
    ensures img[2048 * 512 + i] == area[i]
  {
    RegionsInOrder(g);
    assert View(img, g).reserved[2048 * 512 + i] == View(img, g).reserved[2048 * 512..2080 * 512][i];
  }

  /** The raw copy lies right behind the boot sector and FSInfo. */
  lemma RawCopyPlaced(img: seq<Byte>, g: Geometry, vbr: seq<Byte>, io: seq<Byte>)
    requires g.Valid() && |img| == g.Bytes() && RawCopyFits(|io|)
    requires View(img, g).reserved[2048 * 512..2080 * 512] == ReservedArea(vbr, g, io)
    ensures Holds512(img, PARTITION_START_LBA + 2, io)
  {
    hide View, Head, BootSector, FsInfo;
    RegionsInOrder(g);
    var area := ReservedArea(vbr, g, io);
    assert |io| <= 29 * 512;
    forall i | 0 <= i < |io| ensures img[2050 * 512 + i] == io[i] {
      ReservedByte(img, g, area, 1024 + i);
      assert area[1024 + i] == io[i];
    }
    assert img[2050 * 512..2050 * 512 + |io|] == io;
  }

  /** Clusters are handed out in order, so a file's sectors are consecutive. */
  lemma FileIsContiguous(img: seq<Byte>, g: Geometry, first: nat, data: seq<Byte>)
    requires g.Valid() && |img| == g.Bytes() && FileStored(View(img, g), first, data)
    ensures Holds512(img, g.DataStart() + (first - 2) * 4, data)
  {
    hide View;
    RegionsInOrder(g);
    var at := g.DataAt() + 2048 * (first - 2);
    assert (g.DataStart() + (first - 2) * 4) * 512 == at;
    assert at + |data| <= |img|;
    forall i | 0 <= i < |data| ensures img[at + i] == data[i] {
      FileByte(img, g, first, data, i);
    }
    assert img[at..at + |data|] == data;
  }

  lemma FileByte(img: seq<Byte>, g: Geometry, first: nat, data: seq<Byte>, i: nat)
    requires g.Valid() && |img| == g.Bytes() && FileStored(View(img, g), first, data) && i < |data|
    ensures g.DataAt() + 2048 * (first - 2) + i < |img|
    ensures img[g.DataAt() + 2048 * (first - 2) + i] == data[i]
  {
    hide View;
    RegionsInOrder(g);
    var k, r := i / 2048, i % 2048;
    assert View(img, g).clus[first - 2 + k] == Block(data, k);
    ClusterSlice(img, g, first + k);
    var at := g.DataAt() + 2048 * (first + k - 2);
    assert img[at..at + 2048][r] == img[at + r];
  }

  /** What the run of main leaves, as far as the scan is concerned. */
  lemma MainLayout(img: seq<Byte>, g: Geometry, f: Files)
    requires BuiltFrom(img, g, f)
    ensures View(img, g).reserved[2048 * 512..2080 * 512] == ReservedArea(f.vbr, g, f.io)
    ensures SmallEntries(View(img, g).fat1) && View(img, g).fat1 == View(img, g).fat2
    ensures View(img, g).clus[0] == Render(SlotsOf(MainOps(f), ROOT_CLUS))
    ensures FileStored(View(img, g), 3, f.io)
  {
    var v, ops := Blank(f, g), MainOps(f);
    hide View, Run, MainOps, Blank, ReservedArea, Legal, Fits, Fresh, Chained, SlotsOf, Render, FileStored, SmallEntries, Listed;
    BlankIsFresh(f, g);
    MainShape(f);
    BlankIsSmall(f, g);
    RegionsInOrder(g);
    RunInvariant(v, ops);
    EntriesStaySmall(v, ops);
    RootListed(Run(v, ops), ops);
    FirstFile(Run(v, ops), ops);
    SameFats(Run(v, ops), ops);
  }

  lemma {:induction false} SameFats(v: Volume, ops: seq<Op>)
    requires WellSized(v) && NextAfter(ops) <= |v.clus| + 2 && Chained(v, ops)
    ensures v.fat1 == v.fat2
  {
  }

  lemma {:induction false} FirstFile(v: Volume, ops: seq<Op>)
    requires WellSized(v) && |ops| > 0 && ops[0].FileOp? && Stored(v, ops)
    ensures FileStored(v, 3, ops[0].data)
  {
    hide FileStored;
    assert ops[..0] == [] && FirstOf(ops, 0) == 3;
  }

  lemma BlankIsSmall(f: Files, g: Geometry)
    requires g.Valid()
    ensures SmallEntries(Blank(f, g).fat1)
  {
    hide View, ReservedArea;
    RegionsInOrder(g);
    ZeroView(g);
  }

  /** No sector between the boot sector and IO.SYS passes for IO.SYS. */
  lemma NothingInFront(img: seq<Byte>, g: Geometry, f: Files, lba: nat)
    requires BuiltFrom(img, g, f) && PARTITION_START_LBA + 2 <= lba < IoSysLba(g, f.io)
    ensures lba * 512 + 512 <= |img| && !LooksLikeIoSys(SectorOf(img, lba))
  {
    hide View, Run, MainOps, Blank, ReservedArea, Legal, Fits, Render, SlotsOf, FileStored, LooksLikeIoSys, SmallEntries;
    RegionsInOrder(g);
    MainLayout(img, g, f);
    if lba < 2080 {
      var k := lba - 2048;
      ReservedSectorsDiffer(f.vbr, g, f.io, k);
      ReservedByte(img, g, ReservedArea(f.vbr, g, f.io), 512 * k + 3);
      assert SectorOf(img, lba)[3] == img[2048 * 512 + (512 * k + 3)];
      TellsApart(SectorOf(img, lba));
    } else if lba < g.DataStart() {
      FatSectorsDiffer(img, g, lba);
    } else {
      RootSectorInFront(img, g, f, lba - g.DataStart());
    }
  }

  lemma RootSectorInFront(img: seq<Byte>, g: Geometry, f: Files, s: nat)
    requires g.Valid() && |img| == g.Bytes() && s < 4
    requires View(img, g).clus[0] == Render(SlotsOf(MainOps(f), ROOT_CLUS))
    ensures (g.DataStart() + s) * 512 + 512 <= |img| && !LooksLikeIoSys(SectorOf(img, g.DataStart() + s))
  {
    MainShape(f);
    hide View, MainOps, Render, SlotsOf, LooksLikeIoSys;
    RegionsInOrder(g);
    RootSectorsDiffer(MainOps(f), s);
    ClusterSlice(img, g, 2);
    var at := g.DataAt() + 2048 * (2 - 2);
    assert img[at..at + 2048][512 * s + 3] == img[at + 512 * s + 3];
    assert SectorOf(img, g.DataStart() + s)[3] == img[at + 512 * s + 3];
    TellsApart(SectorOf(img, g.DataStart() + s));
  }

  /** At the chosen place the image holds IO.SYS in consecutive sectors. */
  lemma IoSysPlaced(img: seq<Byte>, g: Geometry, f: Files)
    requires BuiltFrom(img, g, f)
    ensures Holds512(img, IoSysLba(g, f.io), f.io)
  {
    hide View, Run, MainOps, Blank, ReservedArea, Legal, Fits, Render, SlotsOf, FileStored, SmallEntries;
    MainLayout(img, g, f);
    if RawCopyFits(|f.io|) {
      RawCopyPlaced(img, g, f.vbr, f.io);
    } else {
      FileIsContiguous(img, g, 3, f.io);
    }
  }

  /**
   * On every image that main builds from a bootable IO.SYS the scan ends at
   * the first of consecutive sectors that hold IO.SYS, whether or not the copy
   * in the reserved sectors fitted.
   */
  method BootScan(sectors: nat, f: Files) returns (b: ImageBuilder, iosysLba: nat)
    requires Geometry(sectors).Valid() && Fits(f, Geometry(sectors))
    requires |f.io| >= 512 && f.io[3..7] == [103, 101, 109, 105] && f.io[510..512] == [0x55, 0xAA]
    ensures b.Valid() && b.total == sectors && b.disk.Length == 512 * sectors
    ensures iosysLba == if |f.io| <= 14848 then 2050 else 2084 + 2 * Geometry(sectors).FatSize()
    ensures iosysLba * 512 + |f.io| <= b.disk.Length && b.disk[iosysLba * 512..iosysLba * 512 + |f.io|] == f.io
  {
    hide ImageBuilder.Vol, View, BuiltFrom, Fits, IoSysLba, Bootable, LooksLikeIoSys, SectorOf, Run, MainOps, Blank, Legal;
    b := BuildImage(sectors, f);
    var img := b.disk[..];
    VolIsView(b);
    var r := ScanForIoSys(img, PARTITION_START_LBA);
    BootableInBytes(f.io);
    PlaceInNumbers(Geometry(sectors), f.io);
    ScanResult(img, Geometry(sectors), f, r);
    iosysLba := r.value;
  }

  /** What the scan's contract leaves as its only result. */
  lemma ScanResult(img: seq<Byte>, g: Geometry, f: Files, r: Option<nat>)
    requires BuiltFrom(img, g, f) && Bootable(f.io)
    requires r.Some? ==>
               && 2050 <= r.value && r.value * 512 + 512 <= |img|
               && img[r.value * 512 + 3..r.value * 512 + 7] == [103, 101, 109, 105]
               && img[r.value * 512 + 510..r.value * 512 + 512] == [0x55, 0xAA]
               && forall l :: 2050 <= l < r.value ==> !LooksLikeIoSys(SectorOf(img, l))
    requires r.None? ==> forall l :: 2050 <= l && l * 512 + 512 <= |img| ==> !LooksLikeIoSys(SectorOf(img, l))
    ensures g.Valid() && r == Some(IoSysLba(g, f.io))
    ensures r.value * 512 + |f.io| <= |img| && img[r.value * 512..r.value * 512 + |f.io|] == f.io
  {
    hide View, Run, MainOps, Blank, Legal, Fits, LooksLikeIoSys, IoSysLba, SectorOf, Bootable;
    IoSysPlaced(img, g, f);
    BootSectorFound(img, g, f);
    var l := IoSysLba(g, f.io);
    if r.Some? && r.value < l {
      NothingInFront(img, g, f, r.value);
      Spelled(img, r.value);
    }
  }

  lemma Spelled(img: seq<Byte>, lba: nat)
    requires lba * 512 + 512 <= |img|
    requires img[lba * 512 + 3..lba * 512 + 7] == [103, 101, 109, 105] && img[lba * 512 + 510..lba * 512 + 512] == [0x55, 0xAA]
    ensures LooksLikeIoSys(SectorOf(img, lba))
  {
    SectorBytes(img, lba);
  }

  lemma BootSectorFound(img: seq<Byte>, g: Geometry, f: Files)
    requires BuiltFrom(img, g, f) && Bootable(f.io)
    ensures 2050 <= IoSysLba(g, f.io) && IoSysLba(g, f.io) * 512 + 512 <= |img|
    ensures LooksLikeIoSys(SectorOf(img, IoSysLba(g, f.io)))
  {
    hide View, Run, MainOps, Blank, Legal, Fits, LooksLikeIoSys;
    IoSysPlaced(img, g, f);
    var l := IoSysLba(g, f.io);
    RegionsInOrder(g);
    assert SectorOf(img, l) == f.io[..512] by {
      SliceOfSlice(img, l * 512, l * 512 + |f.io|, 0, 512);
    }
  }

  // ---------------------------------------------------------------------
  // The first sector of IO.SYS loads the rest.
  // ---------------------------------------------------------------------

  /** The variables of io16.S behind its LBA packet, and conventional memory. */
  class FirstStage {
    const mem: array<Byte>
    var packetSegment: nat      // lba_packet_segment; the offset is always 0
    var packetLba: nat          // lba_packet_lba
    var iosysSector: nat
    var iosysCount: nat

    constructor (memory: array<Byte>)
      ensures mem == memory
    {
      mem := memory;
      packetSegment, packetLba, iosysSector, iosysCount := 0, 0, 0, 0;
    }

    /** INT 13h with the packet as it stands: 64 sectors, or a failure that leaves memory alone. */
    method ReadPacket(img: seq<Byte>) returns (ok: bool)
      requires packetSegment * 16 + CHUNK <= mem.Length
      modifies mem
      ensures ok <==> packetLba * 512 + CHUNK <= |img|
      ensures ok ==> mem[..] == Patch(old(mem[..]), packetSegment * 16, img[packetLba * 512..packetLba * 512 + CHUNK])
      ensures !ok ==> mem[..] == old(mem[..])
    {
      ok := packetLba * 512 + CHUNK <= |img|;
      if ok {
        MemCpy(mem, packetSegment * 16, img[packetLba * 512..packetLba * 512 + CHUNK]);
      }
    }

    /**
     * From self_load to load_finished; false where the code halts with '#'.
     * The loop goes back to try_read, behind the instruction that copies
     * iosys_sector into the packet, so only the segment advances.
     */
    method SelfLoad(img: seq<Byte>, ebx: nat) returns (ok: bool)
      requires mem.Length >= 0x1_0000 + 12 * 32768
      modifies this, mem
      ensures ok <==> (ebx + 1) * 512 + 32768 <= |img|
      ensures ok ==> forall i :: 0 <= i < mem.Length ==>
                mem[i] == if 0x1_0000 <= i < 0x1_0000 + 12 * 32768 then img[(ebx + 1) * 512 + (i - 0x1_0000) % 32768] else old(mem[i])
      ensures ok ==> mem[..] == Patch(old(mem[..]), LOAD_AT, Copies(img[(ebx + 1) * 512..(ebx + 1) * 512 + CHUNK], CHUNKS))
      ensures !ok ==> mem[..] == old(mem[..])
      ensures ok ==> packetLba == ebx + 1 && iosysSector == ebx + 1 + 64 * 12
    {
      hide Patch, Copies;
      iosysSector := ebx + 1;
      iosysCount := CHUNKS;
      packetSegment := 0x1000;
      packetLba := iosysSector;
      ghost var was, j: nat := mem[..], 0;
      ghost var chunk := if packetLba * 512 + CHUNK <= |img| then img[packetLba * 512..packetLba * 512 + CHUNK] else Zeros(CHUNK);
      NoCopiesYet(was, chunk);
      while true
        invariant j < CHUNKS && iosysCount == CHUNKS - j
        invariant packetSegment == 0x1000 + 0x800 * j && packetLba == ebx + 1 && iosysSector == ebx + 1 + 64 * j
        invariant j > 0 ==> (ebx + 1) * 512 + CHUNK <= |img|
        invariant mem[..] == Patch(was, LOAD_AT, Copies(chunk, j))
        decreases CHUNKS - j
      {
        AnotherCopy(was, chunk, j);
        ghost var now := mem[..];
        assert packetSegment * 16 == LOAD_AT + j * CHUNK;
        ok := ReadPacket(img);
        if !ok {
          return;
        }
        assert mem[..] == Patch(now, LOAD_AT + j * CHUNK, chunk);
        packetSegment := packetSegment + 512 / 16 * 64;
        iosysSector := iosysSector + 64;
        iosysCount := iosysCount - 1;
        j := j + 1;
        if iosysCount == 0 {
          CopiesPlaced(was, mem[..], chunk);
          return;
        }
      }
    }
  }

  function Copies(chunk: seq<Byte>, n: nat): (r: seq<Byte>)
    requires |chunk| == CHUNK
    ensures |r| == n * CHUNK
  {
    if n == 0 then [] else chunk + Copies(chunk, n - 1)
  }

  lemma {:induction false} CopiesSnoc(chunk: seq<Byte>, n: nat)
    requires |chunk| == CHUNK
    ensures Copies(chunk, n + 1) == Copies(chunk, n) + chunk
  {
    if n > 0 { CopiesSnoc(chunk, n - 1); }
  }

  lemma {:induction false} CopyAt(chunk: seq<Byte>, n: nat, k: nat)
    requires |chunk| == CHUNK && k < n * CHUNK
    ensures Copies(chunk, n)[k] == chunk[k % 32768]
  {
    if k >= CHUNK {
      CopyAt(chunk, n - 1, k - CHUNK);
      assert (k - CHUNK) % 32768 == k % 32768;
    }
  }

  lemma {:induction false} CopiesPlaced(was: seq<Byte>, mem: seq<Byte>, chunk: seq<Byte>)
    requires |chunk| == CHUNK && |was| >= LOAD_AT + CHUNKS * CHUNK && mem == Patch(was, LOAD_AT, Copies(chunk, CHUNKS))
    ensures forall i :: 0 <= i < |mem| ==>
              mem[i] == if 0x1_0000 <= i < 0x1_0000 + 12 * 32768 then chunk[(i - 0x1_0000) % 32768] else was[i]
  {
    forall i | 0 <= i < |mem|
      ensures mem[i] == if 0x1_0000 <= i < 0x1_0000 + 12 * 32768 then chunk[(i - 0x1_0000) % 32768] else was[i]
    {
      if 0x1_0000 <= i < 0x1_0000 + 12 * 32768 { CopyAt(chunk, CHUNKS, i - 0x1_0000); }
    }
  }

  lemma {:induction false} NoCopiesYet(was: seq<Byte>, chunk: seq<Byte>)
    requires |chunk| == CHUNK && |was| >= LOAD_AT
    ensures Patch(was, LOAD_AT, Copies(chunk, 0)) == was
  {
  }

  lemma {:induction false} AnotherCopy(was: seq<Byte>, chunk: seq<Byte>, j: nat)
    requires |chunk| == CHUNK && LOAD_AT + (j + 1) * CHUNK <= |was|
    ensures Patch(Patch(was, LOAD_AT, Copies(chunk, j)), LOAD_AT + j * CHUNK, chunk) == Patch(was, LOAD_AT, Copies(chunk, j + 1))
  {
    hide Copies, Patch;
    CopiesSnoc(chunk, j);
    PatchAppend(was, LOAD_AT, Copies(chunk, j), chunk);
  }

  lemma {:induction false} CopiesPeriod(chunk: seq<Byte>, n: nat, k: nat)
    requires |chunk| == CHUNK && CHUNK <= k < n * CHUNK
    ensures Copies(chunk, n)[k] == Copies(chunk, n)[k - CHUNK]
  {
    CopiesSnoc(chunk, n - 1);
    assert Copies(chunk, n)[k] == Copies(chunk, n - 1)[k - CHUNK];
  }

  /** Memory from 0x10000 on holds everything of IO.SYS behind its first sector. */
  predicate LoadedRight(mem: seq<Byte>, io: seq<Byte>)
    requires |io| >= 512 && |mem| >= 0x1_0000 + (|io| - 512)
  {
    mem[0x1_0000..0x1_0000 + (|io| - 512)] == io[512..]
  }

  /** Behind its first sector the file repeats itself every 32 KB. */
  predicate Repeats(io: seq<Byte>)
    requires |io| >= 512
  {
    forall i :: 512 + 32768 <= i < |io| ==> io[i] == io[i - 32768]
  }

  /** Since the LBA never advances, the load is right exactly for files that repeat their first 32 KB. */
  lemma LoadedRightIff(img: seq<Byte>, lba: nat, io: seq<Byte>, was: seq<Byte>, mem: seq<Byte>)
    requires 512 <= |io| <= 512 + 12 * 32768 && Holds512(img, lba, io) && |mem| == |was| >= 0x1_0000 + 12 * 32768
    requires (lba + 1) * 512 + 32768 <= |img|
    requires mem == Patch(was, LOAD_AT, Copies(img[(lba + 1) * 512..(lba + 1) * 512 + CHUNK], CHUNKS))
    ensures LoadedRight(mem, io) <==> Repeats(io)
  {
    var chunk, n := img[(lba + 1) * 512..(lba + 1) * 512 + CHUNK], |io| - 512;
    var all, got := Copies(chunk, CHUNKS), mem[LOAD_AT..LOAD_AT + n];
    assert got == all[..n];
    forall k | 0 <= k < n && k < CHUNK ensures all[k] == io[512 + k] {
      assert img[lba * 512..lba * 512 + |io|][512 + k] == img[(lba + 1) * 512 + k];
      assert all[k] == chunk[k];
    }
    if LoadedRight(mem, io) {
      forall i | 512 + CHUNK <= i < |io| ensures io[i] == io[i - CHUNK] {
        CopiesPeriod(chunk, CHUNKS, i - 512);
        assert got[i - 512] == io[512..][i - 512] && got[i - CHUNK - 512] == io[512..][i - CHUNK - 512];
      }
    }
    if Repeats(io) {
      forall k | 0 <= k < n ensures got[k] == io[512..][k] { CopiesFollow(chunk, io, k); }
    }
  }

  lemma {:induction false} CopiesFollow(chunk: seq<Byte>, io: seq<Byte>, k: nat)
    requires |chunk| == CHUNK && 512 <= |io| <= 512 + CHUNKS * CHUNK && Repeats(io) && k < |io| - 512
    requires forall k :: 0 <= k < |io| - 512 && k < CHUNK ==> Copies(chunk, CHUNKS)[k] == io[512 + k]
    ensures Copies(chunk, CHUNKS)[k] == io[512 + k]
  {
    if k >= CHUNK {
      CopiesPeriod(chunk, CHUNKS, k);
      CopiesFollow(chunk, io, k - CHUNK);
      var i := 512 + k;
      assert io[i] == io[i - CHUNK];
    }
  }

  /** A bootable first sector. */
  function BootMark(): (s: seq<Byte>)
    ensures |s| == 512 && LooksLikeIoSys(s)
  {
    var s := Patch(Patch(Zeros(512), 3, LE32(GEMI)), 510, LE16(0xAA55));
    assert s[3..7] == LE32(GEMI) && s[510..512] == LE16(0xAA55);
    Slice32(s, 3, GEMI);
    Slice16(s, 510, 0xAA55);
    s
  }

  /** `mem` is what SelfLoad leaves of the memory `was` when IO.SYS lies at `lba` of the image. */
  predicate Loaded(img: seq<Byte>, lba: nat, io: seq<Byte>, was: seq<Byte>, mem: seq<Byte>) {
    && 512 <= |io| <= 512 + 12 * 32768 && Holds512(img, lba, io)
    && |mem| == |was| >= 0x1_0000 + 12 * 32768 && (lba + 1) * 512 + 32768 <= |img|
    && mem == Patch(was, LOAD_AT, Copies(img[(lba + 1) * 512..(lba + 1) * 512 + CHUNK], CHUNKS))
  }

  /**
   * Every bootable IO.SYS of a given size is loaded right, from whatever image
   * into whatever memory, exactly when the size is at most one sector plus one
   * chunk; the source means to allow twelve chunks.
   */
  lemma SizesThatLoad(n: nat)
    requires 512 <= n <= 512 + 12 * 32768
    ensures (forall img, lba, io, was, mem :: |io| == n && Bootable(io) && Loaded(img, lba, io, was, mem) ==> LoadedRight(mem, io))
       <==> n <= 512 + 32768
  {
    hide Bootable, LoadedRight, Repeats, Holds512, Copies, Patch;
    if n <= 512 + CHUNK {
      forall img, lba, io, was, mem | |io| == n && Bootable(io) && Loaded(img, lba, io, was, mem) ensures LoadedRight(mem, io) {
        LoadedIff(img, lba, io, was, mem);
        ShortRepeats(io);
      }
    } else {
      var img, io, was, mem := FailingLoad(n);
      LoadedIff(img, 0, io, was, mem);
    }
  }

  lemma LoadedIff(img: seq<Byte>, lba: nat, io: seq<Byte>, was: seq<Byte>, mem: seq<Byte>)
    requires Loaded(img, lba, io, was, mem)
    ensures |io| >= 512 && |mem| >= LOAD_AT + (|io| - 512) && (LoadedRight(mem, io) <==> Repeats(io))
  {
    hide LoadedRight, Repeats, Copies;
    LoadedRightIff(img, lba, io, was, mem);
  }

  lemma ShortRepeats(io: seq<Byte>)
    requires 512 <= |io| <= 512 + CHUNK
    ensures Repeats(io)
  {
  }

  /** A bootable file, zero behind its first sector but for its last byte, on an image that starts with it. */
  lemma FailingLoad(n: nat) returns (img: seq<Byte>, io: seq<Byte>, was: seq<Byte>, mem: seq<Byte>)
    requires 512 + CHUNK < n <= 512 + CHUNKS * CHUNK
    ensures |io| == n && Bootable(io) && !Repeats(io) && Loaded(img, 0, io, was, mem)
  {
    io := BootMark() + Zeros(n - 513) + [1];
    hide BootMark, Copies, Patch, LooksLikeIoSys, Zeros;
    assert io[..512] == BootMark();
    assert io[n - 1] == 1 && io[n - 1 - CHUNK] == 0;
    img := io;
    was := Zeros(LOAD_AT + CHUNKS * CHUNK);
    mem := Patch(was, LOAD_AT, Copies(img[512..512 + CHUNK], CHUNKS));
    assert img[0..|io|] == io;
  }

  /** Both stages on an image that main built: what is at 0x10000 when the second stage is entered. */
  method HandOff(sectors: nat, f: Files, stage: FirstStage) returns (ok: bool)
    requires Geometry(sectors).Valid() && Fits(f, Geometry(sectors))
    requires 512 <= |f.io| <= 512 + 12 * 32768 && f.io[3..7] == [103, 101, 109, 105] && f.io[510..512] == [0x55, 0xAA]
    requires stage.mem.Length >= 0x1_0000 + 12 * 32768
    modifies stage, stage.mem
    ensures ok
    ensures stage.mem[0x1_0000..0x1_0000 + (|f.io| - 512)] == f.io[512..]
       <==> forall i :: 512 + 32768 <= i < |f.io| ==> f.io[i] == f.io[i - 32768]
    ensures |f.io| <= 512 + 32768 ==> stage.mem[0x1_0000..0x1_0000 + (|f.io| - 512)] == f.io[512..]
  {
    hide IoSysLba, LooksLikeIoSys;
    var b, lba := BootScan(sectors, f);
    var img := b.disk[..];
    RoomBehind(Geometry(sectors), f.io);
    ok := stage.SelfLoad(img, lba);
    LoadedRightIff(img, lba, f.io, old(stage.mem[..]), stage.mem[..]);
  }

  lemma RoomBehind(g: Geometry, io: seq<Byte>)
    requires g.Valid()
    ensures (IoSysLba(g, io) + 1) * 512 + CHUNK <= g.Bytes()
  {
    RegionsInOrder(g);
  }
}
