/**
 * The two programs end to end: mkdisk's main builds the image, and the BIOS
 * loader mounts it, looks the kernel up and reads it into memory.
 */
module Pipeline {
  import opened Bytes
  import opened Names83
  import opened Layout
  import opened BootSectors
  import opened MkDisk
  import opened Volumes
  import opened FatReader
  import opened RoundTrip

  const IO_SYS: CString := [73, 79, 46, 83, 89, 83]
  const GEMIOS_ELF: CString := [71, 69, 77, 73, 79, 83, 46, 69, 76, 70]
  const GEMIOS_ELF_LOWER: CString := [103, 101, 109, 105, 111, 115, 46, 101, 108, 102]
  const EFI: CString := [69, 70, 73]
  const BOOT: CString := [66, 79, 79, 84]
  const BOOTIA32_EFI: CString := [66, 79, 79, 84, 73, 65, 51, 50, 46, 69, 70, 73]
  const BOOTX64_EFI: CString := [66, 79, 79, 84, 88, 54, 52, 46, 69, 70, 73]

  /** The input files of mkdisk. */
  datatype Files = Files(vbr: seq<Byte>, io: seq<Byte>, kernel: seq<Byte>, ia32: seq<Byte>, x64: seq<Byte>)

  function EfiClus(f: Files): nat {
    3 + ClustersFor(|f.io|) + ClustersFor(|f.kernel|)
  }

  /** The calls main makes to populate the volume. */
  function MainOps(f: Files): (ops: seq<Op>)
    ensures |ops| == 6
  {
    [FileOp(ROOT_CLUS, IO_SYS, f.io), FileOp(ROOT_CLUS, GEMIOS_ELF, f.kernel), DirOp(ROOT_CLUS, EFI),
     DirOp(EfiClus(f), BOOT), FileOp(EfiClus(f) + 1, BOOTIA32_EFI, f.ia32), FileOp(EfiClus(f) + 1, BOOTX64_EFI, f.x64)]
  }

  /** The files fit the volume. */
  predicate Fits(f: Files, g: Geometry)
    requires g.Valid()
  {
    EfiClus(f) + 2 + ClustersFor(|f.ia32|) + ClustersFor(|f.x64|) <= g.Clusters() + 2
  }

  function Blank(f: Files, g: Geometry): (v: Volume)
    requires g.Valid()
  {
    RegionsInOrder(g);
    Formatted(View(Zeros(g.Bytes()), g), g, f.vbr, f.io)
  }

  lemma BlankIsFresh(f: Files, g: Geometry)
    requires g.Valid()
    ensures var v := Blank(f, g);
            && Fresh(v) && |v.clus| == g.Clusters() && |v.reserved| >= 2080 * 512
            && v.reserved[2048 * 512..2080 * 512] == ReservedArea(f.vbr, g, f.io)
  {
    hide ReservedArea, View;
    RegionsInOrder(g);
    ZeroView(g);
    var v, b := View(Zeros(g.Bytes()), g), Blank(f, g);
    assert b.reserved[2048 * 512..2080 * 512] == ReservedArea(f.vbr, g, f.io);
  }

  lemma ZeroView(g: Geometry)
    requires g.Valid()
    ensures var v := View(Zeros(g.Bytes()), g);
            && WellSized(v) && v.fat1 == v.fat2 && |v.reserved| == 2080 * 512
            && (forall c :: 0 <= c < |v.fat1| ==> v.fat1[c] == 0)
            && v.clus[0] == Zeros(2048)
  {
    RegionsInOrder(g);
    var v := View(Zeros(g.Bytes()), g);
    assert forall c :: 0 <= c < |v.fat1| ==> v.fat1[c] == 0;
    assert v.fat1 == v.fat2;
    assert v.clus[0] == Zeros(2048);
  }

  /** The first character of a name is the first character of its entry. */
  lemma FirstByte(s: CString)
    requires s != [] && s[0] != DOT
    ensures BuilderName(s)[0] == ToUpper(s[0])
  {
    PartsGrow(s, 1);
    assert s[..1] == [s[0]];
    NoDot(s[..1]);
  }

  lemma SizesFit(f: Files, g: Geometry)
    requires g.Valid() && Fits(f, g)
    ensures |f.io| < TWO32 && |f.kernel| < TWO32 && |f.ia32| < TWO32 && |f.x64| < TWO32
  {
    RegionsInOrder(g);
  }

  lemma {:induction false} LegalSnoc(ops: seq<Op>, op: Op, clusters: nat)
    requires Legal(ops, clusters) && IsDir(ops, op.parent)
    requires NextAfter(ops) + op.Need() <= clusters + 2 && (op.FileOp? ==> |op.data| < TWO32)
    ensures Legal(ops + [op], clusters) && NextAfter(ops + [op]) == NextAfter(ops) + op.Need()
    ensures forall d :: IsDir(ops, d) ==> IsDir(ops + [op], d)
    ensures op.DirOp? ==> IsDir(ops + [op], NextAfter(ops))
  {
    var all := ops + [op];
    assert all[..|all| - 1] == ops && all[|all| - 1] == op;
  }

  lemma NamesAreVisible(f: Files)
    ensures forall j :: 0 <= j < 6 ==> !LooksDeleted(MainOps(f)[j].name)
  {
    hide BuilderName;
    FirstByte(IO_SYS);
    FirstByte(GEMIOS_ELF);
    FirstByte(EFI);
    FirstByte(BOOT);
    FirstByte(BOOTIA32_EFI);
    FirstByte(BOOTX64_EFI);
  }

  /** LegalSnoc along a list. */
  lemma {:induction false} LegalNext(ops: seq<Op>, k: nat, clusters: nat)
    requires k < |ops| && Legal(ops[..k], clusters) && IsDir(ops[..k], ops[k].parent)
    requires NextAfter(ops[..k]) + ops[k].Need() <= clusters + 2 && (ops[k].FileOp? ==> |ops[k].data| < TWO32)
    ensures Legal(ops[..k + 1], clusters) && NextAfter(ops[..k + 1]) == NextAfter(ops[..k]) + ops[k].Need()
    ensures forall d :: IsDir(ops[..k], d) ==> IsDir(ops[..k + 1], d)
    ensures ops[k].DirOp? ==> IsDir(ops[..k + 1], NextAfter(ops[..k]))
  {
    hide Legal, IsDir, NextAfter;
    assert ops[..k] + [ops[k]] == ops[..k + 1];
    LegalSnoc(ops[..k], ops[k], clusters);
  }

  lemma MainShape(f: Files)
    ensures var ops := MainOps(f);
            && ops[0] == FileOp(ROOT_CLUS, IO_SYS, f.io) && ops[1] == FileOp(ROOT_CLUS, GEMIOS_ELF, f.kernel)
            && ops[2] == DirOp(ROOT_CLUS, EFI) && ops[3] == DirOp(EfiClus(f), BOOT)
            && ops[4] == FileOp(EfiClus(f) + 1, BOOTIA32_EFI, f.ia32) && ops[5] == FileOp(EfiClus(f) + 1, BOOTX64_EFI, f.x64)
            && ops[..0] == [] && ops[..6] == ops
  {
  }

  lemma {:induction false} EmptyRun(v: Volume, ops: seq<Op>)
    requires Fresh(v)
    ensures ops[..0] == [] && Legal([], |v.clus|) && NextAfter([]) == 3 && Run(v, []) == v
  {
  }

  lemma MainRootIsLegal(f: Files, g: Geometry)
    requires g.Valid() && Fits(f, g)
    ensures var ops := MainOps(f);
            && Legal(ops[..3], g.Clusters()) && IsDir(ops[..3], EfiClus(f))
            && NextAfter(ops[..1]) == 3 + ClustersFor(|f.io|) && NextAfter(ops[..2]) == EfiClus(f)
            && NextAfter(ops[..3]) == EfiClus(f) + 1
  {
    SizesFit(f, g);
    MainShape(f);
    var ops, n := MainOps(f), g.Clusters();
    assert Legal([], n) && IsDir([], ROOT_CLUS) && NextAfter([]) == 3;
    assert ops[..0] == [];
    hide MainOps, ClustersFor, Legal, IsDir, NextAfter;
    LegalNext(ops, 0, n);
    LegalNext(ops, 1, n);
    LegalNext(ops, 2, n);
  }

  lemma MainIsLegal(f: Files, g: Geometry)
    requires g.Valid() && Fits(f, g)
    ensures Legal(MainOps(f), g.Clusters())
    ensures NextAfter(MainOps(f)[..1]) == 3 + ClustersFor(|f.io|) && NextAfter(MainOps(f)[..2]) == EfiClus(f)
    ensures NextAfter(MainOps(f)[..3]) == EfiClus(f) + 1
  {
    hide MainOps, ClustersFor, Legal, IsDir, NextAfter;
    MainRootIsLegal(f, g);
    SizesFit(f, g);
    MainShape(f);
    var ops, n := MainOps(f), g.Clusters();
    LegalNext(ops, 3, n);
    LegalNext(ops, 4, n);
    LegalNext(ops, 5, n);
    assert ops[..6] == ops;
  }

  // ---------------------------------------------------------------------
  // mkdisk's main.
  // ---------------------------------------------------------------------

  lemma {:induction false} RunNext(v: Volume, ops: seq<Op>, k: nat)
    requires WellSized(v) && Legal(ops, |v.clus|) && k < |ops|
    ensures Legal(ops[..k], |v.clus|) && Legal(ops[..k + 1], |v.clus|)
    ensures 2 <= ops[k].parent < NextAfter(ops[..k])
    ensures NextAfter(ops[..k + 1]) == NextAfter(ops[..k]) + ops[k].Need() <= |v.clus| + 2
    ensures Run(v, ops[..k + 1]) == Apply(Run(v, ops[..k]), NextAfter(ops[..k]), ops[k])
  {
    LegalPrefixes(ops, |v.clus|, k);
    LegalPrefixes(ops, |v.clus|, k + 1);
    assert ops[..k + 1][..k] == ops[..k];
    DirBelow(ops[..k], ops[k].parent);
  }

  lemma {:induction false} LegalPrefixes(ops: seq<Op>, clusters: nat, k: nat)
    requires Legal(ops, clusters) && k <= |ops|
    ensures Legal(ops[..k], clusters)
  {
    if k == |ops| {
      assert ops[..k] == ops;
    } else {
      var front := ops[..|ops| - 1];
      assert front[..k] == ops[..k];
      LegalPrefixes(front, clusters, k);
    }
  }

  /** One call of main, as the next step of the run. */
  method Populate(b: ImageBuilder, ghost v: Volume, op: Op, ghost ops: seq<Op>, ghost k: nat) returns (clus: nat)
    requires b.Valid() && WellSized(v) && |v.clus| == b.Geo().Clusters() && Legal(ops, |v.clus|) && k < |ops| && ops[k] == op
    requires b.nextFree == NextAfter(ops[..k]) && Legal(ops[..k], |v.clus|) && b.Vol() == Run(v, ops[..k])
    modifies b, b.disk
    ensures b.Valid() && clus == old(b.nextFree) && b.nextFree == NextAfter(ops[..k + 1])
    ensures Legal(ops[..k + 1], |v.clus|) && b.Vol() == Run(v, ops[..k + 1])
  {
    hide ImageBuilder.Vol, Legal, NextAfter, Run, WriteFile, MakeDirectory;
    RunNext(v, ops, k);
    match op {
      case FileOp(parent, name, data) => clus := b.WriteFileData(parent, name, Some(data), |data|);
      case DirOp(parent, name) => clus := b.CreateDirectory(parent, name);
    }
  }

  method FormatImage(sectors: nat, f: Files) returns (b: ImageBuilder)
    requires Geometry(sectors).Valid()
    ensures fresh(b) && fresh(b.disk) && b.Valid() && b.total == sectors && b.nextFree == 3
    ensures b.Vol() == Blank(f, Geometry(sectors))
  {
    hide Formatted, View;
    b := new ImageBuilder(sectors);
    assert b.Vol() == View(Zeros(b.Geo().Bytes()), b.Geo());
    BlankReserved(b.Geo());
    b.Format(f.vbr, f.io);
  }

  method BuildImage(sectors: nat, f: Files) returns (b: ImageBuilder)
    requires Geometry(sectors).Valid() && Fits(f, Geometry(sectors))
    ensures fresh(b) && fresh(b.disk) && b.Valid() && b.total == sectors
    ensures var g := Geometry(sectors);
            Legal(MainOps(f), g.Clusters()) && |Blank(f, g).clus| == g.Clusters() && b.Vol() == Run(Blank(f, g), MainOps(f))
    ensures BuiltFrom(b.disk[..], Geometry(sectors), f)
  {
    hide ImageBuilder.Vol, Legal, NextAfter, Run, Blank, Fresh, Fits, EfiClus, MainOps;
    ghost var g, ops := Geometry(sectors), MainOps(f);
    ghost var v := Blank(f, g);
    MainShape(f);
    BlankIsFresh(f, g);
    MainIsLegal(f, g);
    EmptyRun(v, ops);
    b := FormatImage(sectors, f);
    var c := Populate(b, v, FileOp(ROOT_CLUS, IO_SYS, f.io), ops, 0);
    c := Populate(b, v, FileOp(ROOT_CLUS, GEMIOS_ELF, f.kernel), ops, 1);
    var efiClus := Populate(b, v, DirOp(ROOT_CLUS, EFI), ops, 2);
    var bootClus := Populate(b, v, DirOp(efiClus, BOOT), ops, 3);
    c := Populate(b, v, FileOp(bootClus, BOOTIA32_EFI, f.ia32), ops, 4);
    c := Populate(b, v, FileOp(bootClus, BOOTX64_EFI, f.x64), ops, 5);
    VolIsView(b);
  }

  lemma BlankReserved(g: Geometry)
    requires g.Valid()
    ensures |View(Zeros(g.Bytes()), g).reserved| >= 2080 * 512
    ensures View(Zeros(g.Bytes()), g).reserved[2048 * 512..2080 * 512] == Zeros(32 * 512)
  {
    RegionsInOrder(g);
  }

  // ---------------------------------------------------------------------
  // The loader.
  // ---------------------------------------------------------------------

  /** The two spellings under which the loader looks the kernel up are one name to the reader. */
  lemma LookupsAgree()
    ensures ReaderName(GEMIOS_ELF_LOWER) == ReaderName(GEMIOS_ELF) == BuilderName(GEMIOS_ELF)
  {
    CaseIsIgnored(GEMIOS_ELF_LOWER, GEMIOS_ELF);
    EncodersAgree(GEMIOS_ELF);
  }

  /** What the lookup of the kernel gives on a mounted volume. */
  function KernelEntry(fs: FatFs, dev: Device, n: nat): (r: FindResult) {
    Lookup(dev, RootLbas(fs, dev, n), ReaderName(GEMIOS_ELF_LOWER), 0)
  }

  /**
   * bios_loader_main from fat_init to fat_read_file: the size of the kernel
   * now at `dest`, or None where the loader prints an error and halts.
   */
  method LoadKernel(dev: Device, partLba: nat, dest: array<Byte>, ghost n: nat) returns (size: Option<nat>)
    requires FatInit(dev, partLba).Mounted? ==>
               var fs := FatInit(dev, partLba).fs;
               && (fs.fatType == 32 ==> SearchEnds(fs, dev, ReaderName(GEMIOS_ELF), n))
               && (KernelEntry(fs, dev, n).Found? ==> KernelEntry(fs, dev, n).fileSize <= dest.Length)
    modifies dest
    ensures size.Some? <==>
              && FatInit(dev, partLba).Mounted?
              && KernelEntry(FatInit(dev, partLba).fs, dev, n).Found?
              && var e := KernelEntry(FatInit(dev, partLba).fs, dev, n);
                 Holds(FatInit(dev, partLba).fs, dev, e.firstCluster, e.fileSize)
    ensures size.Some? ==>
              var fs, e := FatInit(dev, partLba).fs, KernelEntry(FatInit(dev, partLba).fs, dev, n);
              && size.value == e.fileSize <= dest.Length
              && forall i :: 0 <= i < e.fileSize ==> ByteOf(fs, dev, e.firstCluster, i) == Some(dest[i])
  {
    hide FatInit, RootLbas, Lookup, ReaderName, ByteOf, Holds;
    LookupsAgree();
    match FatInit(dev, partLba) {
      case Mounted(fs) =>
        var r := FindFile(fs, dev, GEMIOS_ELF_LOWER, n);
        if r.NotFound? {
          r := FindFile(fs, dev, GEMIOS_ELF, n);
        }
        if r.NotFound? {
          return None;
        }
        var res := ReadFile(fs, dev, r.firstCluster, r.fileSize, dest);
        return if res == 0 then Some(r.fileSize) else None;
      case _ => return None;
    }
  }

  /** The image that main leaves is one a run of the builder can leave. */
  ghost predicate BuiltFrom(img: seq<Byte>, g: Geometry, f: Files) {
    && g.Valid() && |img| == g.Bytes() && Fits(f, g)
    && Legal(MainOps(f), |Blank(f, g).clus|) && View(img, g) == Run(Blank(f, g), MainOps(f))
  }

  lemma MainBuilds(img: seq<Byte>, g: Geometry, f: Files)
    requires BuiltFrom(img, g, f)
    ensures BuiltBy(img, g, f.vbr, f.io, Blank(f, g), MainOps(f))
  {
    hide View, Run, MainOps, Blank, ReservedArea, Fits, Legal;
    BlankIsFresh(f, g);
  }

  lemma KernelLookup(img: seq<Byte>, g: Geometry, f: Files)
    requires BuiltFrom(img, g, f)
    ensures KernelEntry(FsFor(g), DiskOf(img), 1) == Found(3 + ClustersFor(|f.io|), |f.kernel|)
  {
    hide View, FsFor, DiskOf, Lookup, RootLbas, MainOps, Blank, BuiltBy, BuilderName, ReaderName, NextAfter, Position, Legal;
    hide Fits;
    var ops := MainOps(f);
    MainBuilds(img, g, f);
    MainIsLegal(f, g);
    MainShape(f);
    KernelName();
    NamesAreVisible(f);
    SecondInRoot(ops);
    FoundIff(img, g, f.vbr, f.io, Blank(f, g), ops, 1, GEMIOS_ELF_LOWER);
  }

  lemma KernelName()
    ensures ReaderName(GEMIOS_ELF_LOWER) == BuilderName(GEMIOS_ELF) != BuilderName(IO_SYS)
  {
    LookupsAgree();
    FirstByte(IO_SYS);
    FirstByte(GEMIOS_ELF);
  }

  /** On the image that main builds the loader finds the kernel, whatever the input files. */
  lemma KernelIsFound(img: seq<Byte>, g: Geometry, f: Files)
    requires BuiltFrom(img, g, f)
    ensures FatInit(DiskOf(img), PARTITION_START_LBA) == Mounted(FsFor(g)) && FsFor(g).fatType == 32
    ensures EndsWithin(FsFor(g), DiskOf(img), FsFor(g).rootClus, 1)
    ensures KernelEntry(FsFor(g), DiskOf(img), 1) == Found(3 + ClustersFor(|f.io|), |f.kernel|)
    ensures forall i :: 0 <= i < |f.kernel| ==>
              ByteOf(FsFor(g), DiskOf(img), 3 + ClustersFor(|f.io|), i) == Some(f.kernel[i])
    ensures Holds(FsFor(g), DiskOf(img), 3 + ClustersFor(|f.io|), |f.kernel|)
  {
    var ops := MainOps(f);
    MainBuilds(img, g, f);
    MainIsLegal(f, g);
    MainShape(f);
    hide View, FsFor, DiskOf, FatInit, Lookup, RootLbas, ByteOf, Holds, MainOps, Blank, BuiltBy, BuiltFrom, NextAfter, KernelEntry;
    KernelLookup(img, g, f);
    LookupInBuilt(img, g, f.vbr, f.io, Blank(f, g), ops, GEMIOS_ELF);
    FileReadsBack(img, g, f.vbr, f.io, Blank(f, g), ops, 1);
  }

  lemma SecondInRoot(ops: seq<Op>)
    requires |ops| >= 2
    ensures Position(ops, 1) < 64
  {
    assert ops[..1][..0] == [];
    assert |EntriesOf(ops[..1], ops[1].parent)| <= 3;
  }

  /** Both programs, one after the other: the kernel arrives in memory unchanged. */
  method BuildThenLoad(sectors: nat, f: Files, dest: array<Byte>) returns (size: Option<nat>)
    requires Geometry(sectors).Valid() && Fits(f, Geometry(sectors)) && |f.kernel| <= dest.Length
    modifies dest
    ensures size == Some(|f.kernel|) && dest[..|f.kernel|] == f.kernel
  {
    hide ImageBuilder.Vol, View, FsFor, DiskOf, Run, FatInit, KernelEntry, ByteOf, Holds;
    hide MainOps, Blank, Fits, Legal, EndsWithin, ClustersFor;
    var b := BuildImage(sectors, f);
    var img := b.disk[..];
    VolIsView(b);
    KernelIsFound(img, Geometry(sectors), f);
    size := LoadKernel(DiskOf(img), PARTITION_START_LBA, dest, 1);
  }

  lemma VolIsView(b: ImageBuilder)
    requires b.Valid()
    ensures Geometry(b.total).Valid() && b.disk.Length == Geometry(b.total).Bytes() && b.Vol() == View(b.disk[..], Geometry(b.total))
  {
  }
}
