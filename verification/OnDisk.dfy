/** What the builder leaves, byte by byte in the image: offsets, marks and attribute bytes as numbers. */
module OnDisk {
  import opened Bytes
  import opened Names83
  import opened Layout
  import opened BootSectors
  import opened MkDisk
  import opened Volumes
  import opened RoundTrip
  import opened Pipeline

  /** `n` sectors of 128 entries are the least that the clusters of a disk of `total` sectors need. */
  predicate FatSectors(total: nat, n: nat) {
    128 * (n - 1) < (total - 2080) / 4 <= 128 * n
  }

  lemma FatSectorsAre(g: Geometry, n: nat)
    requires g.Valid() && FatSectors(g.total, n)
    ensures n == g.FatSize() && g.Fat1At() == 1064960 && g.Fat2At() == 1064960 + 512 * n && g.DataAt() == 1064960 + 1024 * n
    ensures g.Clusters() + 2 < 0x0FFF_FFF8 && g.Clusters() + 2 <= 128 * n
  {
    GeometryInNumbers(g);
    RegionsInOrder(g);
  }

  /** The disk sizes of the project: a FAT32 volume by its number of clusters, and at most 4 GB. */
  lemma SizesInNumbers(total: nat, n: nat)
    requires total >= 2080 && FatSectors(total, n)
    ensures Geometry(total).Valid() <==> 4096 <= total <= 8388608 && (total - 2080 - 2 * n) / 4 >= 65525
  {
    FatIsLeast(total, n);
  }

  lemma FatIsLeast(total: nat, n: nat)
    requires total >= 2080 && FatSectors(total, n)
    ensures Geometry(total).FatSize() == n
  {
  }

  /** The files fit exactly if their clusters, the root and the two directories do. */
  lemma FitsInNumbers(f: Files, g: Geometry)
    requires g.Valid()
    ensures Fits(f, g) <==>
              ClustersFor(|f.io|) + ClustersFor(|f.kernel|) + ClustersFor(|f.ia32|) + ClustersFor(|f.x64|) + 3 <= g.Clusters()
  {
  }

  // ---------------------------------------------------------------------
  // Directory entries.
  // ---------------------------------------------------------------------

  /** Calls that put an entry into directory `d` which stays. */
  function LiveIn(ops: seq<Op>, d: nat): nat {
    if ops == [] then 0
    else
      var op := ops[|ops| - 1];
      LiveIn(ops[..|ops| - 1], d) + if op.parent == d && BuilderName(op.name)[0] != 0xE5 then 1 else 0
  }

  lemma {:induction false} LiveStep(ops: seq<Op>, k: nat, d: nat)
    requires k < |ops|
    ensures LiveIn(ops[..k + 1], d) ==
            LiveIn(ops[..k], d) + if ops[k].parent == d && BuilderName(ops[k].name)[0] != 0xE5 then 1 else 0
  {
    hide BuilderName;
    assert ops[..k + 1][..k] == ops[..k];
  }

  /** A directory lists its live entries, and two links in front unless it is the root. */
  lemma {:induction false} EntriesCount(ops: seq<Op>, clusters: nat, d: nat)
    requires Legal(ops, clusters)
    ensures |EntriesOf(ops, d)| == LiveIn(ops, d) + if IsDir(ops, d) && d != 2 then 2 else 0
  {
    hide BuilderName, EntryOf, DotEntries, NextAfter;
    if ops != [] {
      var front, op := ops[..|ops| - 1], ops[|ops| - 1];
      EntriesCount(front, clusters, d);
      if op.DirOp? && NextAfter(front) == d {
        DirBelow(front, op.parent);
        if IsDir(front, d) { DirBelow(front, d); }
        TwoDots(d, op.parent);
      }
    }
  }

  lemma TwoDots(d: nat, parent: nat)
    ensures |DotEntries(d, parent)| == 2
  {
  }

  lemma {:induction false} ParentIsDir(ops: seq<Op>, clusters: nat, j: nat)
    requires Legal(ops, clusters) && j < |ops|
    ensures Legal(ops[..j], clusters) && IsDir(ops[..j], ops[j].parent) && IsDir(ops, ops[j].parent)
  {
    var front := ops[..|ops| - 1];
    if j < |front| {
      ParentIsDir(front, clusters, j);
      assert front[..j] == ops[..j];
    }
  }

  /** The slot an object's entry goes to: behind the links and the live entries of earlier objects. */
  lemma {:induction false} PositionCounts(ops: seq<Op>, clusters: nat, j: nat)
    requires Legal(ops, clusters) && j < |ops|
    ensures Position(ops, j) == LiveIn(ops[..j], ops[j].parent) + if ops[j].parent != 2 then 2 else 0
  {
    hide Legal, IsDir, EntriesOf, LiveIn;
    ParentIsDir(ops, clusters, j);
    EntriesCount(ops[..j], clusters, ops[j].parent);
  }

  /** The image of an entry: 0x10 marks a directory, 0x20 a file. */
  lemma EntryImageInBytes(op: Op, first: nat)
    requires first < TWO32 && (op.FileOp? ==> |op.data| < TWO32)
    ensures var e := EntryImage(EntryOf(op, first));
            && e[0..11] == BuilderName(op.name) && e[11] == (if op.DirOp? then 0x10 else 0x20) && e[12..20] == Zeros(8)
            && Get16(e, 20) * 65536 + Get16(e, 26) == first && e[22..26] == [0x00, 0x60, 0x21, 0x58]
            && Get32(e, 28) == if op.FileOp? then |op.data| else 0
  {
    hide BuilderName, EntryBytes;
    var t := EntryOf(op, first);
    EntryInBytes(Zeros(32), t.name, t.attr, first, t.size);
    assert Zeros(32)[12..20] == Zeros(8);
  }

  /** Slot `i` of directory `d`, in the image. */
  lemma {:induction false} SlotOnDisk(img: seq<Byte>, g: Geometry, vbr: seq<Byte>, io: seq<Byte>, v0: Volume, ops: seq<Op>,
                                      d: nat, i: nat)
    requires BuiltBy(img, g, vbr, io, v0, ops) && IsDir(ops, d) && i < 64
    ensures 2 <= d && g.DataAt() + 2048 * (d - 2) + 32 * i + 32 <= |img|
    ensures var o := g.DataAt() + 2048 * (d - 2) + 32 * i;
            img[o..o + 32] == if i < |SlotsOf(ops, d)| then EntryImage(SlotsOf(ops, d)[i]) else Zeros(32)
  {
    hide View, Run, Render, EntryImage, ReservedArea, Chained, Stored, SlotsOf, EntriesOf;
    RunInvariant(v0, ops);
    DirBelow(ops, d);
    SlotOfCluster(img, g, d, i);
    assert View(img, g).clus[d - 2] == Render(SlotsOf(ops, d));
    RenderedSlot(SlotsOf(ops, d), i);
  }

  lemma {:induction false} EntrySlot(img: seq<Byte>, g: Geometry, vbr: seq<Byte>, io: seq<Byte>, v0: Volume, ops: seq<Op>,
                                     j: nat, n: nat)
    requires BuiltBy(img, g, vbr, io, v0, ops) && j < |ops| && FatSectors(g.total, n)
    requires BuilderName(ops[j].name)[0] != 0xE5 && Position(ops, j) < 64
    ensures FirstOf(ops, j) < TWO32 && (ops[j].FileOp? ==> |ops[j].data| < TWO32)
    ensures var o := 1064960 + 1024 * n + 2048 * (ops[j].parent - 2) + 32 * Position(ops, j);
            0 <= o && o + 32 <= |img| && img[o..o + 32] == EntryImage(EntryOf(ops[j], FirstOf(ops, j)))
  {
    hide BuiltBy, Run, Legal, EntryImage, EntryOf, BuilderName, EntriesOf, FirstOf, IsDir, Position;
    var p, d := Position(ops, j), ops[j].parent;
    BuiltFacts(img, g, vbr, io, v0, ops);
    ParentIsDir(ops, g.Clusters(), j);
    FatSectorsAre(g, n);
    ObjectFits(ops, g.Clusters(), j);
    SlotOnDisk(img, g, vbr, io, v0, ops, d, p);
    EntryAtPosition(ops, g.Clusters(), j);
    assert SlotsOf(ops, d)[p] == EntryOf(ops[j], FirstOf(ops, j));
  }

  /**
   * After any run, in numbers: the entry of object `j` in its parent's
   * cluster, if it is still there and got one of the 64 slots.
   */
  lemma {:induction false} EntryOnDisk(img: seq<Byte>, g: Geometry, vbr: seq<Byte>, io: seq<Byte>, v0: Volume, ops: seq<Op>,
                                       j: nat, n: nat)
    requires BuiltBy(img, g, vbr, io, v0, ops) && j < |ops| && FatSectors(g.total, n)
    requires BuilderName(ops[j].name)[0] != 0xE5 && Position(ops, j) < 64
    ensures var o := 1064960 + 1024 * n + 2048 * (ops[j].parent - 2) + 32 * Position(ops, j);
            && 0 <= o && o + 32 <= |img|
            && img[o..o + 11] == BuilderName(ops[j].name)
            && img[o + 11] == (if ops[j].DirOp? then 0x10 else 0x20)
            && img[o + 12..o + 20] == Zeros(8) && img[o + 22..o + 26] == [0x00, 0x60, 0x21, 0x58]
            && Get16(img, o + 20) * 65536 + Get16(img, o + 26) == FirstOf(ops, j)
            && Get32(img, o + 28) == if ops[j].FileOp? then |ops[j].data| else 0
  {
    hide BuiltBy, EntryImage, BuilderName, FirstOf, Position, Get16, Get32;
    var e := EntryOf(ops[j], FirstOf(ops, j));
    EntrySlot(img, g, vbr, io, v0, ops, j, n);
    EntryImageInBytes(ops[j], FirstOf(ops, j));
    EntryAt(img, 1064960 + 1024 * n + 2048 * (ops[j].parent - 2) + 32 * Position(ops, j), EntryImage(e));
  }

  lemma {:induction false} BuiltFacts(img: seq<Byte>, g: Geometry, vbr: seq<Byte>, io: seq<Byte>, v0: Volume, ops: seq<Op>)
    requires BuiltBy(img, g, vbr, io, v0, ops)
    ensures g.Valid() && |img| == g.Bytes() && Legal(ops, g.Clusters())
  {
  }

  lemma {:induction false} ObjectFits(ops: seq<Op>, clusters: nat, j: nat)
    requires Legal(ops, clusters) && j < |ops|
    ensures FirstOf(ops, j) + ops[j].Need() <= clusters + 2 && (ops[j].FileOp? ==> |ops[j].data| < TWO32)
  {
    var m := |ops| - 1;
    if j < m {
      ObjectFits(ops[..m], clusters, j);
      PrefixFirst(ops, m, j);
    }
  }

  /** The fields of an entry at offset `o`. */
  lemma EntryAt(img: seq<Byte>, o: nat, e: seq<Byte>)
    requires |e| == 32 && o + 32 <= |img| && img[o..o + 32] == e
    ensures img[o..o + 11] == e[0..11] && img[o + 11] == e[11]
    ensures img[o + 12..o + 20] == e[12..20] && img[o + 22..o + 26] == e[22..26]
    ensures Get16(img, o + 20) == Get16(e, 20) && Get16(img, o + 26) == Get16(e, 26) && Get32(img, o + 28) == Get32(e, 28)
  {
    SliceOfSlice(img, o, o + 32, 0, 11);
    SliceOfSlice(img, o, o + 32, 12, 20);
    SliceOfSlice(img, o, o + 32, 22, 26);
    Get32InSlice(img, o, o + 32, 28);
    assert e[11] == img[o + 11] && e[20] == img[o + 20] && e[21] == img[o + 21] && e[26] == img[o + 26] && e[27] == img[o + 27];
  }

  // ---------------------------------------------------------------------
  // FAT entries.
  // ---------------------------------------------------------------------

  /** What both FATs say of cluster `c` of object `j`: the next cluster, or the end mark. */
  lemma {:induction false} ChainOnDisk(img: seq<Byte>, g: Geometry, vbr: seq<Byte>, io: seq<Byte>, v0: Volume, ops: seq<Op>,
                                       j: nat, c: nat, n: nat)
    requires BuiltBy(img, g, vbr, io, v0, ops) && j < |ops| && FatSectors(g.total, n)
    requires FirstOf(ops, j) <= c < FirstOf(ops, j) + ops[j].Need()
    ensures 1064960 + 512 * n + 4 * c + 4 <= |img|
    ensures var next := if c + 1 < FirstOf(ops, j) + ops[j].Need() then c + 1 else 0x0FFF_FFFF;
            Get32(img, 1064960 + 4 * c) == next && Get32(img, 1064960 + 512 * n + 4 * c) == next
  {
    hide View, Run, Get32, Stored, Listed, ReservedArea, FirstOf;
    RunInvariant(v0, ops);
    FatSectorsAre(g, n);
    assert RunLinked(Run(v0, ops).fat1, FirstOf(ops, j), ops[j].Need());
    FatWord(img, g, c);
    Fat2Word(img, g, c);
  }

  /** The root directory is one cluster, and everything behind the last object is free, in both FATs. */
  lemma {:induction false} RestOfFatOnDisk(img: seq<Byte>, g: Geometry, vbr: seq<Byte>, io: seq<Byte>, v0: Volume, ops: seq<Op>,
                                           c: nat, n: nat)
    requires BuiltBy(img, g, vbr, io, v0, ops) && FatSectors(g.total, n) && (c == 2 || NextAfter(ops) <= c < 128 * n)
    ensures 1064960 + 512 * n + 4 * c + 4 <= |img|
    ensures var mark := if c == 2 then 0x0FFF_FFFF else 0;
            Get32(img, 1064960 + 4 * c) == mark && Get32(img, 1064960 + 512 * n + 4 * c) == mark
  {
    hide View, Run, Get32, Stored, Listed, ReservedArea, Fresh, RunLinked;
    RunInvariant(v0, ops);
    FatSectorsAre(g, n);
    FatWord(img, g, c);
    Fat2Word(img, g, c);
  }

  // ---------------------------------------------------------------------
  // Contents.
  // ---------------------------------------------------------------------

  /** The bytes of file `j` from its first cluster on, with zeros up to the end of its last cluster. */
  lemma {:induction false} FileOnDisk(img: seq<Byte>, g: Geometry, vbr: seq<Byte>, io: seq<Byte>, v0: Volume, ops: seq<Op>,
                                      j: nat, i: nat, n: nat)
    requires BuiltBy(img, g, vbr, io, v0, ops) && j < |ops| && ops[j].FileOp? && FatSectors(g.total, n)
    requires i < 2048 * ClustersFor(|ops[j].data|)
    ensures var at := 1064960 + 1024 * n + 2048 * (FirstOf(ops, j) - 2) + i;
            0 <= at < |img| && img[at] == if i < |ops[j].data| then ops[j].data[i] else 0
  {
    hide View, Run, Block, ReservedArea, FirstOf, RunLinked, Chained, Listed;
    RunInvariant(v0, ops);
    FatSectorsAre(g, n);
    var first, data, k, r := FirstOf(ops, j), ops[j].data, i / 2048, i % 2048;
    assert FileStored(View(img, g), first, data);
    ObjectFits(ops, g.Clusters(), j);
    assert View(img, g).clus[first - 2 + k] == Block(data, k);
    ClusterSlice(img, g, first + k);
    var at := g.DataAt() + 2048 * (first + k - 2);
    assert img[at..at + 2048][r] == img[at + r];
  }

  /** The 32 reserved sectors in the image, whatever was built behind them. */
  lemma {:induction false} ReservedOnDisk(img: seq<Byte>, g: Geometry, vbr: seq<Byte>, io: seq<Byte>, v0: Volume, ops: seq<Op>,
                                          k: nat)
    requires BuiltBy(img, g, vbr, io, v0, ops) && k < 16384
    ensures 1048576 + 16384 <= |img|
    ensures img[1048576 + k] ==
            if |io| <= 14848 && 1024 <= k < 1024 + |io| then io[k - 1024]
            else if k < 512 then BootSector(vbr, g)[k]
            else if k < 1024 then FsInfo()[k - 512]
            else if 3072 <= k < 3584 then BootSector(vbr, g)[k - 3072]
            else if 3584 <= k < 4096 then FsInfo()[k - 3584]
            else 0
  {
    hide Run, Chained, Stored, Listed, ReservedArea, BootSector, FsInfo, Words, Chunks;
    RunInvariant(v0, ops);
    RegionsInOrder(g);
    ReservedInBytes(vbr, g, io, k);
    var r := View(img, g).reserved;
    assert r[2048 * 512..2080 * 512][k] == r[1048576 + k] == img[1048576 + k];
  }

  // ---------------------------------------------------------------------
  // A created directory.
  // ---------------------------------------------------------------------

  lemma {:induction false} LinksListed(ops: seq<Op>, clusters: nat, j: nat)
    requires Legal(ops, clusters) && j < |ops| && ops[j].DirOp?
    ensures IsDir(ops, FirstOf(ops, j)) && DotEntries(FirstOf(ops, j), ops[j].parent) <= EntriesOf(ops, FirstOf(ops, j))
    ensures 2 <= ops[j].parent < FirstOf(ops, j)
  {
    hide DotEntries, BuilderName, EntryOf, LooksDeleted;
    ParentIsDir(ops, clusters, j);
    DirBelow(ops[..j], ops[j].parent);
    var d, next := FirstOf(ops, j), ops[..j + 1];
    assert next[..j] == ops[..j] && next[j] == ops[j];
    NoEntriesYet(ops[..j], clusters, d);
    assert EntriesOf(next, d) == DotEntries(d, ops[j].parent);
    EntriesPrefix(ops, j + 1, d);
    DirStays(ops, j + 1, d);
  }

  lemma {:induction false} DirStays(ops: seq<Op>, k: nat, d: nat)
    requires k <= |ops| && IsDir(ops[..k], d)
    ensures IsDir(ops, d)
  {
    if k == |ops| {
      assert ops[..k] == ops;
    } else {
      assert ops[..|ops| - 1][..k] == ops[..k];
      DirStays(ops[..|ops| - 1], k, d);
    }
  }

  lemma LinkImageInBytes(d: nat, parent: nat)
    requires d < TWO32 && parent < TWO32
    ensures var e, es := EntryImage(DotEntries(d, parent)[0]), DotEntries(d, parent);
            e[0..11] == [46, 32, 32, 32, 32, 32, 32, 32, 32, 32, 32] && e[11] == 0x10 && Get32(e, 28) == 0
            && Get16(e, 20) * 65536 + Get16(e, 26) == d
    ensures var e := EntryImage(DotEntries(d, parent)[1]);
            e[0..11] == [46, 46, 32, 32, 32, 32, 32, 32, 32, 32, 32] && e[11] == 0x10 && Get32(e, 28) == 0
            && Get16(e, 20) * 65536 + Get16(e, 26) == if parent == 2 then 0 else parent
  {
    LinksInBytes();
    hide BuilderName, EntryBytes;
    var es := DotEntries(d, parent);
    EntryInBytes(Zeros(32), es[0].name, es[0].attr, es[0].first, 0);
    EntryInBytes(Zeros(32), es[1].name, es[1].attr, es[1].first, 0);
  }

  lemma {:induction false} LinkSlots(img: seq<Byte>, g: Geometry, vbr: seq<Byte>, io: seq<Byte>, v0: Volume, ops: seq<Op>,
                                     j: nat, n: nat)
    requires BuiltBy(img, g, vbr, io, v0, ops) && j < |ops| && ops[j].DirOp? && FatSectors(g.total, n)
    ensures FirstOf(ops, j) < TWO32 && ops[j].parent < TWO32
    ensures var o, es := 1064960 + 1024 * n + 2048 * (FirstOf(ops, j) - 2), DotEntries(FirstOf(ops, j), ops[j].parent);
            && 0 <= o && o + 64 <= |img| && |es| == 2 && |es[0].name| == 11 && |es[1].name| == 11
            && img[o..o + 32] == EntryImage(es[0]) && img[o + 32..o + 64] == EntryImage(es[1])
  {
    hide BuiltBy, Run, Legal, EntryImage, EntriesOf, FirstOf, IsDir, BuilderName;
    var d, p := FirstOf(ops, j), ops[j].parent;
    BuiltFacts(img, g, vbr, io, v0, ops);
    FatSectorsAre(g, n);
    ObjectFits(ops, g.Clusters(), j);
    LinksListed(ops, g.Clusters(), j);
    SlotOnDisk(img, g, vbr, io, v0, ops, d, 0);
    SlotOnDisk(img, g, vbr, io, v0, ops, d, 1);
    assert SlotsOf(ops, d)[0] == DotEntries(d, p)[0] && SlotsOf(ops, d)[1] == DotEntries(d, p)[1];
  }

  /** The two links of directory `j`: names, attribute 0x10 at bytes 11 and 43, its own cluster and its parent's. */
  lemma {:induction false} DirectoryOnDisk(img: seq<Byte>, g: Geometry, vbr: seq<Byte>, io: seq<Byte>, v0: Volume, ops: seq<Op>,
                                           j: nat, n: nat)
    requires BuiltBy(img, g, vbr, io, v0, ops) && j < |ops| && ops[j].DirOp? && FatSectors(g.total, n)
    ensures var o := 1064960 + 1024 * n + 2048 * (FirstOf(ops, j) - 2);
            && 0 <= o && o + 64 <= |img|
            && img[o..o + 11] == [46, 32, 32, 32, 32, 32, 32, 32, 32, 32, 32] && img[o + 11] == 0x10
            && Get16(img, o + 20) * 65536 + Get16(img, o + 26) == FirstOf(ops, j) && Get32(img, o + 28) == 0
            && img[o + 32..o + 43] == [46, 46, 32, 32, 32, 32, 32, 32, 32, 32, 32] && img[o + 43] == 0x10
            && Get16(img, o + 52) * 65536 + Get16(img, o + 58) == (if ops[j].parent == 2 then 0 else ops[j].parent)
            && Get32(img, o + 60) == 0
  {
    hide BuiltBy, EntryImage, FirstOf, DotEntries, Get16, Get32;
    var d, p := FirstOf(ops, j), ops[j].parent;
    LinkSlots(img, g, vbr, io, v0, ops, j, n);
    LinkImageInBytes(d, p);
    var o := 1064960 + 1024 * n + 2048 * (d - 2);
    EntryAt(img, o, EntryImage(DotEntries(d, p)[0]));
    EntryAt(img, o + 32, EntryImage(DotEntries(d, p)[1]));
  }

  // ---------------------------------------------------------------------
  // The image of main.
  // ---------------------------------------------------------------------

  lemma Eleven(b: seq<Byte>)
    requires |b| == 11
    ensures b == [b[0], b[1], b[2], b[3], b[4], b[5], b[6], b[7], b[8], b[9], b[10]]
  {
  }

  /** "IO.SYS" */
  lemma NameIosys()
    ensures BuilderName(IO_SYS) == [73, 79, 32, 32, 32, 32, 32, 32, 83, 89, 83]
  {
    hide BuilderName, ReaderName;
    NameInBytes(IO_SYS, 2);
    var b := BuilderName(IO_SYS);
    Eleven(b);
    assert b[0] == 73 && b[1] == 79 && b[2] == 32 && b[3] == 32 && b[4] == 32 && b[5] == 32
        && b[6] == 32 && b[7] == 32 && b[8] == 83 && b[9] == 89 && b[10] == 83;
  }

  /** "GEMIOS.ELF" */
  lemma NameGemioself()
    ensures BuilderName(GEMIOS_ELF) == [71, 69, 77, 73, 79, 83, 32, 32, 69, 76, 70]
  {
    hide BuilderName, ReaderName;
    NameInBytes(GEMIOS_ELF, 6);
    var b := BuilderName(GEMIOS_ELF);
    Eleven(b);
    assert b[0] == 71 && b[1] == 69 && b[2] == 77 && b[3] == 73 && b[4] == 79 && b[5] == 83
        && b[6] == 32 && b[7] == 32 && b[8] == 69 && b[9] == 76 && b[10] == 70;
  }

  /** "EFI" */
  lemma NameEfi()
    ensures BuilderName(EFI) == [69, 70, 73, 32, 32, 32, 32, 32, 32, 32, 32]
  {
    hide BuilderName, ReaderName;
    NameInBytes(EFI, 3);
    var b := BuilderName(EFI);
    Eleven(b);
    assert b[0] == 69 && b[1] == 70 && b[2] == 73 && b[3] == 32 && b[4] == 32 && b[5] == 32
        && b[6] == 32 && b[7] == 32 && b[8] == 32 && b[9] == 32 && b[10] == 32;
  }

  /** "BOOT" */
  lemma NameBoot()
    ensures BuilderName(BOOT) == [66, 79, 79, 84, 32, 32, 32, 32, 32, 32, 32]
  {
    hide BuilderName, ReaderName;
    NameInBytes(BOOT, 4);
    var b := BuilderName(BOOT);
    Eleven(b);
    assert b[0] == 66 && b[1] == 79 && b[2] == 79 && b[3] == 84 && b[4] == 32 && b[5] == 32
        && b[6] == 32 && b[7] == 32 && b[8] == 32 && b[9] == 32 && b[10] == 32;
  }

  /** "BOOTIA32.EFI" */
  lemma NameBootia32Efi()
    ensures BuilderName(BOOTIA32_EFI) == [66, 79, 79, 84, 73, 65, 51, 50, 69, 70, 73]
  {
    hide BuilderName, ReaderName;
    NameInBytes(BOOTIA32_EFI, 8);
    var b := BuilderName(BOOTIA32_EFI);
    Eleven(b);
    assert b[0] == 66 && b[1] == 79 && b[2] == 79 && b[3] == 84 && b[4] == 73 && b[5] == 65
        && b[6] == 51 && b[7] == 50 && b[8] == 69 && b[9] == 70 && b[10] == 73;
  }

  /** "BOOTX64.EFI" */
  lemma NameBootx64Efi()
    ensures BuilderName(BOOTX64_EFI) == [66, 79, 79, 84, 88, 54, 52, 32, 69, 70, 73]
  {
    hide BuilderName, ReaderName;
    NameInBytes(BOOTX64_EFI, 7);
    var b := BuilderName(BOOTX64_EFI);
    Eleven(b);
    assert b[0] == 66 && b[1] == 79 && b[2] == 79 && b[3] == 84 && b[4] == 88 && b[5] == 54
        && b[6] == 52 && b[7] == 32 && b[8] == 69 && b[9] == 70 && b[10] == 73;
  }

  lemma {:induction false} NextStep(ops: seq<Op>, k: nat)
    requires k < |ops|
    ensures FirstOf(ops, k + 1) == FirstOf(ops, k) + ops[k].Need()
  {
    assert ops[..k + 1][..k] == ops[..k];
  }

  lemma MainFirsts(f: Files)
    ensures var ops, efi := MainOps(f), 3 + ClustersFor(|f.io|) + ClustersFor(|f.kernel|);
            && FirstOf(ops, 0) == 3 && FirstOf(ops, 1) == 3 + ClustersFor(|f.io|) && FirstOf(ops, 2) == efi
            && FirstOf(ops, 3) == efi + 1 && FirstOf(ops, 4) == efi + 2 && FirstOf(ops, 5) == efi + 2 + ClustersFor(|f.ia32|)
            && EfiClus(f) == efi
  {
    var ops := MainOps(f);
    MainShape(f);
    assert FirstOf(ops, 0) == 3;
    hide MainOps, FirstOf;
    NextStep(ops, 0);
    NextStep(ops, 1);
    NextStep(ops, 2);
    NextStep(ops, 3);
    NextStep(ops, 4);
  }

  lemma {:induction false} MainPositions(f: Files, clusters: nat)
    requires Legal(MainOps(f), clusters)
    ensures var ops := MainOps(f);
            && Position(ops, 0) == 0 && Position(ops, 1) == 1 && Position(ops, 2) == 2
            && Position(ops, 3) == 2 && Position(ops, 4) == 2 && Position(ops, 5) == 3
  {
    var ops := MainOps(f);
    MainShape(f);
    MainFirsts(f);
    NamesAreVisible(f);
    assert LiveIn(ops[..0], 2) == LiveIn(ops[..0], EfiClus(f)) == LiveIn(ops[..0], EfiClus(f) + 1) == 0;
    hide MainOps, Legal, Position, LiveIn, BuilderName;
    forall k | 0 <= k < 6 ensures Position(ops, k) == LiveIn(ops[..k], ops[k].parent) + if ops[k].parent != 2 then 2 else 0 {
      PositionCounts(ops, clusters, k);
    }
    LiveInMain(ops, 2);
    LiveInMain(ops, EfiClus(f));
    LiveInMain(ops, EfiClus(f) + 1);
  }

  lemma {:induction false} LiveInMain(ops: seq<Op>, d: nat)
    requires |ops| == 6 && forall k :: 0 <= k < 6 ==> !LooksDeleted(ops[k].name)
    ensures LiveIn(ops[..1], d) == LiveIn(ops[..0], d) + if ops[0].parent == d then 1 else 0
    ensures LiveIn(ops[..2], d) == LiveIn(ops[..1], d) + if ops[1].parent == d then 1 else 0
    ensures LiveIn(ops[..3], d) == LiveIn(ops[..2], d) + if ops[2].parent == d then 1 else 0
    ensures LiveIn(ops[..4], d) == LiveIn(ops[..3], d) + if ops[3].parent == d then 1 else 0
    ensures LiveIn(ops[..5], d) == LiveIn(ops[..4], d) + if ops[4].parent == d then 1 else 0
  {
    hide LiveIn, BuilderName;
    LiveStep(ops, 0, d);
    LiveStep(ops, 1, d);
    LiveStep(ops, 2, d);
    LiveStep(ops, 3, d);
    LiveStep(ops, 4, d);
  }

  lemma VisibleName(f: Files, k: nat)
    requires k < 6
    ensures BuilderName(MainOps(f)[k].name)[0] != 0xE5
  {
    hide BuilderName, MainOps;
    NamesAreVisible(f);
    assert !LooksDeleted(MainOps(f)[k].name);
  }

  /** EntryOnDisk for call `k` of main, whose name is `name` in the image. */
  lemma MainEntry(img: seq<Byte>, g: Geometry, f: Files, n: nat, k: nat, name: seq<Byte>, p: nat, first: nat)
    requires BuiltFrom(img, g, f) && FatSectors(g.total, n) && k < 6 && p < 64
    requires BuilderName(MainOps(f)[k].name) == name && Position(MainOps(f), k) == p && FirstOf(MainOps(f), k) == first
    ensures var op, o := MainOps(f)[k], 1064960 + 1024 * n + 2048 * (MainOps(f)[k].parent - 2) + 32 * p;
            && 0 <= o && o + 32 <= |img|
            && img[o..o + 12] == name + [if op.DirOp? then 0x10 else 0x20]
            && Get16(img, o + 20) * 65536 + Get16(img, o + 26) == first
            && Get32(img, o + 28) == if op.FileOp? then |op.data| else 0
  {
    hide BuiltFrom, BuiltBy, MainOps, BuilderName, Position, FirstOf, Get16, Get32, Blank, Legal, FatSectors, Zeros;
    MainFacts(img, g, f);
    MainBuilds(img, g, f);
    VisibleName(f, k);
    EntryOnDisk(img, g, f.vbr, f.io, Blank(f, g), MainOps(f), k, n);
    var o := 1064960 + 1024 * n + 2048 * (MainOps(f)[k].parent - 2) + 32 * p;
    assert img[o..o + 12] == img[o..o + 11] + [img[o + 11]];
  }

  lemma MainFacts(img: seq<Byte>, g: Geometry, f: Files)
    requires BuiltFrom(img, g, f)
    ensures g.Valid() && |img| == g.Bytes() && Legal(MainOps(f), g.Clusters()) && |MainOps(f)| == 6
  {
    hide MainOps;
    MainIsLegal(f, g);
  }

  lemma {:induction false} LeftoverStep(ops: seq<Op>, k: nat, d: nat)
    requires k < |ops| && !LooksDeleted(ops[k].name)
    ensures Leftover(ops[..k + 1], d) == if ops[k].parent == d then [] else Leftover(ops[..k], d)
  {
    hide BuilderName, EntryOf;
    assert ops[..k + 1][..k] == ops[..k];
  }

  /** Three entries in the root, and no leftover behind them. */
  lemma {:induction false} MainRootSlots(f: Files, clusters: nat)
    requires Legal(MainOps(f), clusters)
    ensures |SlotsOf(MainOps(f), 2)| == 3
  {
    var ops := MainOps(f);
    MainShape(f);
    MainFirsts(f);
    NamesAreVisible(f);
    hide MainOps, Legal, IsDir, BuilderName, EntriesOf;
    EntriesCount(ops, clusters, 2);
    assert LiveIn(ops[..0], 2) == 0;
    hide LiveIn, Leftover;
    LiveInMain(ops, 2);
    LiveStep(ops, 5, 2);
    LeftoverStep(ops, 2, 2);
    LeftoverStep(ops, 3, 2);
    LeftoverStep(ops, 4, 2);
    LeftoverStep(ops, 5, 2);
  }

  lemma RootEnds(img: seq<Byte>, g: Geometry, f: Files, n: nat)
    requires BuiltFrom(img, g, f) && FatSectors(g.total, n)
    ensures 1064960 + 1024 * n + 128 <= |img| && img[1064960 + 1024 * n + 96] == 0
  {
    hide BuiltFrom, BuiltBy, MainOps, Legal, Blank, FatSectors, EntryImage, IsDir, EntriesOf, Leftover;
    MainFacts(img, g, f);
    MainBuilds(img, g, f);
    RootIsDir(MainOps(f));
    FatSectorsAre(g, n);
    MainRootSlots(f, g.Clusters());
    SlotOnDisk(img, g, f.vbr, f.io, Blank(f, g), MainOps(f), 2, 3);
    var o := 1064960 + 1024 * n + 96;
    assert img[o] == img[o..o + 32][0] == Zeros(32)[0];
  }

  /** The root directory of the image main builds: IO.SYS, GEMIOS.ELF, EFI, and nothing else. */
  lemma MainRootOnDisk(img: seq<Byte>, g: Geometry, f: Files, n: nat, root: nat)
    requires BuiltFrom(img, g, f) && FatSectors(g.total, n) && root == 1064960 + 1024 * n
    ensures && root + 128 <= |img|
            && img[root..root + 12] == [73, 79, 32, 32, 32, 32, 32, 32, 83, 89, 83, 0x20]
            && Get16(img, root + 20) * 65536 + Get16(img, root + 26) == 3 && Get32(img, root + 28) == |f.io|
            && img[root + 32..root + 44] == [71, 69, 77, 73, 79, 83, 32, 32, 69, 76, 70, 0x20]
            && Get16(img, root + 52) * 65536 + Get16(img, root + 58) == 3 + ClustersFor(|f.io|) && Get32(img, root + 60) == |f.kernel|
            && img[root + 64..root + 76] == [69, 70, 73, 32, 32, 32, 32, 32, 32, 32, 32, 0x10]
            && Get16(img, root + 84) * 65536 + Get16(img, root + 90) == 3 + ClustersFor(|f.io|) + ClustersFor(|f.kernel|)
            && Get32(img, root + 92) == 0
            && img[root + 96] == 0
  {
    hide BuiltFrom, BuiltBy, MainOps, BuilderName, Position, FirstOf, Get16, Get32, Blank, Legal;
    hide FatSectors, Zeros, ClustersFor, EfiClus;
    MainFacts(img, g, f);
    MainPositions(f, g.Clusters());
    MainShape(f);
    MainFirsts(f);
    NameIosys();
    NameGemioself();
    NameEfi();
    MainEntry(img, g, f, n, 0, BuilderName(IO_SYS), 0, 3);
    MainEntry(img, g, f, n, 1, BuilderName(GEMIOS_ELF), 1, 3 + ClustersFor(|f.io|));
    MainEntry(img, g, f, n, 2, BuilderName(EFI), 2, EfiClus(f));
    RootEnds(img, g, f, n);
  }

  /** DirectoryOnDisk for call `k` of main. */
  lemma MainLinks(img: seq<Byte>, g: Geometry, f: Files, n: nat, k: nat, first: nat)
    requires BuiltFrom(img, g, f) && FatSectors(g.total, n) && k < 6 && MainOps(f)[k].DirOp? && FirstOf(MainOps(f), k) == first
    ensures var o, parent := 1064960 + 1024 * n + 2048 * (first - 2), MainOps(f)[k].parent;
            && 0 <= o && o + 64 <= |img|
            && img[o..o + 12] == [46, 32, 32, 32, 32, 32, 32, 32, 32, 32, 32, 0x10]
            && Get16(img, o + 20) * 65536 + Get16(img, o + 26) == first
            && img[o + 32..o + 44] == [46, 46, 32, 32, 32, 32, 32, 32, 32, 32, 32, 0x10]
            && Get16(img, o + 52) * 65536 + Get16(img, o + 58) == if parent == 2 then 0 else parent
  {
    hide BuiltFrom, BuiltBy, MainOps, BuilderName, Position, FirstOf, Get16, Get32, Blank, Legal, FatSectors, Zeros;
    MainFacts(img, g, f);
    MainBuilds(img, g, f);
    DirectoryOnDisk(img, g, f.vbr, f.io, Blank(f, g), MainOps(f), k, n);
    var o := 1064960 + 1024 * n + 2048 * (first - 2);
    assert img[o..o + 12] == img[o..o + 11] + [img[o + 11]];
    assert img[o + 32..o + 44] == img[o + 32..o + 43] + [img[o + 43]];
  }

  /** The directory EFI: its links and BOOT. */
  lemma MainEfiOnDisk(img: seq<Byte>, g: Geometry, f: Files, n: nat, efi: nat, o: nat)
    requires BuiltFrom(img, g, f) && FatSectors(g.total, n)
    requires efi == 3 + ClustersFor(|f.io|) + ClustersFor(|f.kernel|) && o == 1064960 + 1024 * n + 2048 * (efi - 2)
    ensures && o + 96 <= |img|
            && img[o..o + 12] == [46, 32, 32, 32, 32, 32, 32, 32, 32, 32, 32, 0x10]
            && Get16(img, o + 20) * 65536 + Get16(img, o + 26) == efi
            && img[o + 32..o + 44] == [46, 46, 32, 32, 32, 32, 32, 32, 32, 32, 32, 0x10]
            && Get16(img, o + 52) * 65536 + Get16(img, o + 58) == 0
            && img[o + 64..o + 76] == [66, 79, 79, 84, 32, 32, 32, 32, 32, 32, 32, 0x10]
            && Get16(img, o + 84) * 65536 + Get16(img, o + 90) == efi + 1 && Get32(img, o + 92) == 0
  {
    hide BuiltFrom, BuiltBy, MainOps, BuilderName, Position, FirstOf, Get16, Get32, Blank, Legal;
    hide FatSectors, Zeros, ClustersFor, EfiClus;
    MainFacts(img, g, f);
    MainPositions(f, g.Clusters());
    MainShape(f);
    MainFirsts(f);
    NameBoot();
    MainLinks(img, g, f, n, 2, efi);
    MainEntry(img, g, f, n, 3, BuilderName(BOOT), 2, efi + 1);
  }

  /** The directory EFI/BOOT: its links and the two UEFI loaders. */
  lemma MainBootOnDisk(img: seq<Byte>, g: Geometry, f: Files, n: nat, boot: nat, o: nat)
    requires BuiltFrom(img, g, f) && FatSectors(g.total, n)
    requires boot == 4 + ClustersFor(|f.io|) + ClustersFor(|f.kernel|) && o == 1064960 + 1024 * n + 2048 * (boot - 2)
    ensures && o + 128 <= |img|
            && img[o..o + 12] == [46, 32, 32, 32, 32, 32, 32, 32, 32, 32, 32, 0x10]
            && Get16(img, o + 20) * 65536 + Get16(img, o + 26) == boot
            && img[o + 32..o + 44] == [46, 46, 32, 32, 32, 32, 32, 32, 32, 32, 32, 0x10]
            && Get16(img, o + 52) * 65536 + Get16(img, o + 58) == boot - 1
            && img[o + 64..o + 76] == [66, 79, 79, 84, 73, 65, 51, 50, 69, 70, 73, 0x20]
            && Get16(img, o + 84) * 65536 + Get16(img, o + 90) == boot + 1 && Get32(img, o + 92) == |f.ia32|
            && img[o + 96..o + 108] == [66, 79, 79, 84, 88, 54, 52, 32, 69, 70, 73, 0x20]
            && Get16(img, o + 116) * 65536 + Get16(img, o + 122) == boot + 1 + ClustersFor(|f.ia32|) && Get32(img, o + 124) == |f.x64|
  {
    hide BuiltFrom, BuiltBy, MainOps, BuilderName, Position, FirstOf, Get16, Get32, Blank, Legal;
    hide FatSectors, Zeros, ClustersFor, EfiClus;
    MainFacts(img, g, f);
    MainPositions(f, g.Clusters());
    MainShape(f);
    MainFirsts(f);
    NameBootia32Efi();
    NameBootx64Efi();
    MainLinks(img, g, f, n, 3, boot);
    MainEntry(img, g, f, n, 4, BuilderName(BOOTIA32_EFI), 2, boot + 1);
    MainEntry(img, g, f, n, 5, BuilderName(BOOTX64_EFI), 3, boot + 1 + ClustersFor(|f.ia32|));
  }

  // ---------------------------------------------------------------------
  // The first three FAT entries.
  // ---------------------------------------------------------------------

  lemma {:induction false} LowEntriesStay(v: Volume, ops: seq<Op>, c: nat)
    requires WellSized(v) && Legal(ops, |v.clus|) && c < 3 && c < |v.fat1|
    ensures Run(v, ops).fat1[c] == v.fat1[c] && Run(v, ops).fat2[c] == v.fat2[c]
  {
    if ops != [] {
      LowEntriesStay(v, ops[..|ops| - 1], c);
      LastStep(v, ops);
      hide Run;
      EffectBelow(Run(v, ops[..|ops| - 1]), Run(v, ops), NextAfter(ops[..|ops| - 1]), ops[|ops| - 1]);
    }
  }

  lemma BlankMarks(f: Files, g: Geometry)
    requires g.Valid()
    ensures var v := Blank(f, g);
            && |v.fat1| == |v.fat2| >= 3
            && v.fat1[0] == v.fat2[0] == 0x0FFF_FFF8 && v.fat1[1] == v.fat2[1] == v.fat1[2] == v.fat2[2] == 0x0FFF_FFFF
  {
    hide View, ReservedArea;
    RegionsInOrder(g);
    ZeroView(g);
  }

  lemma MainMark(img: seq<Byte>, g: Geometry, f: Files, n: nat, c: nat)
    requires BuiltFrom(img, g, f) && FatSectors(g.total, n) && c < 3
    ensures 1064960 + 512 * n + 4 * c + 4 <= |img|
    ensures Get32(img, 1064960 + 4 * c) == Get32(img, 1064960 + 512 * n + 4 * c) == if c == 0 then 0x0FFF_FFF8 else 0x0FFF_FFFF
  {
    hide View, Run, MainOps, Legal, Fits, Get32;
    FatSectorsAre(g, n);
    BlankIsFresh(f, g);
    BlankMarks(f, g);
    assert WellSized(Blank(f, g)) && View(img, g) == Run(Blank(f, g), MainOps(f));
    hide *;
    LowEntriesStay(Blank(f, g), MainOps(f), c);
    FatWord(img, g, c);
    Fat2Word(img, g, c);
  }

  /** Media mark, second mark and the root directory, in both FATs of the image main builds. */
  lemma MainMarksOnDisk(img: seq<Byte>, g: Geometry, f: Files, n: nat)
    requires BuiltFrom(img, g, f) && FatSectors(g.total, n)
    ensures 1064960 + 512 * n + 12 <= |img|
    ensures img[1064960..1064972] == [0xF8, 0xFF, 0xFF, 0x0F, 0xFF, 0xFF, 0xFF, 0x0F, 0xFF, 0xFF, 0xFF, 0x0F]
    ensures img[1064960 + 512 * n..1064960 + 512 * n + 12] == img[1064960..1064972]
  {
    hide *;
    MainMark(img, g, f, n, 0);
    MainMark(img, g, f, n, 1);
    MainMark(img, g, f, n, 2);
    Marks(img, 1064960);
    Marks(img, 1064960 + 512 * n);
  }

  lemma Marks(img: seq<Byte>, o: nat)
    requires o + 12 <= |img| && Get32(img, o) == 0x0FFF_FFF8 && Get32(img, o + 4) == Get32(img, o + 8) == 0x0FFF_FFFF
    ensures img[o..o + 12] == [0xF8, 0xFF, 0xFF, 0x0F, 0xFF, 0xFF, 0xFF, 0x0F, 0xFF, 0xFF, 0xFF, 0x0F]
  {
    hide Get32;
    WordBytes(img, o);
    WordBytes(img, o + 4);
    WordBytes(img, o + 8);
    assert img[o..o + 12] == img[o..o + 4] + img[o + 4..o + 8] + img[o + 8..o + 12];
  }
}
