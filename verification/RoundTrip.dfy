/** The reader undoes the builder: any run of the builder, read back through the FAT reader. */
module RoundTrip {
  import opened Bytes
  import opened Names83
  import opened Layout
  import opened BootSectors
  import opened MkDisk
  import opened Volumes
  import opened FatReader

  /** The image as the device the reader sees. */
  function DiskOf(img: seq<Byte>): Device {
    (lba: nat) => if lba * 512 + 512 <= |img| then Data(img[lba * 512..lba * 512 + 512]) else ReadError
  }

  /** What fat_init has to derive from the boot sector for the two sides to agree on the geometry. */
  function FsFor(g: Geometry): (fs: FatFs)
    requires g.PartitionSectors() >= RSVD_SEC_CNT
  {
    var fatType := if g.Clusters() < 4085 then 12 else if g.Clusters() < 65525 then 16 else 32;
    FatFs(PARTITION_START_LBA, SEC_PER_CLUS, RSVD_SEC_CNT, NUM_FATS, g.FatSize(), g.DataStart(), 0, g.DataStart(),
          g.PartitionSectors(), g.Clusters(), if fatType == 32 then ROOT_CLUS else 0, fatType)
  }

  function BuilderBpb(g: Geometry): (b: FatReader.Bpb)
    requires g.PartitionSectors() >= RSVD_SEC_CNT
  {
    FatReader.Bpb(SECTOR_SIZE, SEC_PER_CLUS, RSVD_SEC_CNT, NUM_FATS, 0, 0, 0, g.PartitionSectors(), g.FatSize(), ROOT_CLUS)
  }

  /** For every disk size the reader's geometry is the builder's; it is a FAT32 volume from 65525 clusters on. */
  lemma GeometryAgreement(g: Geometry)
    requires g.PartitionSectors() >= RSVD_SEC_CNT && g.DataStart() <= g.total <= 0x80_0000
    ensures Mount(BuilderBpb(g), PARTITION_START_LBA) == Mounted(FsFor(g))
    ensures FsFor(g).fatType == 32 <==> g.Clusters() >= 65525
  {
    var b, f := BuilderBpb(g), g.FatSize();
    assert U32(b.numFats * b.fatSz32) == 2 * f;
    assert U32(PARTITION_START_LBA + b.rsvdSecCnt + 2 * f) == g.DataStart();
    assert U32(b.totSec32 - (b.rsvdSecCnt + 2 * f + 0)) == g.total - g.DataStart();
    assert (g.total - g.DataStart()) / b.secPerClus == g.Clusters();
  }

  lemma MountBuilt(img: seq<Byte>, g: Geometry, vbr: seq<Byte>, io: seq<Byte>)
    requires g.Valid() && |img| == g.Bytes()
    requires View(img, g).reserved[2048 * 512..2080 * 512] == ReservedArea(vbr, g, io)
    ensures FatInit(DiskOf(img), PARTITION_START_LBA) == Mounted(FsFor(g))
  {
    hide Mount, Assign, InOrder, BpbFields, FsInfoFields;
    RegionsInOrder(g);
    var area := ReservedArea(vbr, g, io);
    assert area[0..512] == BootSector(vbr, g);
    assert img[2048 * 512..2048 * 512 + 512] == View(img, g).reserved[2048 * 512..2080 * 512][0..512];
    BootSectorFields(vbr, g);
    GeometryAgreement(g);
  }

  lemma FollowFat(g: Geometry, dev: Device, c: nat)
    requires g.Valid() && c < TWO28 && dev(2080 + c / 128).Data?
    ensures NextCluster(FsFor(g), dev, c) == Get32(dev(2080 + c / 128).bytes, 4 * (c % 128)) % TWO28
  {
    hide Get32;
    assert c * 4 / 512 == c / 128 && c * 4 % 512 == 4 * (c % 128);
    assert FsFor(g).partLba + FsFor(g).rsvdSecCnt == 2080 && FsFor(g).fatType == 32;
  }

  /** Following a FAT entry in the image is looking it up in the view. */
  lemma NextIsFatEntry(img: seq<Byte>, g: Geometry, c: nat)
    requires g.Valid() && |img| == g.Bytes() && c < g.FatSize() * 128
    ensures NextCluster(FsFor(g), DiskOf(img), c) == View(img, g).fat1[c] % TWO28
  {
    hide View;
    RegionsInOrder(g);
    FatWord(img, g, c);
    var lba, o := 2080 + c / 128, 4 * (c % 128);
    assert lba * 512 + o == g.Fat1At() + 4 * c;
    assert DiskOf(img)(lba) == Data(img[lba * 512..lba * 512 + 512]);
    FollowFat(g, DiskOf(img), c);
    hide NextCluster, FsFor, Get32, DiskOf;
    Get32InSlice(img, lba * 512, lba * 512 + 512, o);
  }

  lemma LbaAgrees(g: Geometry, c: nat, s: nat)
    requires g.Valid() && 2 <= c < g.Clusters() + 2 && s < 4
    ensures FatReader.ClusterToLba(FsFor(g), c) == g.DataStart() + (c - 2) * 4
    ensures U32(FatReader.ClusterToLba(FsFor(g), c) + s) == g.DataStart() + (c - 2) * 4 + s
    ensures (g.DataStart() + (c - 2) * 4 + s) * 512 == g.DataAt() + 2048 * (c - 2) + 512 * s
    ensures g.DataAt() + 2048 * (c - 2) + 512 * s + 512 <= g.TailAt()
  {
  }

  /** Sector `s` of a cluster in the image is a quarter of the cluster in the view. */
  lemma SectorOfCluster(img: seq<Byte>, g: Geometry, c: nat, s: nat)
    requires g.Valid() && |img| == g.Bytes() && 2 <= c < g.Clusters() + 2 && s < 4
    ensures DiskOf(img)(U32(FatReader.ClusterToLba(FsFor(g), c) + s)) == Data(View(img, g).clus[c - 2][512 * s..512 * s + 512])
  {
    hide FatReader.ClusterToLba, U32, FsFor, View;
    RegionsInOrder(g);
    LbaAgrees(g, c, s);
    ClusterSlice(img, g, c);
    var at := g.DataAt() + 2048 * (c - 2);
    SliceOfSlice(img, at, at + 2048, 512 * s, 512 * s + 512);
  }

  lemma FsFacts(g: Geometry)
    requires g.Valid()
    ensures FsFor(g).secPerClus == 4 && FsFor(g).fatType == 32 && FsFor(g).rootClus == 2
    ensures forall c :: 2 <= c < g.Clusters() + 2 ==> Live(FsFor(g), c)
  {
    RegionsInOrder(g);
  }

  lemma ByteOfNext(fs: FatFs, dev: Device, c: nat, i: nat)
    requires fs.secPerClus == 4 && Live(fs, c) && i >= 2048
    ensures ByteOf(fs, dev, c, i) == ByteOf(fs, dev, NextCluster(fs, dev, c), i - 2048)
  {
  }

  /** A stored file is read back byte by byte, from any of its clusters on. */
  lemma {:induction false} StoredBytes(img: seq<Byte>, g: Geometry, first: nat, data: seq<Byte>, k: nat, i: nat)
    requires g.Valid() && |img| == g.Bytes()
    requires var v := View(img, g); FileStored(v, first, data) && RunLinked(v.fat1, first, ClustersFor(|data|))
    requires 2048 * k + i < |data|
    ensures FsFor(g).secPerClus > 0 && ByteOf(FsFor(g), DiskOf(img), first + k, i) == Some(data[2048 * k + i])
    decreases i
  {
    hide View, Block, FsFor, NextCluster, Live, DiskOf, RunLinked, FileStored, ByteOf;
    RegionsInOrder(g);
    FsFacts(g);
    var v, c := View(img, g), first + k;
    NextInRun(v, first, data, k);
    if i < 2048 {
      StoredByteHere(img, g, first, data, k, i);
    } else {
      NextIsFatEntry(img, g, c);
      ByteOfNext(FsFor(g), DiskOf(img), c, i);
      StoredBytes(img, g, first, data, k + 1, i - 2048);
    }
  }

  lemma NextInRun(v: Volume, first: nat, data: seq<Byte>, k: nat)
    requires FileStored(v, first, data) && RunLinked(v.fat1, first, ClustersFor(|data|)) && 2048 * k < |data|
    ensures 2 <= first && first + k < |v.clus| + 2 && first + k < |v.fat1|
    ensures 2048 * (k + 1) < |data| ==> v.fat1[first + k] == first + k + 1
  {
  }

  lemma StoredByteHere(img: seq<Byte>, g: Geometry, first: nat, data: seq<Byte>, k: nat, i: nat)
    requires g.Valid() && |img| == g.Bytes() && FileStored(View(img, g), first, data)
    requires 2048 * k + i < |data| && i < 2048
    ensures FsFor(g).secPerClus > 0 && ByteOf(FsFor(g), DiskOf(img), first + k, i) == Some(data[2048 * k + i])
  {
    hide View, NextCluster, FsFor, DiskOf, FatReader.ClusterToLba, Live;
    FsFacts(g);
    var v, s := View(img, g), i / 512;
    SectorOfCluster(img, g, first + k, s);
    assert v.clus[first - 2 + k] == Block(data, k);
    assert Block(data, k)[512 * s..512 * s + 512][i % 512] == Block(data, k)[i];
  }

  // ---------------------------------------------------------------------
  // Looking a name up in the root directory.
  // ---------------------------------------------------------------------

  /** The first of the 64 entries a directory can show that has this name. */
  function FindIn(es: seq<Entry>, target: seq<Byte>, i: nat): (r: FindResult)
    requires i <= 64
    decreases 64 - i
  {
    if i >= |es| || i == 64 then NotFound
    else if es[i].name == target then Found(es[i].first, es[i].size)
    else FindIn(es, target, i + 1)
  }

  /** What the builder writes into an entry survives the split of the cluster number and the field widths. */
  predicate Plain(e: Entry) {
    && |e.name| == 11 && e.name[0] != 0 && e.name[0] != DELETED
    && (e.attr == ATTR_ARCHIVE || e.attr == ATTR_DIRECTORY)
    && e.first < TWO32 && e.size < TWO32
  }

  predicate AllPlain(es: seq<Entry>) {
    && (forall k :: 0 <= k < |es| ==> |es[k].name| == 11)
    && (forall k :: 0 <= k < |es| ==> Plain(es[k]))
  }

  lemma EntryFields(e: Entry)
    requires Plain(e)
    ensures var b := EntryImage(e);
            && b[0..11] == e.name && b[11] == e.attr
            && Get16(b, 20) * TWO16 + Get16(b, 26) == e.first && Get32(b, 28) == e.size
  {
    var b := EntryImage(e);
    assert b[20..22] == LE16(e.first / TWO16);
    assert b[26..28] == LE16(e.first % TWO16);
    assert b[28..32] == LE32(e.size);
    hide LE16, LE32, EntryImage;
    Slice16(b, 20, e.first / TWO16);
    Slice16(b, 26, e.first % TWO16);
    Slice32(b, 28, e.size);
  }

  lemma SlotVerdict(s: Sector, k: nat, e: Entry, target: seq<Byte>)
    requires k < 16 && Plain(e) && s[32 * k..32 * k + 32] == EntryImage(e)
    ensures s[32 * k] != 0
    ensures Matches(s, k, target) <==> e.name == target
    ensures EntryAt(s, k) == Found(e.first, e.size)
  {
    EntryFields(e);
    hide EntryImage;
    var b := s[32 * k..32 * k + 32];
    assert b[0..11] == s[32 * k..32 * k + 11] && b[0] == s[32 * k] && b[11] == s[32 * k + 11];
    assert b[0] == b[0..11][0];
    assert b[20] == s[32 * k + 20] && b[21] == s[32 * k + 21] && b[26] == s[32 * k + 26] && b[27] == s[32 * k + 27];
    assert b[28] == s[32 * k + 28] && b[29] == s[32 * k + 29] && b[30] == s[32 * k + 30] && b[31] == s[32 * k + 31];
  }

  /** The root directory of the image is the one cluster 2. */
  lemma RootIsCluster2(img: seq<Byte>, g: Geometry)
    requires g.Valid() && |img| == g.Bytes() && View(img, g).fat1[ROOT_CLUS] == EOC
    ensures EndsWithin(FsFor(g), DiskOf(img), FsFor(g).rootClus, 1)
    ensures RootLbas(FsFor(g), DiskOf(img), 1) == SectorRun(FatReader.ClusterToLba(FsFor(g), 2), 4)
  {
    hide View, NextCluster, FsFor, DiskOf, FatReader.ClusterToLba, SectorRun;
    FsFacts(g);
    RegionsInOrder(g);
    NextIsFatEntry(img, g, 2);
    assert !Live(FsFor(g), EOC);
    var dev := DiskOf(img);
    assert ChainLbas(FsFor(g), dev, EOC, 0) == [];
    assert SectorRun(FatReader.ClusterToLba(FsFor(g), 2), 4) + [] == SectorRun(FatReader.ClusterToLba(FsFor(g), 2), 4);
  }

  lemma RootSlot(img: seq<Byte>, g: Geometry, es: seq<Entry>, i: nat)
    requires g.Valid() && |img| == g.Bytes() && i < 64
    requires forall k :: 0 <= k < |es| ==> |es[k].name| == 11
    requires View(img, g).clus[0] == Render(es)
    ensures var lbas := SectorRun(FatReader.ClusterToLba(FsFor(g), 2), 4);
            var r := DiskOf(img)(lbas[i / 16]);
            r.Data? && r.bytes[32 * (i % 16)..32 * (i % 16) + 32] == if i < |es| then EntryImage(es[i]) else Zeros(32)
  {
    hide View, FsFor, DiskOf, FatReader.ClusterToLba, Render, EntryImage, SectorRun, U32;
    var q, e := i / 16, i % 16;
    SectorOfCluster(img, g, 2, q);
    RenderedSlot(es, i);
    assert 512 * q + 32 * e == 32 * i;
    SliceOfSlice(Render(es), 512 * q, 512 * q + 512, 32 * e, 32 * e + 32);
  }

  /** A leftover slot is neither the end of the directory nor a hit. */
  lemma LeftoverSkipped(s: Sector, k: nat, e: Entry, target: seq<Byte>)
    requires k < 16 && |e.name| == 11 && e.name[0] == DELETED && s[32 * k..32 * k + 32] == EntryImage(e)
    ensures s[32 * k] != 0 && !Matches(s, k, target)
  {
    hide EntryImage;
    assert s[32 * k] == s[32 * k..32 * k + 32][0];
  }

  lemma {:induction false} LookupRoot(img: seq<Byte>, g: Geometry, es: seq<Entry>, left: seq<Entry>, target: seq<Byte>, i: nat)
    requires g.Valid() && |img| == g.Bytes() && i <= 64 && AllPlain(es) && IsLeftover(left)
    requires View(img, g).clus[0] == Render(es + left)
    ensures Lookup(DiskOf(img), SectorRun(FatReader.ClusterToLba(FsFor(g), 2), 4), target, i) == FindIn(es, target, i)
    decreases 64 - i
  {
    hide View, FsFor, DiskOf, FatReader.ClusterToLba, Render, EntryImage, Matches, EntryAt, SectorRun;
    var dev, lbas := DiskOf(img), SectorRun(FatReader.ClusterToLba(FsFor(g), 2), 4);
    if i < 64 {
      RootSlot(img, g, es + left, i);
      var s := dev(lbas[i / 16]).bytes;
      if i < |es| {
        SlotVerdict(s, i % 16, es[i], target);
      } else if i < |es + left| {
        LeftoverSkipped(s, i % 16, left[0], target);
      } else {
        assert s[32 * (i % 16)] == s[32 * (i % 16)..32 * (i % 16) + 32][0] == Zeros(32)[0];
      }
      LookupRoot(img, g, es, left, target, i + 1);
    }
  }

  // ---------------------------------------------------------------------
  // The directory of a run.
  // ---------------------------------------------------------------------

  lemma {:induction false} EntriesPlain(ops: seq<Op>, clusters: nat, d: nat)
    requires Legal(ops, clusters) && clusters + 2 < TWO32
    ensures AllPlain(EntriesOf(ops, d))
  {
    if ops != [] {
      var front, op := ops[..|ops| - 1], ops[|ops| - 1];
      EntriesPlain(front, clusters, d);
      DirBelow(front, op.parent);
      LastNext(ops);
      PlainEntry(op, NextAfter(front));
      assert AllPlain(DotEntries(NextAfter(front), op.parent));
      hide BuilderName, EntryOf, DotEntries;
    }
  }

  lemma PlainEntry(op: Op, first: nat)
    requires first < TWO32 && (op.FileOp? ==> |op.data| < TWO32)
    ensures !LooksDeleted(op.name) ==> Plain(EntryOf(op, first))
  {
    hide BuilderName;
    NameStart(op.name);
  }

  /** Where the entry of the j-th object goes in its directory. */
  function Position(ops: seq<Op>, j: nat): (p: nat)
    requires j < |ops|
  {
    |EntriesOf(ops[..j], ops[j].parent)|
  }

  lemma {:induction false} EntriesPrefix(ops: seq<Op>, j: nat, d: nat)
    requires j <= |ops|
    ensures EntriesOf(ops[..j], d) <= EntriesOf(ops, d)
  {
    if j == |ops| {
      assert ops[..j] == ops;
    } else {
      var front := ops[..|ops| - 1];
      assert front[..j] == ops[..j];
      EntriesPrefix(front, j, d);
    }
  }

  lemma {:induction false} EntryAtPosition(ops: seq<Op>, clusters: nat, j: nat)
    requires Legal(ops, clusters) && j < |ops| && !LooksDeleted(ops[j].name)
    ensures Position(ops, j) < |EntriesOf(ops, ops[j].parent)|
    ensures EntriesOf(ops, ops[j].parent)[Position(ops, j)] == EntryOf(ops[j], FirstOf(ops, j))
  {
    var d, next := ops[j].parent, ops[..j + 1];
    EntriesPrefix(ops, j + 1, d);
    assert next[..j] == ops[..j] && next[j] == ops[j];
    assert EntriesOf(ops[..j], d) + [EntryOf(ops[j], FirstOf(ops, j))] <= EntriesOf(next, d);
  }

  /** In the root directory the first clusters grow from entry to entry: no two entries are confused. */
  lemma {:induction false} RootFirstsGrow(ops: seq<Op>, clusters: nat, a: nat, b: nat)
    requires Legal(ops, clusters) && a < b < |EntriesOf(ops, ROOT_CLUS)|
    ensures EntriesOf(ops, ROOT_CLUS)[a].first < EntriesOf(ops, ROOT_CLUS)[b].first
  {
    var front := ops[..|ops| - 1];
    RootFirstsBelow(front, clusters);
    if b < |EntriesOf(front, ROOT_CLUS)| {
      RootFirstsGrow(front, clusters, a, b);
    }
  }

  lemma {:induction false} RootFirstsBelow(ops: seq<Op>, clusters: nat)
    requires Legal(ops, clusters)
    ensures forall k :: 0 <= k < |EntriesOf(ops, ROOT_CLUS)| ==> EntriesOf(ops, ROOT_CLUS)[k].first < NextAfter(ops)
  {
    if ops != [] {
      RootFirstsBelow(ops[..|ops| - 1], clusters);
      LastNext(ops);
    }
  }

  ghost predicate Names(es: seq<Entry>, name: seq<Byte>) {
    exists k :: 0 <= k < |es| && es[k].name == name
  }

  predicate PutAs(op: Op, name: seq<Byte>) {
    op.parent == ROOT_CLUS && !LooksDeleted(op.name) && BuilderName(op.name) == name
  }

  ghost predicate PutInRoot(ops: seq<Op>, name: seq<Byte>) {
    exists i :: 0 <= i < |ops| && PutAs(ops[i], name)
  }

  /** The names listed in the root are those of the objects put there. */
  lemma {:induction false} RootNames(ops: seq<Op>, name: seq<Byte>)
    ensures Names(EntriesOf(ops, ROOT_CLUS), name) <==> PutInRoot(ops, name)
  {
    hide EntriesOf, BuilderName, NextAfter, LooksDeleted, Names, PutInRoot, PutAs, EntryOf;
    if ops == [] {
      NoNames(ops, name);
    } else {
      var front, op := ops[..|ops| - 1], ops[|ops| - 1];
      RootNames(front, name);
      RootStep(ops);
      var more := if op.parent == ROOT_CLUS && !LooksDeleted(op.name) then [EntryOf(op, NextAfter(front))] else [];
      NameOfMore(op, NextAfter(front), name);
      NamesAppend(EntriesOf(front, ROOT_CLUS), more, name);
      PutAppend(front, op, name);
      assert front + [op] == ops;
    }
  }

  lemma {:induction false} NoNames(ops: seq<Op>, name: seq<Byte>)
    requires ops == []
    ensures !Names(EntriesOf(ops, ROOT_CLUS), name) && !PutInRoot(ops, name)
  {
  }

  lemma NameOfMore(op: Op, first: nat, name: seq<Byte>)
    ensures PutAs(op, name) <==> op.parent == ROOT_CLUS && !LooksDeleted(op.name) && EntryOf(op, first).name == name
  {
    hide BuilderName, LooksDeleted;
  }

  lemma RootStep(ops: seq<Op>)
    requires ops != []
    ensures var front, op := ops[..|ops| - 1], ops[|ops| - 1];
            EntriesOf(ops, ROOT_CLUS) == EntriesOf(front, ROOT_CLUS)
              + if op.parent == ROOT_CLUS && !LooksDeleted(op.name) then [EntryOf(op, NextAfter(front))] else []
  {
    hide LooksDeleted, EntryOf, DotEntries;
  }

  lemma NamesAppend(es: seq<Entry>, more: seq<Entry>, name: seq<Byte>)
    requires |more| <= 1
    ensures Names(es + more, name) <==> Names(es, name) || (|more| == 1 && more[0].name == name)
  {
    var all := es + more;
    if Names(es, name) {
      var k :| 0 <= k < |es| && es[k].name == name;
      assert all[k].name == name;
    }
    if |more| == 1 { assert all[|es|] == more[0]; }
  }

  lemma PutAppend(ops: seq<Op>, op: Op, name: seq<Byte>)
    ensures PutInRoot(ops + [op], name) <==> PutInRoot(ops, name) || PutAs(op, name)
  {
    hide PutAs;
    var all := ops + [op];
    if PutInRoot(ops, name) {
      var i :| 0 <= i < |ops| && PutAs(ops[i], name);
      assert all[i] == ops[i];
    }
    assert all[|ops|] == op;
  }

  lemma {:induction false} FindInFinds(es: seq<Entry>, target: seq<Byte>, i: nat, p: nat)
    requires i <= p < |es| && i <= 64
    requires forall a, b :: 0 <= a < b < |es| ==> es[a].first != es[b].first
    requires forall k :: 0 <= k < i ==> es[k].name != target
    ensures FindIn(es, target, i) == Found(es[p].first, es[p].size)
       <==> p < 64 && es[p].name == target && forall k :: 0 <= k < p ==> es[k].name != target
    decreases 64 - i
  {
    if i == 64 {
    } else if es[i].name == target {
      if i < p { assert es[i].first != es[p].first; }
    } else if i == p {
      FindInLater(es, target, i + 1, p);
    } else {
      FindInFinds(es, target, i + 1, p);
    }
  }

  lemma {:induction false} FindInLater(es: seq<Entry>, target: seq<Byte>, i: nat, p: nat)
    requires p < i <= 64 && p < |es|
    requires forall a, b :: 0 <= a < b < |es| ==> es[a].first != es[b].first
    ensures FindIn(es, target, i) != Found(es[p].first, es[p].size)
    decreases 64 - i
  {
    if i < |es| && i < 64 {
      assert es[p].first != es[i].first;
      FindInLater(es, target, i + 1, p);
    }
  }

  // ---------------------------------------------------------------------
  // The round trip.
  // ---------------------------------------------------------------------

  /** The image that a run of the builder leaves. */
  ghost predicate BuiltBy(img: seq<Byte>, g: Geometry, vbr: seq<Byte>, io: seq<Byte>, v0: Volume, ops: seq<Op>) {
    && g.Valid() && |img| == g.Bytes()
    && Fresh(v0) && |v0.clus| == g.Clusters() && Legal(ops, g.Clusters())
    && |v0.reserved| >= 2080 * 512 && v0.reserved[2048 * 512..2080 * 512] == ReservedArea(vbr, g, io)
    && View(img, g) == Run(v0, ops)
  }

  /** What the reader's lookup returns for any name, on any image the builder can leave. */
  lemma {:induction false} LookupInBuilt(img: seq<Byte>, g: Geometry, vbr: seq<Byte>, io: seq<Byte>, v0: Volume,
                                             ops: seq<Op>, query: CString)
    requires BuiltBy(img, g, vbr, io, v0, ops)
    ensures FatInit(DiskOf(img), PARTITION_START_LBA) == Mounted(FsFor(g))
    ensures FsFor(g).fatType == 32 && EndsWithin(FsFor(g), DiskOf(img), FsFor(g).rootClus, 1)
    ensures Lookup(DiskOf(img), RootLbas(FsFor(g), DiskOf(img), 1), ReaderName(query), 0)
         == FindIn(EntriesOf(ops, ROOT_CLUS), ReaderName(query), 0)
  {
    hide View, FsFor, DiskOf, ReservedArea, Run, FatInit, Lookup, RootLbas, EndsWithin, FindIn, EntriesOf, ReaderName;
    RunInvariant(v0, ops);
    MountBuilt(img, g, vbr, io);
    FsFacts(g);
    RootIsCluster2(img, g);
    RootListed(Run(v0, ops), ops);
    RegionsInOrder(g);
    EntriesPlain(ops, g.Clusters(), ROOT_CLUS);
    LookupRoot(img, g, EntriesOf(ops, ROOT_CLUS), Leftover(ops, ROOT_CLUS), ReaderName(query), 0);
  }

  lemma {:induction false} RootListed(v: Volume, ops: seq<Op>)
    requires WellSized(v) && |v.clus| >= 1 && Listed(v, ops)
    ensures Visible(EntriesOf(ops, ROOT_CLUS)) && v.clus[0] == Render(SlotsOf(ops, ROOT_CLUS))
  {
    hide EntriesOf, SlotsOf, Render;
    RootIsDir(ops);
  }

  lemma {:induction false} RootIsDir(ops: seq<Op>)
    ensures IsDir(ops, ROOT_CLUS)
  {
    if ops != [] { RootIsDir(ops[..|ops| - 1]); }
  }

  /**
   * A root object is found by a name exactly when the name encodes to its
   * own, that name does not look deleted, no earlier root object took it, and
   * the entry got one of the 64 slots of the root cluster.
   */
  lemma {:induction false} FoundIff(img: seq<Byte>, g: Geometry, vbr: seq<Byte>, io: seq<Byte>, v0: Volume, ops: seq<Op>, j: nat,
                 query: CString)
    requires BuiltBy(img, g, vbr, io, v0, ops) && j < |ops| && ops[j].parent == ROOT_CLUS
    ensures Lookup(DiskOf(img), RootLbas(FsFor(g), DiskOf(img), 1), ReaderName(query), 0)
         == Found(FirstOf(ops, j), if ops[j].FileOp? then |ops[j].data| else 0)
       <==> && Position(ops, j) < 64 && BuilderName(ops[j].name)[0] != 0xE5
            && ReaderName(query) == BuilderName(ops[j].name)
            && forall i :: 0 <= i < j && ops[i].parent == ROOT_CLUS ==> BuilderName(ops[i].name) != ReaderName(query)
  {
    LookupInBuilt(img, g, vbr, io, v0, ops, query);
    hide BuiltBy, View, FsFor, DiskOf, Lookup, RootLbas, ReaderName, BuilderName, EntriesOf, FindIn, LooksDeleted;
    if LooksDeleted(ops[j].name) {
      LostIsNotFound(ops, g.Clusters(), j, ReaderName(query));
    } else {
      FoundInEntries(ops, g.Clusters(), j, ReaderName(query));
    }
  }

  lemma {:induction false} FoundInEntries(ops: seq<Op>, clusters: nat, j: nat, target: seq<Byte>)
    requires Legal(ops, clusters) && j < |ops| && ops[j].parent == ROOT_CLUS && !LooksDeleted(ops[j].name)
    ensures FindIn(EntriesOf(ops, ROOT_CLUS), target, 0) == Found(FirstOf(ops, j), EntryOf(ops[j], FirstOf(ops, j)).size)
       <==> && Position(ops, j) < 64 && BuilderName(ops[j].name) == target
            && forall i :: 0 <= i < j && ops[i].parent == ROOT_CLUS ==> BuilderName(ops[i].name) != target
  {
    EntryAtPosition(ops, clusters, j);
    hide BuilderName, EntriesOf, FindIn, Legal;
    var es, p := EntriesOf(ops, ROOT_CLUS), Position(ops, j);
    forall a, b | 0 <= a < b < |es| ensures es[a].first != es[b].first { RootFirstsGrow(ops, clusters, a, b); }
    FindInFinds(es, target, 0, p);
    if BuilderName(ops[j].name) == target { EarlierNames(ops, j, target); }
  }

  /** An object whose name looks deleted is not found, whatever is looked up. */
  lemma {:induction false} LostIsNotFound(ops: seq<Op>, clusters: nat, j: nat, target: seq<Byte>)
    requires Legal(ops, clusters) && j < |ops| && ops[j].parent == ROOT_CLUS && LooksDeleted(ops[j].name)
    ensures forall size :: FindIn(EntriesOf(ops, ROOT_CLUS), target, 0) != Found(FirstOf(ops, j), size)
  {
    NotListed(ops, clusters, j);
    FindInOnly(EntriesOf(ops, ROOT_CLUS), target, 0);
  }

  lemma {:induction false} NotListed(ops: seq<Op>, clusters: nat, j: nat)
    requires Legal(ops, clusters) && j < |ops| && ops[j].parent == ROOT_CLUS && LooksDeleted(ops[j].name)
    ensures forall k :: 0 <= k < |EntriesOf(ops, ROOT_CLUS)| ==> EntriesOf(ops, ROOT_CLUS)[k].first != FirstOf(ops, j)
  {
    hide LooksDeleted, BuilderName;
    var m := |ops| - 1;
    if j < m {
      NotListed(ops[..m], clusters, j);
      PrefixFirst(ops, m, j);
      NextGrows(ops, j, m);
    } else {
      RootFirstsBelow(ops[..m], clusters);
    }
  }

  lemma {:induction false} FindInOnly(es: seq<Entry>, target: seq<Byte>, i: nat)
    requires i <= 64
    ensures var r := FindIn(es, target, i); r.Found? ==> exists k :: 0 <= k < |es| && es[k].first == r.firstCluster
    decreases 64 - i
  {
    if i < |es| && i < 64 && es[i].name != target { FindInOnly(es, target, i + 1); }
  }

  lemma {:induction false} EarlierNames(ops: seq<Op>, j: nat, name: seq<Byte>)
    requires j < |ops| && ops[j].parent == ROOT_CLUS && |name| > 0 && name[0] != DELETED
    ensures Position(ops, j) <= |EntriesOf(ops, ROOT_CLUS)|
    ensures (forall k :: 0 <= k < Position(ops, j) ==> EntriesOf(ops, ROOT_CLUS)[k].name != name)
       <==> (forall i :: 0 <= i < j && ops[i].parent == ROOT_CLUS ==> BuilderName(ops[i].name) != name)
  {
    hide EntriesOf, BuilderName;
    EntriesPrefix(ops, j, ROOT_CLUS);
    RootNames(ops[..j], name);
    var early, es := EntriesOf(ops[..j], ROOT_CLUS), EntriesOf(ops, ROOT_CLUS);
    assert forall k :: 0 <= k < |early| ==> early[k] == es[k];
    assert forall i :: 0 <= i < j ==> ops[..j][i] == ops[i];
  }

  lemma {:induction false} FileFacts(v: Volume, ops: seq<Op>, j: nat)
    requires WellSized(v) && NextAfter(ops) <= |v.clus| + 2 && Chained(v, ops) && Stored(v, ops)
    requires j < |ops| && ops[j].FileOp?
    ensures RunLinked(v.fat1, FirstOf(ops, j), ClustersFor(|ops[j].data|)) && FileStored(v, FirstOf(ops, j), ops[j].data)
  {
    hide RunLinked, FileStored;
    assert RunLinked(v.fat1, FirstOf(ops, j), ops[j].Need());
  }

  /** Whatever was written is read back, in full and nothing but: first cluster, size and every byte. */
  lemma FileReadsBack(img: seq<Byte>, g: Geometry, vbr: seq<Byte>, io: seq<Byte>, v0: Volume, ops: seq<Op>, j: nat)
    requires BuiltBy(img, g, vbr, io, v0, ops) && j < |ops| && ops[j].FileOp?
    ensures FsFor(g).secPerClus > 0
    ensures Holds(FsFor(g), DiskOf(img), FirstOf(ops, j), |ops[j].data|)
    ensures forall i :: 0 <= i < |ops[j].data| ==>
              ByteOf(FsFor(g), DiskOf(img), FirstOf(ops, j), i) == Some(ops[j].data[i])
  {
    hide View, FsFor, DiskOf, ReservedArea, Run, RunLinked, FileStored, ByteOf, Chained, Stored, Listed, FirstOf;
    RunInvariant(v0, ops);
    FileFacts(Run(v0, ops), ops, j);
    FsFacts(g);
    var first, data := FirstOf(ops, j), ops[j].data;
    forall i: nat | i < |data| ensures ByteOf(FsFor(g), DiskOf(img), first, i) == Some(data[i]) {
      StoredBytes(img, g, first, data, 0, i);
    }
  }
}
