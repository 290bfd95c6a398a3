/**
 * The FAT reader on any FAT16 or FAT32 volume, whoever wrote it: the volume is
 * given as bytes of a disk, and the reader finds just those bytes.
 */
module FatVolumes {
  import opened Arithmetic
  import opened Bytes
  import opened FatReader
  import opened RoundTrip

  /** A volume from sector `part` on; `wide` for FAT32. All counts are sectors, entries or clusters. */
  datatype FatVolume = FatVolume(part: nat, spc: nat, rsvd: nat, fats: nat, fatSize: nat, rootEnts: nat, total: nat,
                                 rootClus: nat, wide: bool) {

    /** The root directory of a FAT16 volume lies behind the FATs. */
    function RootLba(): nat { part + rsvd + fats * fatSize }

    /** Cluster 2. */
    function DataLba(): nat { RootLba() + (rootEnts * 32 + 511) / 512 }

    function Clusters(): int
      requires spc > 0
    {
      (part + total - DataLba()) / spc
    }

    /** What fat_init has to derive. */
    function Fs(): FatFs
      requires spc > 0 && DataLba() <= part + total
    {
      FatFs(part, spc, rsvd, fats, fatSize, RootLba(), rootEnts, DataLba(), total, Clusters(), if wide then rootClus else 0,
            if wide then 32 else 16)
    }

    /** The byte where the first FAT has its entry for cluster `c`: four bytes an entry, or two. */
    function EntryByte(c: nat): nat { 512 * (part + rsvd) + if wide then 4 * c else 2 * c }

    /** The first byte of cluster `c`. */
    function ClusterByte(c: nat): nat
      requires c >= 2
    {
      512 * (DataLba() + (c - 2) * spc)
    }
  }

  /** The boot sector says so, byte by byte. */
  predicate BootSays(img: seq<Byte>, v: FatVolume) {
    var b := 512 * v.part;
    && b + 512 <= |img|
    && img[b + 11] == 0 && img[b + 12] == 2 && img[b + 13] as int == v.spc && img[b + 16] as int == v.fats
    && img[b + 14] as int + 256 * img[b + 15] as int == v.rsvd && img[b + 17] as int + 256 * img[b + 18] as int == v.rootEnts
    && (if img[b + 19] as int + 256 * img[b + 20] as int != 0 then img[b + 19] as int + 256 * img[b + 20] as int == v.total
        else Get32(img, b + 32) == v.total)
    && (if v.wide then img[b + 22] == img[b + 23] == 0 && Get32(img, b + 36) == v.fatSize && Get32(img, b + 44) == v.rootClus
        else img[b + 22] as int + 256 * img[b + 23] as int == v.fatSize > 0)
  }

  /** The numbers fit together: a whole partition on the disk, a FAT with room for all its clusters, and the FAT type. */
  predicate Fitting(img: seq<Byte>, v: FatVolume) {
    && v.spc > 0 && v.fats > 0 && v.part + v.total < TWO32 && 512 * (v.part + v.total) <= |img|
    && v.DataLba() <= v.part + v.total
    && if v.wide then 65525 <= v.Clusters() <= 0x0FFF_FFF5 && v.Clusters() + 2 <= 128 * v.fatSize
       else 4085 <= v.Clusters() < 65525 && v.Clusters() + 2 <= 256 * v.fatSize
  }

  predicate On(img: seq<Byte>, v: FatVolume) {
    Fitting(img, v) && BootSays(img, v)
  }

  /** There are FAT16 volumes: a disk of 4119 sectors, one a cluster. */
  lemma SmallNarrow() returns (img: seq<Byte>)
    ensures On(img, FatVolume(0, 1, 1, 1, 17, 16, 4119, 0, false))
  {
    img := Patch(Zeros(512 * 4119), 11, [0, 2, 1, 1, 0, 1, 16, 0, 23, 16, 0xF8, 17, 0]);
    hide Patch, Zeros;
  }

  /** And FAT32 volumes: 66038 sectors. */
  lemma SmallWide() returns (img: seq<Byte>)
    ensures On(img, FatVolume(0, 1, 1, 1, 512, 0, 66038, 2, true))
  {
    var n := 512 * 66038;
    img := seq(n, i => if i == 32 then 0xF6 else if i == 12 || i == 37 || i == 44 then 2
                       else if i == 13 || i == 14 || i == 16 || i == 33 || i == 34 then 1 else 0);
  }

  /** No sum of the geometry wraps around. */
  lemma NoWrap(v: FatVolume)
    requires v.part + v.total < TWO32 && v.DataLba() <= v.part + v.total
    ensures var w := v.fats * v.fatSize;
            && U32(w) == w && U32(v.part + v.rsvd + w) == v.RootLba() && U32(v.DataLba()) == v.DataLba()
            && U32(v.total - (v.rsvd + w + (v.rootEnts * 32 + 511) / 512)) == v.part + v.total - v.DataLba()
  {
  }

  /** fat_init's arithmetic, with the product already taken. */
  lemma MountNumbers(b: Bpb, part: nat, total: nat, fatSize: nat, w: nat)
    requires b.bytesPerSec == 512 && b.secPerClus > 0
    requires (if b.totSec16 != 0 then b.totSec16 else b.totSec32) == total
    requires (if b.fatSz16 != 0 then b.fatSz16 else b.fatSz32) == fatSize && w == U32(b.numFats * fatSize)
    ensures var root, rootSectors := U32(part + b.rsvdSecCnt + w), (b.rootEntCnt * 32 + 511) / 512;
            var clusters := U32(total - (b.rsvdSecCnt + w + rootSectors)) / b.secPerClus;
            var kind := if clusters < 4085 then 12 else if clusters < 65525 then 16 else 32;
            Mount(b, part) == Mounted(FatFs(part, b.secPerClus, b.rsvdSecCnt, b.numFats, fatSize, root, b.rootEntCnt,
                                            U32(root + rootSectors), total, clusters, if kind == 32 then b.rootClus else 0, kind))
  {
    hide U32;
  }

  lemma MountsFrom(b: Bpb, v: FatVolume)
    requires v.spc > 0 && v.part + v.total < TWO32 && v.DataLba() <= v.part + v.total
    requires if v.wide then v.Clusters() >= 65525 else 4085 <= v.Clusters() < 65525
    requires b.bytesPerSec == 512 && b.secPerClus == v.spc && b.rsvdSecCnt == v.rsvd && b.numFats == v.fats
    requires b.rootEntCnt == v.rootEnts && (if b.totSec16 != 0 then b.totSec16 else b.totSec32) == v.total
    requires (if b.fatSz16 != 0 then b.fatSz16 else b.fatSz32) == v.fatSize && (v.wide ==> b.rootClus == v.rootClus)
    ensures Mount(b, v.part) == Mounted(v.Fs())
  {
    hide U32, Mount, FatVolume.RootLba;
    NoWrap(v);
    MountNumbers(b, v.part, v.total, v.fatSize, U32(v.fats * v.fatSize));
  }

  /** The two FAT types are told apart by the number of clusters, and the geometry is the volume's. */
  lemma MountsAsLaidOut(img: seq<Byte>, v: FatVolume)
    requires On(img, v)
    ensures v.spc > 0 && FatInit(DiskOf(img), v.part) == Mounted(v.Fs())
  {
    hide BootSays, U32, Mount, BpbOf, FatVolume.RootLba, FatVolume.DataLba, FatVolume.Clusters, FatVolume.Fs;
    BootFields(img, v);
    var s := img[512 * v.part..512 * v.part + 512];
    assert DiskOf(img)(v.part) == ReadResult.Data(s);
    MountsFrom(BpbOf(s), v);
  }

  /** The boot sector as the reader decodes it. */
  lemma BootFields(img: seq<Byte>, v: FatVolume)
    requires BootSays(img, v)
    ensures 512 * v.part + 512 <= |img|
    ensures var b := BpbOf(img[512 * v.part..512 * v.part + 512]);
            && b.bytesPerSec == 512 && b.secPerClus == v.spc && b.rsvdSecCnt == v.rsvd && b.numFats == v.fats
            && b.rootEntCnt == v.rootEnts
            && (if b.totSec16 != 0 then b.totSec16 else b.totSec32) == v.total
            && (if b.fatSz16 != 0 then b.fatSz16 else b.fatSz32) == v.fatSize
            && (v.wide ==> b.rootClus == v.rootClus)
  {
    var o := 512 * v.part;
    var s := img[o..o + 512];
    hide Get32;
    Get32InSlice(img, o, o + 512, 32);
    Get32InSlice(img, o, o + 512, 36);
    Get32InSlice(img, o, o + 512, 44);
  }

  // ---------------------------------------------------------------------
  // Chains.
  // ---------------------------------------------------------------------

  /** Numbers from 2 up to the end marks are clusters. */
  lemma LiveInNumbers(fs: FatFs, c: nat)
    ensures Live(fs, c) <==> 2 <= c < if fs.fatType == 32 then 0x0FFF_FFF8 else if fs.fatType == 16 then 0xFFF8 else 0xFF8
  {
  }

  /** The next cluster is what the FAT holds: 28 bits of four bytes, or two bytes. */
  lemma NextInBytes(img: seq<Byte>, v: FatVolume, c: nat)
    requires Fitting(img, v) && c < v.Clusters() + 2
    ensures v.EntryByte(c) + (if v.wide then 4 else 2) <= |img|
    ensures NextCluster(v.Fs(), DiskOf(img), c) ==
            if v.wide then Get32(img, v.EntryByte(c)) % 0x1000_0000
            else img[v.EntryByte(c)] as int + 256 * img[v.EntryByte(c) + 1] as int
  {
    hide Get32;
    FatInside(img, v);
    if v.wide {
      WideEntry(img, v, c);
    } else {
      NarrowEntry(img, v, c);
    }
  }

  lemma FatInside(img: seq<Byte>, v: FatVolume)
    requires Fitting(img, v)
    ensures 512 * (v.part + v.rsvd + v.fatSize) <= |img| && v.part + v.rsvd + v.fatSize < TWO32
  {
    MulAtLeast(v.fats, v.fatSize);
  }

  /** Where the entry of a cluster lies, sector and offset. */
  lemma EntrySector(v: FatVolume, c: nat)
    requires v.part + v.rsvd + v.fatSize < TWO32 && c + 1 <= (if v.wide then 128 else 256) * v.fatSize
    ensures var lba := v.part + v.rsvd + c / (if v.wide then 128 else 256);
            var o := (if v.wide then 4 else 2) * (c % if v.wide then 128 else 256);
            && lba * 512 + o == v.EntryByte(c) && lba < v.part + v.rsvd + v.fatSize && o + (if v.wide then 4 else 2) <= 512
            && (if v.wide then 4 else 2) * c / 512 == c / (if v.wide then 128 else 256)
            && (if v.wide then 4 else 2) * c % 512 == o
  {
  }

  lemma WideEntry(img: seq<Byte>, v: FatVolume, c: nat)
    requires Fitting(img, v) && v.wide && c < v.Clusters() + 2 && 512 * (v.part + v.rsvd + v.fatSize) <= |img|
    requires v.part + v.rsvd + v.fatSize < TWO32
    ensures v.EntryByte(c) + 4 <= |img|
    ensures NextCluster(v.Fs(), DiskOf(img), c) == Get32(img, v.EntryByte(c)) % 0x1000_0000
  {
    hide Get32, FatVolume.RootLba, FatVolume.DataLba, FatVolume.EntryByte, NextCluster;
    EntrySector(v, c);
    var k, o := c / 128, 4 * (c % 128);
    var lba := v.part + v.rsvd + k;
    WideStep(v.Fs(), DiskOf(img), c, k, o, img[lba * 512..lba * 512 + 512]);
    Get32InSlice(img, lba * 512, lba * 512 + 512, o);
  }

  lemma U32Small(x: nat)
    requires x < TWO32
    ensures U32(x) == x
  {
  }

  lemma NarrowStep(fs: FatFs, dev: Device, c: nat, lba: nat, o: nat, s: Sector)
    requires fs.fatType == 16 && 2 * c < TWO32 && 2 * c / 512 == lba && 2 * c % 512 == o && o + 2 <= 512
    requires fs.partLba + fs.rsvdSecCnt + lba < TWO32 && dev(fs.partLba + fs.rsvdSecCnt + lba) == ReadResult.Data(s)
    ensures NextCluster(fs, dev, c) == Get16(s, o)
  {
    hide U32, Get16;
    U32Small(2 * c);
    U32Small(fs.partLba + fs.rsvdSecCnt + lba);
    assert c * 2 == 2 * c;
  }

  lemma WideStep(fs: FatFs, dev: Device, c: nat, lba: nat, o: nat, s: Sector)
    requires fs.fatType == 32 && 4 * c < TWO32 && 4 * c / 512 == lba && 4 * c % 512 == o && o + 4 <= 512
    requires fs.partLba + fs.rsvdSecCnt + lba < TWO32 && dev(fs.partLba + fs.rsvdSecCnt + lba) == ReadResult.Data(s)
    ensures NextCluster(fs, dev, c) == Get32(s, o) % 0x1000_0000
  {
    hide U32, Get32;
    U32Small(4 * c);
    U32Small(fs.partLba + fs.rsvdSecCnt + lba);
    assert c * 4 == 4 * c;
  }

  lemma NarrowEntry(img: seq<Byte>, v: FatVolume, c: nat)
    requires Fitting(img, v) && !v.wide && c < v.Clusters() + 2 && 512 * (v.part + v.rsvd + v.fatSize) <= |img|
    requires v.part + v.rsvd + v.fatSize < TWO32
    ensures v.EntryByte(c) + 2 <= |img|
    ensures NextCluster(v.Fs(), DiskOf(img), c) == img[v.EntryByte(c)] as int + 256 * img[v.EntryByte(c) + 1] as int
  {
    hide FatVolume.RootLba, FatVolume.DataLba, FatVolume.EntryByte, NextCluster;
    EntrySector(v, c);
    var k, o := c / 256, 2 * (c % 256);
    var lba := v.part + v.rsvd + k;
    var s := img[lba * 512..lba * 512 + 512];
    NarrowStep(v.Fs(), DiskOf(img), c, k, o, s);
    assert s[o] == img[lba * 512 + o] && s[o + 1] == img[lba * 512 + o + 1];
  }

  /** What the first FAT says of cluster `c`. */
  function Link(img: seq<Byte>, v: FatVolume, c: nat): nat
    requires v.EntryByte(c) + (if v.wide then 4 else 2) <= |img|
  {
    if v.wide then Get32(img, v.EntryByte(c)) % 0x1000_0000 else img[v.EntryByte(c)] as int + 256 * img[v.EntryByte(c) + 1] as int
  }

  /** The FAT links the clusters `cs` in this order and ends behind the last one. */
  ghost predicate Linked(img: seq<Byte>, v: FatVolume, cs: seq<nat>)
    requires Fitting(img, v)
  {
    && cs != []
    && (forall a :: 0 <= a < |cs| ==> 2 <= cs[a] < v.Clusters() + 2 && v.EntryByte(cs[a]) + (if v.wide then 4 else 2) <= |img|)
    && (forall a :: 0 <= a < |cs| - 1 ==> Link(img, v, cs[a]) == cs[a + 1])
    && Link(img, v, cs[|cs| - 1]) >= if v.wide then 0x0FFF_FFF8 else 0xFFF8
  }

  /** Byte `r` of cluster `c`, as the reader gets it. */
  lemma {:induction false} ByteInCluster(img: seq<Byte>, v: FatVolume, c: nat, r: nat)
    requires Fitting(img, v) && 2 <= c < v.Clusters() + 2 && r < 512 * v.spc
    ensures v.ClusterByte(c) + r < |img|
    ensures ByteOf(v.Fs(), DiskOf(img), c, r) == Some(img[v.ClusterByte(c) + r])
  {
    var k, q := c - 2, r / 512;
    SectorInside(v, c, q);
    var lba := v.DataLba() + k * v.spc + q;
    assert Live(v.Fs(), c);
    assert U32(ClusterToLba(v.Fs(), c) + q) == lba;
    assert lba * 512 + r % 512 == v.ClusterByte(c) + r;
    assert DiskOf(img)(lba) == ReadResult.Data(img[lba * 512..lba * 512 + 512]);
  }

  lemma SectorInside(v: FatVolume, c: nat, q: nat)
    requires v.spc > 0 && v.part + v.total < TWO32 && v.DataLba() <= v.part + v.total && 2 <= c < v.Clusters() + 2 && q < v.spc
    ensures 0 <= (c - 2) * v.spc && v.DataLba() + (c - 2) * v.spc + q < v.part + v.total
    ensures U32(v.DataLba() + (c - 2) * v.spc) == v.DataLba() + (c - 2) * v.spc
    ensures U32(v.DataLba() + (c - 2) * v.spc + q) == v.DataLba() + (c - 2) * v.spc + q
  {
    hide U32, FatVolume.DataLba;
    Inside(v.part + v.total - v.DataLba(), v.spc, c, q);
    U32Small(v.DataLba() + (c - 2) * v.spc);
    U32Small(v.DataLba() + (c - 2) * v.spc + q);
  }

  lemma Inside(room: nat, spc: nat, c: nat, q: nat)
    requires spc > 0 && 2 <= c < room / spc + 2 && q < spc
    ensures 0 <= (c - 2) * spc && (c - 2) * spc + q < room
  {
    MulMono(c - 1, room / spc, spc);
    assert (c - 1) * spc == (c - 2) * spc + spc;
  }

  lemma {:induction false} ByteBehind(fs: FatFs, dev: Device, c: nat, i: nat)
    requires fs.secPerClus > 0 && Live(fs, c)
    ensures ByteOf(fs, dev, c, fs.secPerClus * 512 + i) == ByteOf(fs, dev, NextCluster(fs, dev, c), i)
  {
  }

  function Times(n: nat, k: nat): nat { n * k }

  lemma TimesStep(n: nat, k: nat)
    requires k > 0
    ensures Times(n, k) == n + Times(n, k - 1)
  {
  }

  /** The a-th cluster of the chain continues the file `a` clusters behind its start. */
  lemma {:induction false} ChainFrom(img: seq<Byte>, v: FatVolume, cs: seq<nat>, b: nat, a: nat, r: nat)
    requires Fitting(img, v) && Linked(img, v, cs) && b <= a < |cs|
    ensures ByteOf(v.Fs(), DiskOf(img), cs[b], Times(512 * v.spc, a - b) + r) == ByteOf(v.Fs(), DiskOf(img), cs[a], r)
    decreases a - b
  {
    hide ByteOf, NextCluster, DiskOf, Get32, Times, FatVolume.DataLba, FatVolume.RootLba, FatVolume.Clusters, FatVolume.EntryByte;
    var fs, dev, n := v.Fs(), DiskOf(img), 512 * v.spc;
    if b < a {
      StepOfChain(img, v, cs, b);
      ChainFrom(img, v, cs, b + 1, a, r);
      TimesStep(n, a - b);
      ByteBehind(fs, dev, cs[b], Times(n, a - b - 1) + r);
      assert fs.secPerClus * 512 + (Times(n, a - b - 1) + r) == Times(n, a - b) + r;
    } else {
      assert Times(n, 0) == 0 by { Nought(n); }
    }
  }

  lemma Nought(n: nat)
    ensures Times(n, 0) == 0
  {
  }

  lemma StepOfChain(img: seq<Byte>, v: FatVolume, cs: seq<nat>, b: nat)
    requires Fitting(img, v) && Linked(img, v, cs) && b < |cs| - 1
    ensures Live(v.Fs(), cs[b]) && NextCluster(v.Fs(), DiskOf(img), cs[b]) == cs[b + 1]
  {
    hide NextCluster, DiskOf, Get32, FatVolume.DataLba, FatVolume.RootLba, FatVolume.Clusters, FatVolume.EntryByte;
    NextInBytes(img, v, cs[b]);
    assert Link(img, v, cs[b]) == cs[b + 1];
  }

  /**
   * A file read along its chain is the bytes of its clusters in the order of
   * the chain, on FAT16 as on FAT32.
   */
  lemma ReadsItsClusters(img: seq<Byte>, v: FatVolume, cs: seq<nat>, a: nat, r: nat)
    requires On(img, v) && Linked(img, v, cs) && a < |cs| && r < 512 * v.spc
    ensures v.ClusterByte(cs[a]) + r < |img|
    ensures ByteOf(v.Fs(), DiskOf(img), cs[0], Times(512 * v.spc, a) + r) == Some(img[v.ClusterByte(cs[a]) + r])
  {
    hide ByteOf, DiskOf, BootSays, Link, FatVolume.DataLba, FatVolume.RootLba, FatVolume.Clusters, FatVolume.EntryByte;
    hide FatVolume.ClusterByte, Times;
    ChainFrom(img, v, cs, 0, a, r);
    ByteInCluster(img, v, cs[a], r);
  }

  /** Nothing is read past the end mark. */
  lemma EndsAtMark(img: seq<Byte>, v: FatVolume, cs: seq<nat>, i: nat)
    requires On(img, v) && Linked(img, v, cs)
    ensures ByteOf(v.Fs(), DiskOf(img), cs[0], Times(512 * v.spc, |cs|) + i) == None
  {
    hide ByteOf, NextCluster, DiskOf, BootSays, Times, FatVolume.DataLba, FatVolume.RootLba, FatVolume.Clusters, FatVolume.EntryByte;
    var m, n := |cs| - 1, 512 * v.spc;
    LastOfChain(img, v, cs, i);
    TimesStep(n, |cs|);
    ChainFrom(img, v, cs, 0, m, n + i);
    assert Times(n, m) + (n + i) == Times(n, |cs|) + i;
  }

  lemma LastOfChain(img: seq<Byte>, v: FatVolume, cs: seq<nat>, i: nat)
    requires Fitting(img, v) && Linked(img, v, cs)
    ensures ByteOf(v.Fs(), DiskOf(img), cs[|cs| - 1], 512 * v.spc + i) == None
  {
    hide NextCluster, DiskOf, Get32, FatVolume.DataLba, FatVolume.RootLba, FatVolume.Clusters, FatVolume.EntryByte;
    var c := cs[|cs| - 1];
    NextInBytes(img, v, c);
    var last := NextCluster(v.Fs(), DiskOf(img), c);
    assert last == Link(img, v, c) && !Live(v.Fs(), last) && Live(v.Fs(), c);
    assert ByteOf(v.Fs(), DiskOf(img), last, i) == None;
    ByteBehind(v.Fs(), DiskOf(img), c, i);
  }

  /** So fat_read_file succeeds exactly for sizes that the chain's clusters hold. */
  lemma HoldsIff(img: seq<Byte>, v: FatVolume, cs: seq<nat>, size: nat)
    requires On(img, v) && Linked(img, v, cs)
    ensures Holds(v.Fs(), DiskOf(img), cs[0], size) <==> size <= 512 * v.spc * |cs|
  {
    hide ByteOf, DiskOf, BootSays, Link, FatVolume.DataLba, FatVolume.RootLba, FatVolume.Clusters, FatVolume.EntryByte;
    var n := Times(512 * v.spc, |cs|);
    assert n == 512 * v.spc * |cs|;
    hide Times;
    if size <= n {
      forall i: nat | i < size ensures ByteOf(v.Fs(), DiskOf(img), cs[0], i).Some? {
        ByteSomewhere(img, v, cs, i);
      }
    } else {
      EndsAtMark(img, v, cs, 0);
      assert ByteOf(v.Fs(), DiskOf(img), cs[0], n + 0).None?;
    }
  }

  lemma {:induction false} ByteSomewhere(img: seq<Byte>, v: FatVolume, cs: seq<nat>, i: nat)
    requires On(img, v) && Linked(img, v, cs) && i < Times(512 * v.spc, |cs|)
    ensures ByteOf(v.Fs(), DiskOf(img), cs[0], i).Some?
  {
    hide ByteOf, DiskOf, BootSays, Link, FatVolume.DataLba, FatVolume.RootLba, FatVolume.Clusters, FatVolume.EntryByte;
    hide FatVolume.ClusterByte, Times;
    var n := 512 * v.spc;
    Split(i, n, |cs|);
    ChainFrom(img, v, cs, 0, i / n, i % n);
    ByteInCluster(img, v, cs[i / n], i % n);
  }

  lemma Split(i: nat, n: nat, k: nat)
    requires n > 0 && i < Times(n, k)
    ensures i == Times(n, i / n) + i % n && i / n < k
  {
    if i / n >= k { MulMono(k, i / n, n); }
  }

  // ---------------------------------------------------------------------
  // What does not mount and what cannot be read.
  // ---------------------------------------------------------------------

  /** fat_init refuses an unreadable boot sector and any sector size but 512, and divides by byte 13. */
  lemma MountsIff(dev: Device, part: nat)
    ensures FatInit(dev, part).InitFailed? <==>
              dev(part).ReadError? || dev(part).bytes[11] != 0 || dev(part).bytes[12] != 2
    ensures FatInit(dev, part).DivideFault? <==>
              dev(part).Data? && dev(part).bytes[11] == 0 && dev(part).bytes[12] == 2 && dev(part).bytes[13] == 0
  {
    if dev(part).Data? {
      var s := dev(part).bytes;
      assert Get16(s, 11) == 512 <==> s[11] == 0 && s[12] == 2;
      hide U32, Get32;
    }
  }

  /** A file that reaches into an unreadable sector is not read. */
  lemma UnreadableData(fs: FatFs, dev: Device, c: nat, q: nat, size: nat)
    requires fs.secPerClus > 0 && 2 <= c && q < fs.secPerClus && 512 * q < size
    requires dev((fs.dataSec + (c - 2) * fs.secPerClus + q) % 0x1_0000_0000).ReadError?
    ensures !Holds(fs, dev, c, size)
  {
    SectorNumber(fs, c, q);
    hide U32, ClusterToLba;
    UnreadableSector(fs, dev, c, q, size);
  }

  lemma UnreadableSector(fs: FatFs, dev: Device, c: nat, q: nat, size: nat)
    requires fs.secPerClus > 0 && q < fs.secPerClus && 512 * q < size && dev(U32(ClusterToLba(fs, c) + q)).ReadError?
    ensures !Holds(fs, dev, c, size)
  {
    hide U32, ClusterToLba, Live, NextCluster;
    if Live(fs, c) { SectorBytes(fs, dev, c, q, 0); }
    assert ByteOf(fs, dev, c, 512 * q + 0).None?;
  }

  lemma SectorNumber(fs: FatFs, c: nat, q: nat)
    requires c >= 2
    ensures U32(ClusterToLba(fs, c) + q) == (fs.dataSec + (c - 2) * fs.secPerClus + q) % 0x1_0000_0000
  {
    var x := fs.dataSec + (c - 2) * fs.secPerClus;
    var k := x / TWO32;
    DivUnique(x + q, TWO32, k + (x % TWO32 + q) / TWO32, (x % TWO32 + q) % TWO32);
  }

  /** A file of more than one cluster is not read past an unreadable sector of the FAT, and never on FAT12. */
  lemma UnreadableFat(fs: FatFs, dev: Device, c: nat, size: nat)
    requires fs.secPerClus > 0 && fs.secPerClus * 512 < size
    requires fs.fatType == 32 ==> dev((fs.partLba + fs.rsvdSecCnt + c * 4 % 0x1_0000_0000 / 512) % 0x1_0000_0000).ReadError?
    requires fs.fatType == 16 ==> dev((fs.partLba + fs.rsvdSecCnt + c * 2 % 0x1_0000_0000 / 512) % 0x1_0000_0000).ReadError?
    ensures !Holds(fs, dev, c, size)
  {
    var i := fs.secPerClus * 512;
    assert NextCluster(fs, dev, c) == if fs.fatType == 16 then 0xFFFF else 0x0FFF_FFFF;
    assert ByteOf(fs, dev, NextCluster(fs, dev, c), 0) == None;
    hide NextCluster;
    if Live(fs, c) { ByteBehind(fs, dev, c, 0); }
    assert ByteOf(fs, dev, c, i + 0).None?;
  }

  // ---------------------------------------------------------------------
  // The root directory of a FAT16 volume.
  // ---------------------------------------------------------------------

  /** The 32 bytes from `o` on are an entry of that name: in use, and no volume label. */
  predicate Named(img: seq<Byte>, o: nat, target: seq<Byte>)
    requires o + 32 <= |img|
  {
    img[o] != 0x00 && img[o] != 0xE5 && img[o + 11] % 16 < 8 && img[o..o + 11] == target
  }

  /** What one slot means to the lookup. */
  lemma SlotInBytes(img: seq<Byte>, lbas: seq<nat>, i: nat, target: seq<Byte>)
    requires i < 16 * |lbas| && lbas[i / 16] * 512 + 512 <= |img|
    ensures var o := 512 * lbas[i / 16] + 32 * (i % 16);
            && (Stops(DiskOf(img), lbas, i) <==> img[o] == 0x00)
            && (Hits(DiskOf(img), lbas, target, i) <==> Named(img, o, target))
            && DiskOf(img)(lbas[i / 16]).Data?
            && EntryAt(DiskOf(img)(lbas[i / 16]).bytes, i % 16) == EntryBytesAt(img, o)
  {
    var l, e := lbas[i / 16], i % 16;
    SlotBytes(img, l, e);
    var s := img[l * 512..l * 512 + 512];
    assert DiskOf(img)(l) == ReadResult.Data(s);
    hide Get16, Get32, DiskOf;
  }

  /** First cluster and size, in bytes. */
  function EntryBytesAt(img: seq<Byte>, o: nat): FindResult
    requires o + 32 <= |img|
  {
    Found(65536 * (img[o + 20] as int + 256 * img[o + 21] as int) + img[o + 26] as int + 256 * img[o + 27] as int, Get32(img, o + 28))
  }

  lemma SlotBytes(img: seq<Byte>, l: nat, e: nat)
    requires l * 512 + 512 <= |img| && e < 16
    ensures var s, o := img[l * 512..l * 512 + 512], 512 * l + 32 * e;
            && s[32 * e] == img[o] && NameAt(s, e) == img[o..o + 11] && (s[32 * e + 11] / 8 % 2 == 0 <==> img[o + 11] % 16 < 8)
            && EntryAt(s, e) == EntryBytesAt(img, o)
  {
    var s, o := img[l * 512..l * 512 + 512], 512 * l + 32 * e;
    SliceOfSlice(img, l * 512, l * 512 + 512, 32 * e, 32 * e + 11);
    Get32InSlice(img, l * 512, l * 512 + 512, 32 * e + 28);
    LabelBit(img[o + 11]);
    hide Get32;
    assert s[32 * e + 20] == img[o + 20] && s[32 * e + 21] == img[o + 21];
    assert s[32 * e + 26] == img[o + 26] && s[32 * e + 27] == img[o + 27];
  }

  lemma LabelBit(a: Byte)
    ensures a / 8 % 2 == 0 <==> a % 16 < 8
  {
  }

  /** Slot `i` of the root is the first of that name, with no end mark in front. */
  ghost predicate FirstNamed(img: seq<Byte>, root: nat, slots: nat, target: seq<Byte>, i: nat)
    requires 512 * root + 32 * slots <= |img|
  {
    && i < slots && Named(img, 512 * root + 32 * i, target)
    && forall k: nat :: k < i ==> img[512 * root + 32 * k] != 0x00 && !Named(img, 512 * root + 32 * k, target)
  }

  lemma RootInside(img: seq<Byte>, v: FatVolume)
    requires Fitting(img, v)
    ensures 512 * v.RootLba() + 512 * ((v.rootEnts * 32 + 511) / 512) <= |img|
    ensures v.RootLba() + (v.rootEnts * 32 + 511) / 512 < TWO32
  {
  }

  /** The sectors of a FAT16 root directory, in order behind the FATs. */
  lemma RootSectors(img: seq<Byte>, v: FatVolume, n: nat)
    requires Fitting(img, v) && !v.wide
    ensures var lbas := RootLbas(v.Fs(), DiskOf(img), n);
            |lbas| == (v.rootEnts * 32 + 511) / 512 && forall k :: 0 <= k < |lbas| ==> lbas[k] == v.RootLba() + k
  {
    hide FatVolume.RootLba, SectorRun, FatVolume.Clusters;
    RootInside(img, v);
  }

  /** A FAT16 lookup returns the first entry of that name in front of the end mark, and fails if there is none. */
  lemma {:induction false} FoundInNarrowRoot(img: seq<Byte>, v: FatVolume, n: nat, target: seq<Byte>)
    requires On(img, v) && !v.wide
    ensures 512 * v.RootLba() + 32 * (16 * ((v.rootEnts * 32 + 511) / 512)) <= |img|
    ensures var slots := 16 * ((v.rootEnts * 32 + 511) / 512);
            var r := Lookup(DiskOf(img), RootLbas(v.Fs(), DiskOf(img), n), target, 0);
            && (r.Found? <==> exists i: nat :: FirstNamed(img, v.RootLba(), slots, target, i))
            && forall i: nat :: FirstNamed(img, v.RootLba(), slots, target, i) ==> r == EntryBytesAt(img, 512 * v.RootLba() + 32 * i)
  {
    hide Lookup, RootLbas, BootSays, Named, EntryBytesAt, FatVolume.RootLba, FatVolume.Clusters, DiskOf, Stops, Hits;
    RootInside(img, v);
    RootSectors(img, v, n);
    var lbas, slots := RootLbas(v.Fs(), DiskOf(img), n), 16 * ((v.rootEnts * 32 + 511) / 512);
    LookupIsFirstHit(DiskOf(img), lbas, target);
    forall i: nat
      ensures FirstHit(DiskOf(img), lbas, target, i) <==> FirstNamed(img, v.RootLba(), slots, target, i)
      ensures FirstHit(DiskOf(img), lbas, target, i) ==>
                && DiskOf(img)(lbas[i / 16]).Data?
                && EntryAt(DiskOf(img)(lbas[i / 16]).bytes, i % 16) == EntryBytesAt(img, 512 * v.RootLba() + 32 * i)
    {
      SameFirst(img, lbas, v.RootLba(), target, i);
    }
  }

  lemma SameFirst(img: seq<Byte>, lbas: seq<nat>, root: nat, target: seq<Byte>, i: nat)
    requires 512 * (root + |lbas|) <= |img| && forall k :: 0 <= k < |lbas| ==> lbas[k] == root + k
    ensures FirstHit(DiskOf(img), lbas, target, i) <==> FirstNamed(img, root, 16 * |lbas|, target, i)
    ensures FirstHit(DiskOf(img), lbas, target, i) ==>
              && DiskOf(img)(lbas[i / 16]).Data?
              && EntryAt(DiskOf(img)(lbas[i / 16]).bytes, i % 16) == EntryBytesAt(img, 512 * root + 32 * i)
  {
    hide Named, EntryBytesAt, DiskOf, Stops, Hits, EntryAt;
    var dev := DiskOf(img);
    if i < 16 * |lbas| { SlotOfRoot(img, lbas, root, target, i); }
    if FirstHit(dev, lbas, target, i) {
      forall k: nat | k < i ensures img[512 * root + 32 * k] != 0x00 && !Named(img, 512 * root + 32 * k, target) {
        SlotOfRoot(img, lbas, root, target, k);
      }
    }
    if FirstNamed(img, root, 16 * |lbas|, target, i) {
      forall k: nat | k < i ensures !Stops(dev, lbas, k) && !Hits(dev, lbas, target, k) {
        SlotOfRoot(img, lbas, root, target, k);
      }
    }
  }

  lemma SlotOfRoot(img: seq<Byte>, lbas: seq<nat>, root: nat, target: seq<Byte>, k: nat)
    requires 512 * (root + |lbas|) <= |img| && k < 16 * |lbas|
    requires forall q :: 0 <= q < |lbas| ==> lbas[q] == root + q
    ensures Stops(DiskOf(img), lbas, k) <==> img[512 * root + 32 * k] == 0x00
    ensures Hits(DiskOf(img), lbas, target, k) <==> Named(img, 512 * root + 32 * k, target)
    ensures DiskOf(img)(lbas[k / 16]).Data?
    ensures EntryAt(DiskOf(img)(lbas[k / 16]).bytes, k % 16) == EntryBytesAt(img, 512 * root + 32 * k)
  {
    hide Named, EntryBytesAt, DiskOf, Stops, Hits, EntryAt;
    SlotInBytes(img, lbas, k, target);
    assert 512 * lbas[k / 16] + 32 * (k % 16) == 512 * root + 32 * k;
  }
}
