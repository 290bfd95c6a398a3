/** Where the regions of the FAT32 partition lie in the disk image, and the image seen as a volume. */
module Layout {
  import opened Bytes

  const SECTOR_SIZE := 512
  const SEC_PER_CLUS := 4
  const PARTITION_START_LBA := 2048
  const RSVD_SEC_CNT := 32
  const NUM_FATS := 2
  const ROOT_CLUS := 2

  /**
   * The numbers mkdisk derives from the disk size. `total` is TOTAL_SECTORS,
   * fixed to 256 MB in the source and left symbolic here.
   */
  datatype Geometry = Geometry(total: nat) {

    function PartitionSectors(): int {
      total - PARTITION_START_LBA
    }

    function FatStart(): nat {
      PARTITION_START_LBA + RSVD_SEC_CNT
    }

    function FatSize(): nat
      requires PartitionSectors() >= RSVD_SEC_CNT
    {
      ((PartitionSectors() - RSVD_SEC_CNT) / SEC_PER_CLUS * 4 + SECTOR_SIZE - 1) / SECTOR_SIZE
    }

    function DataStart(): nat
      requires PartitionSectors() >= RSVD_SEC_CNT
    {
      FatStart() + NUM_FATS * FatSize()
    }

    /** Whole clusters between the start of the data area and the end of the disk. */
    function Clusters(): nat
      requires PartitionSectors() >= RSVD_SEC_CNT
    {
      if total < DataStart() then 0 else (total - DataStart()) / SEC_PER_CLUS
    }

    /** The image fits a 32-bit byte offset and the volume is a FAT32 one. */
    predicate Valid() {
      && 2 * 2048 <= total <= 0x80_0000
      && Clusters() >= 65525
    }

    // Byte offsets of the regions.
    function Fat1At(): nat { FatStart() * 512 }
    function Fat2At(): nat requires Valid() { (FatStart() + FatSize()) * 512 }
    function DataAt(): nat requires Valid() { DataStart() * 512 }
    function TailAt(): nat requires Valid() { DataAt() + Clusters() * 2048 }
    function Bytes(): nat { total * 512 }
  }

  /**
   * The FAT is sized before its own sectors are taken off the data area; it
   * still has an entry for every cluster number in use, 2 to Clusters() + 1,
   * once it is at least four sectors long.
   */
  lemma FatCoversClusters(g: Geometry)
    requires g.PartitionSectors() >= RSVD_SEC_CNT
    requires g.FatSize() >= 4
    ensures g.Clusters() + 2 <= g.FatSize() * (SECTOR_SIZE / 4)
  {
  }

  lemma RegionsInOrder(g: Geometry)
    requires g.Valid()
    ensures g.Fat1At() + g.FatSize() * 512 == g.Fat2At()
    ensures g.Fat2At() + g.FatSize() * 512 == g.DataAt()
    ensures g.TailAt() <= g.Bytes() <= TWO32
    ensures g.FatSize() >= 4
    ensures g.Clusters() + 2 <= g.FatSize() * 128
    ensures g.Clusters() + 2 < 0x0FFF_FFF8
  {
  }

  /**
   * The geometry in numbers: the FAT is the least number of sectors that hold
   * 128 entries each for the clusters it is sized for, the data area follows
   * both copies.
   */
  lemma GeometryInNumbers(g: Geometry)
    requires g.Valid()
    ensures 128 * (g.FatSize() - 1) < (g.total - 2080) / 4 <= 128 * g.FatSize()
    ensures g.PartitionSectors() == g.total - 2048 && g.FatStart() == 2080 && g.DataStart() == 2080 + 2 * g.FatSize()
    ensures g.Clusters() == (g.total - 2080 - 2 * g.FatSize()) / 4
    ensures g.Fat1At() == 1064960 && g.Fat2At() == 1064960 + 512 * g.FatSize() && g.DataAt() == 1064960 + 1024 * g.FatSize()
    ensures g.Bytes() == 512 * g.total
  {
  }

  /** The disk the source fixes, 256 MB. */
  lemma DefaultDisk()
    ensures var g := Geometry(524288);
            g.Valid() && g.FatSize() == 1020 && g.DataStart() == 4120 && g.Clusters() == 130042
  {
  }

  /** `region` cut into whole clusters. */
  function Chunks(region: seq<Byte>): (c: seq<seq<Byte>>)
    ensures |c| == |region| / 2048
    ensures forall k :: 0 <= k < |c| ==> c[k] == region[2048 * k..2048 * k + 2048]
  {
    seq(|region| / 2048, k requires 0 <= k < |region| / 2048 => region[2048 * k..2048 * k + 2048])
  }

  lemma PatchChunk(region: seq<Byte>, k: nat, o: nat, b: seq<Byte>)
    requires o + |b| <= 2048 && 2048 * k + 2048 <= |region|
    ensures Chunks(Patch(region, 2048 * k + o, b)) == Chunks(region)[k := Patch(Chunks(region)[k], o, b)]
  {
    var t := Patch(region, 2048 * k + o, b);
    forall j | 0 <= j < |region| / 2048
      ensures Chunks(t)[j] == Chunks(region)[k := Patch(Chunks(region)[k], o, b)][j]
    {
      if j == k {
        PatchInside(region, 2048 * k + o, b, 2048 * k, 2048 * k + 2048);
      } else {
        PatchOutside(region, 2048 * k + o, b, 2048 * j, 2048 * j + 2048);
      }
    }
  }

  /**
   * The whole image as a volume: the sectors in front of the FATs, the two
   * FATs as 32-bit words, the clusters (cluster 2 first) and what is left.
   */
  datatype Volume = Volume(reserved: seq<Byte>, fat1: seq<nat>, fat2: seq<nat>, clus: seq<seq<Byte>>, tail: seq<Byte>)

  function View(img: seq<Byte>, g: Geometry): (v: Volume)
    requires g.Valid() && |img| == g.Bytes()
    ensures |v.reserved| == g.Fat1At()
    ensures |v.fat1| == |v.fat2| == g.FatSize() * 128
    ensures |v.clus| == g.Clusters()
    ensures forall k :: 0 <= k < |v.clus| ==> |v.clus[k]| == 2048
  {
    RegionsInOrder(g);
    Volume(img[..g.Fat1At()], Words(img[g.Fat1At()..g.Fat2At()]), Words(img[g.Fat2At()..g.DataAt()]),
           Chunks(img[g.DataAt()..g.TailAt()]), img[g.TailAt()..])
  }

  /** One FAT entry of the view, in the image. */
  lemma FatWord(img: seq<Byte>, g: Geometry, c: nat)
    requires g.Valid() && |img| == g.Bytes() && c < g.FatSize() * 128
    ensures g.Fat1At() + 4 * c + 4 <= |img|
    ensures View(img, g).fat1[c] == Get32(img, g.Fat1At() + 4 * c)
  {
    RegionsInOrder(g);
    Get32InSlice(img, g.Fat1At(), g.Fat2At(), 4 * c);
  }

  lemma Fat2Word(img: seq<Byte>, g: Geometry, c: nat)
    requires g.Valid() && |img| == g.Bytes() && c < g.FatSize() * 128
    ensures g.Fat2At() + 4 * c + 4 <= |img|
    ensures View(img, g).fat2[c] == Get32(img, g.Fat2At() + 4 * c)
  {
    RegionsInOrder(g);
    Get32InSlice(img, g.Fat2At(), g.DataAt(), 4 * c);
  }

  /** One cluster of the view, in the image. */
  lemma ClusterSlice(img: seq<Byte>, g: Geometry, c: nat)
    requires g.Valid() && |img| == g.Bytes() && 2 <= c < g.Clusters() + 2
    ensures g.DataAt() + 2048 * (c - 2) + 2048 <= |img|
    ensures View(img, g).clus[c - 2] == img[g.DataAt() + 2048 * (c - 2)..g.DataAt() + 2048 * (c - 2) + 2048]
  {
    RegionsInOrder(g);
    SliceOfSlice(img, g.DataAt(), g.TailAt(), 2048 * (c - 2), 2048 * (c - 2) + 2048);
  }

  lemma ViewOfReservedPatch(img: seq<Byte>, g: Geometry, o: nat, b: seq<Byte>)
    requires g.Valid() && |img| == g.Bytes() && o + |b| <= g.Fat1At()
    ensures g.Fat1At() <= |img|
    ensures View(Patch(img, o, b), g) == View(img, g).(reserved := Patch(View(img, g).reserved, o, b))
  {
    RegionsInOrder(g);
    PatchInside(img, o, b, 0, g.Fat1At());
    assert Patch(img, o, b)[..g.Fat1At()] == Patch(img, o, b)[0..g.Fat1At()];
    assert img[..g.Fat1At()] == img[0..g.Fat1At()];
    PatchOutside(img, o, b, g.Fat1At(), g.Fat2At());
    PatchOutside(img, o, b, g.Fat2At(), g.DataAt());
    PatchOutside(img, o, b, g.DataAt(), g.TailAt());
    PatchOutside(img, o, b, g.TailAt(), |img|);
  }

  lemma ViewOfFat1Patch(img: seq<Byte>, g: Geometry, c: nat, v: nat)
    requires g.Valid() && |img| == g.Bytes() && c < g.FatSize() * 128 && v < TWO32
    ensures g.Fat1At() + 4 * c + 4 <= |img|
    ensures View(Patch(img, g.Fat1At() + 4 * c, LE32(v)), g) == View(img, g).(fat1 := View(img, g).fat1[c := v])
  {
    hide LE32, Words, Chunks, Patch, Geometry.FatSize, Geometry.Clusters;
    RegionsInOrder(g);
    var o := g.Fat1At() + 4 * c;
    PatchOutside(img, o, LE32(v), 0, g.Fat1At());
    PatchInside(img, o, LE32(v), g.Fat1At(), g.Fat2At());
    PatchWord(img[g.Fat1At()..g.Fat2At()], c, v);
    PatchOutside(img, o, LE32(v), g.Fat2At(), g.DataAt());
    PatchOutside(img, o, LE32(v), g.DataAt(), g.TailAt());
    PatchOutside(img, o, LE32(v), g.TailAt(), |img|);
  }

  lemma ViewOfFat2Patch(img: seq<Byte>, g: Geometry, c: nat, v: nat)
    requires g.Valid() && |img| == g.Bytes() && c < g.FatSize() * 128 && v < TWO32
    ensures g.Fat2At() + 4 * c + 4 <= |img|
    ensures View(Patch(img, g.Fat2At() + 4 * c, LE32(v)), g) == View(img, g).(fat2 := View(img, g).fat2[c := v])
  {
    hide LE32, Words, Chunks, Patch, Geometry.FatSize, Geometry.Clusters;
    RegionsInOrder(g);
    var o := g.Fat2At() + 4 * c;
    PatchOutside(img, o, LE32(v), 0, g.Fat1At());
    PatchOutside(img, o, LE32(v), g.Fat1At(), g.Fat2At());
    PatchInside(img, o, LE32(v), g.Fat2At(), g.DataAt());
    PatchWord(img[g.Fat2At()..g.DataAt()], c, v);
    PatchOutside(img, o, LE32(v), g.DataAt(), g.TailAt());
    PatchOutside(img, o, LE32(v), g.TailAt(), |img|);
  }

  lemma ViewOfClusterPatch(img: seq<Byte>, g: Geometry, c: nat, o: nat, b: seq<Byte>)
    requires g.Valid() && |img| == g.Bytes() && 2 <= c < g.Clusters() + 2 && o + |b| <= 2048
    ensures g.DataAt() + 2048 * (c - 2) + o + |b| <= |img|
    ensures View(Patch(img, g.DataAt() + 2048 * (c - 2) + o, b), g)
         == View(img, g).(clus := View(img, g).clus[c - 2 := Patch(View(img, g).clus[c - 2], o, b)])
  {
    RegionsInOrder(g);
    var p := g.DataAt() + 2048 * (c - 2) + o;
    PatchOutside(img, p, b, 0, g.Fat1At());
    PatchOutside(img, p, b, g.Fat1At(), g.Fat2At());
    PatchOutside(img, p, b, g.Fat2At(), g.DataAt());
    PatchInside(img, p, b, g.DataAt(), g.TailAt());
    PatchChunk(img[g.DataAt()..g.TailAt()], c - 2, o, b);
    PatchOutside(img, p, b, g.TailAt(), |img|);
  }

  /** Nothing of the image is lost in the view: equal views are equal images. */
  lemma ViewIsInjective(a: seq<Byte>, b: seq<Byte>, g: Geometry)
    requires g.Valid() && |a| == |b| == g.Bytes() && View(a, g) == View(b, g)
    ensures a == b
  {
    RegionsInOrder(g);
    SameWords(a[g.Fat1At()..g.Fat2At()], b[g.Fat1At()..g.Fat2At()]);
    SameWords(a[g.Fat2At()..g.DataAt()], b[g.Fat2At()..g.DataAt()]);
    SameChunks(a[g.DataAt()..g.TailAt()], b[g.DataAt()..g.TailAt()]);
    Pieces(a, g.Fat1At(), g.Fat2At(), g.DataAt(), g.TailAt());
    Pieces(b, g.Fat1At(), g.Fat2At(), g.DataAt(), g.TailAt());
  }

  lemma Pieces(s: seq<Byte>, i: nat, j: nat, k: nat, l: nat)
    requires i <= j <= k <= l <= |s|
    ensures s == s[..i] + s[i..j] + s[j..k] + s[k..l] + s[l..]
  {
  }

  lemma SameWords(a: seq<Byte>, b: seq<Byte>)
    requires |a| == |b| && |a| % 4 == 0 && Words(a) == Words(b)
    ensures a == b
  {
    forall i | 0 <= i < |a| ensures a[i] == b[i] {
      var k := i / 4;
      assert Words(a)[k] == Words(b)[k];
      WordBytes(a, 4 * k);
      WordBytes(b, 4 * k);
      assert a[4 * k..4 * k + 4][i % 4] == b[4 * k..4 * k + 4][i % 4];
    }
  }

  lemma WordBytes(s: seq<Byte>, o: nat)
    requires o + 4 <= |s|
    ensures s[o..o + 4] == LE32(Get32(s, o))
  {
    var v := Get32(s, o);
    var b0, b1, b2, b3 := s[o] as int, s[o + 1] as int, s[o + 2] as int, s[o + 3] as int;
    assert v / 256 == b1 + 256 * b2 + 65536 * b3;
    assert v / 65536 == b2 + 256 * b3;
    assert v / 16777216 == b3;
    assert LE32(v) == [s[o], s[o + 1], s[o + 2], s[o + 3]];
  }

  lemma SameChunks(a: seq<Byte>, b: seq<Byte>)
    requires |a| == |b| && |a| % 2048 == 0 && Chunks(a) == Chunks(b)
    ensures a == b
  {
    forall i | 0 <= i < |a| ensures a[i] == b[i] {
      var k := i / 2048;
      assert a[2048 * k..2048 * k + 2048][i % 2048] == Chunks(a)[k][i % 2048];
      assert b[2048 * k..2048 * k + 2048][i % 2048] == Chunks(b)[k][i % 2048];
    }
  }
}
