/** tools/mkdisk.c: the image builder, working in place on one flat byte buffer. */
module MkDisk {
  import opened Bytes
  import opened Names83
  import opened Layout
  import opened BootSectors
  import opened StringOps

  const EOC := 0x0FFF_FFFF
  const ATTR_DIRECTORY: Byte := 0x10
  const ATTR_ARCHIVE: Byte := 0x20
  const DELETED: Byte := 0xE5
  const WDATE := 0x5821
  const WTIME := 0x6000

  // ---------------------------------------------------------------------
  // What each step does to the volume.
  // ---------------------------------------------------------------------

  function SetFat(v: Volume, c: nat, value: nat): (r: Volume)
    requires c < |v.fat1| == |v.fat2|
  {
    v.(fat1 := v.fat1[c := value % TWO28], fat2 := v.fat2[c := value % TWO28])
  }

  /** A slot of a directory is taken by the first byte of its name. */
  predicate Free(dir: seq<Byte>, slot: nat)
    requires |dir| == 2048 && slot < 64
  {
    dir[32 * slot] == 0 || dir[32 * slot] == DELETED
  }

  /** The first free slot at or after `from`; 64 when the cluster is full. */
  function FreeSlot(dir: seq<Byte>, from: nat := 0): (i: nat)
    requires |dir| == 2048 && from <= 64
    ensures from <= i <= 64
    ensures i < 64 ==> Free(dir, i) && (dir[32 * i] == 0x00 || dir[32 * i] == 0xE5)
    ensures forall k :: from <= k < i ==> !Free(dir, k) && dir[32 * k] != 0x00 && dir[32 * k] != 0xE5
    decreases 64 - from
  {
    if from == 64 || Free(dir, from) then from else FreeSlot(dir, from + 1)
  }

  lemma {:induction false} FirstFree(dir: seq<Byte>, i: nat)
    requires |dir| == 2048 && i < 64 && Free(dir, i)
    requires forall k :: 0 <= k < i ==> !Free(dir, k)
    ensures FreeSlot(dir) == i
  {
  }

  /** A 32-byte directory entry; bytes 12 to 19 are kept from the slot. */
  function EntryBytes(slot: seq<Byte>, name: seq<Byte>, attr: Byte, first: nat, size: nat): (e: seq<Byte>)
    requires |slot| == 32 && |name| == 11
    ensures |e| == 32
  {
    name + [attr] + slot[12..20] + LE16(first / TWO16) + LE16(WTIME) + LE16(WDATE) + LE16(first % TWO16) + LE32(size)
  }

  /** The entry field by field, as it lies in the image. */
  lemma EntryInBytes(slot: seq<Byte>, name: seq<Byte>, attr: Byte, first: nat, size: nat)
    requires |slot| == 32 && |name| == 11 && first < TWO32 && size < TWO32
    ensures var e := EntryBytes(slot, name, attr, first, size);
            && e[..11] == name && e[11] == attr && e[12..20] == slot[12..20] && e[22..26] == [0x00, 0x60, 0x21, 0x58]
            && e[20] as int + 256 * e[21] as int == first / 65536 && e[26] as int + 256 * e[27] as int == first % 65536
            && e[28] as int + 256 * e[29] as int + 65536 * e[30] as int + 16777216 * e[31] as int == size
  {
    var e := EntryBytes(slot, name, attr, first, size);
    assert e[22..26] == LE16(WTIME) + LE16(WDATE) == [0x00, 0x60, 0x21, 0x58];
    GetLE16(first / TWO16);
    GetLE16(first % TWO16);
    GetLE32(size);
  }

  function AddEntry(dir: seq<Byte>, name: seq<Byte>, attr: Byte, first: nat, size: nat): (r: seq<Byte>)
    requires |dir| == 2048 && |name| == 11
    ensures |r| == 2048
  {
    var i := FreeSlot(dir);
    if i == 64 then dir else Patch(dir, 32 * i, EntryBytes(dir[32 * i..32 * i + 32], name, attr, first, size))
  }

  function AddEntryAt(v: Volume, c: nat, name: seq<Byte>, attr: Byte, first: nat, size: nat): (r: Volume)
    requires WellSized(v) && 2 <= c < |v.clus| + 2 && |name| == 11
    ensures WellSized(r) && |r.clus| == |v.clus|
  {
    v.(clus := v.clus[c - 2 := AddEntry(v.clus[c - 2], name, attr, first, size)])
  }

  /** The number of clusters a file of this size is given: never none. */
  function ClustersFor(size: nat): (n: nat)
    ensures n >= 1 && (n - 1) * 2048 <= size <= n * 2048
    ensures size > 0 ==> (n - 1) * 2048 < size
  {
    if size == 0 then 1 else (size + 2047) / 2048
  }

  /** The k-th 2048-byte block of a file, padded with zeros. */
  function Block(data: seq<Byte>, k: nat): (b: seq<Byte>)
    ensures |b| == 2048
    ensures forall i :: 0 <= i < 2048 ==> b[i] == if 2048 * k + i < |data| then data[2048 * k + i] else 0
  {
    seq(2048, i requires 0 <= i < 2048 => if 2048 * k + i < |data| then data[2048 * k + i] else 0)
  }

  /** `fat` with the clusters first .. first+n-1 linked in order and the last one ending the chain. */
  function LinkRun(fat: seq<nat>, first: nat, n: nat): (r: seq<nat>)
    ensures |r| == |fat|
    ensures forall c :: 0 <= c < |fat| ==>
              r[c] == if first <= c < first + n then (if c + 1 < first + n then c + 1 else EOC) else fat[c]
  {
    seq(|fat|, c requires 0 <= c < |fat| =>
          if first <= c < first + n then (if c + 1 < first + n then c + 1 else EOC) else fat[c])
  }

  /** The cluster area with the blocks of `data` stored in clusters first .. first+n-1. */
  function FillRun(clus: seq<seq<Byte>>, first: nat, n: nat, data: seq<Byte>): (r: seq<seq<Byte>>)
    requires first >= 2
    ensures |r| == |clus|
    ensures forall k :: 0 <= k < |clus| ==>
              r[k] == if first - 2 <= k < first - 2 + n then Block(data, k - (first - 2)) else clus[k]
  {
    seq(|clus|, k requires 0 <= k < |clus| =>
          if first - 2 <= k < first - 2 + n then Block(data, k - (first - 2)) else clus[k])
  }

  /** The volume after storing `data` in `n` fresh clusters. */
  function StoreRun(v: Volume, first: nat, n: nat, data: seq<Byte>): (r: Volume)
    requires first >= 2
  {
    v.(fat1 := LinkRun(v.fat1, first, n), fat2 := LinkRun(v.fat2, first, n), clus := FillRun(v.clus, first, n, data))
  }

  predicate WellSized(v: Volume) {
    && |v.fat1| == |v.fat2|
    && |v.clus| + 2 <= |v.fat1|
    && forall k :: 0 <= k < |v.clus| ==> |v.clus[k]| == 2048
  }

  function WriteFile(v: Volume, next: nat, parent: nat, name: CString, data: seq<Byte>): (r: Volume)
    requires WellSized(v) && next >= 2 && 2 <= parent < |v.clus| + 2
    ensures WellSized(r)
  {
    AddEntryAt(StoreRun(v, next, ClustersFor(|data|), data), parent, BuilderName(name), ATTR_ARCHIVE, next, |data|)
  }

  function MakeDirectory(v: Volume, next: nat, parent: nat, name: CString): (r: Volume)
    requires WellSized(v) && 2 <= next < |v.clus| + 2 && 2 <= parent < |v.clus| + 2
    ensures WellSized(r)
  {
    var w := AddEntryAt(StoreRun(v, next, 1, []), parent, BuilderName(name), ATTR_DIRECTORY, next, 0);
    var x := AddEntryAt(w, next, BuilderName(DOT_NAME), ATTR_DIRECTORY, next, 0);
    AddEntryAt(x, next, BuilderName(DOTDOT_NAME), ATTR_DIRECTORY, if parent == ROOT_CLUS then 0 else parent, 0)
  }

  lemma LinkEntry(name: seq<Byte>, first: nat)
    requires |name| == 11 && first < TWO32
    ensures var e := EntryBytes(Zeros(32), name, ATTR_DIRECTORY, first, 0);
            e[0..12] == name + [0x10] && Get16(e, 20) * 65536 + Get16(e, 26) == first && e[28..32] == [0, 0, 0, 0]
  {
    EntryInBytes(Zeros(32), name, ATTR_DIRECTORY, first, 0);
    hide EntryBytes;
    var e := EntryBytes(Zeros(32), name, ATTR_DIRECTORY, first, 0);
    assert e[0..12] == e[..11] + [e[11]];
  }

  lemma FirstAdded(name: seq<Byte>, first: nat)
    requires |name| == 11
    ensures AddEntry(Zeros(2048), name, ATTR_DIRECTORY, first, 0)
         == Patch(Zeros(2048), 0, EntryBytes(Zeros(32), name, ATTR_DIRECTORY, first, 0))
  {
    hide EntryBytes;
    var dir := Zeros(2048);
    FirstFree(dir, 0);
    assert dir[32 * 0..32 * 0 + 32] == Zeros(32);
  }

  lemma SecondAdded(e: seq<Byte>, name: seq<Byte>, first: nat)
    requires |e| == 32 && e[0] != 0 && e[0] != DELETED && |name| == 11
    ensures AddEntry(Patch(Zeros(2048), 0, e), name, ATTR_DIRECTORY, first, 0)
         == Patch(Patch(Zeros(2048), 0, e), 32, EntryBytes(Zeros(32), name, ATTR_DIRECTORY, first, 0))
  {
    hide EntryBytes;
    var dir := Patch(Zeros(2048), 0, e);
    FirstFree(dir, 1);
    assert dir[32 * 1..32 * 1 + 32] == Zeros(32);
  }

  lemma TwoLinks(a: seq<Byte>, b: seq<Byte>, d: nat, p: nat)
    requires |a| == |b| == 32
    requires a[0..12] == [46, 32, 32, 32, 32, 32, 32, 32, 32, 32, 32] + [0x10] && Get16(a, 20) * 65536 + Get16(a, 26) == d
    requires b[0..12] == [46, 46, 32, 32, 32, 32, 32, 32, 32, 32, 32] + [0x10] && Get16(b, 20) * 65536 + Get16(b, 26) == p
    requires a[28..32] == b[28..32] == [0, 0, 0, 0]
    ensures var dir := Patch(Patch(Zeros(2048), 0, a), 32, b);
            && dir[0..12] == [46, 32, 32, 32, 32, 32, 32, 32, 32, 32, 32, 0x10]
            && dir[32..44] == [46, 46, 32, 32, 32, 32, 32, 32, 32, 32, 32, 0x10]
            && Get16(dir, 20) * 65536 + Get16(dir, 26) == d && Get16(dir, 52) * 65536 + Get16(dir, 58) == p
            && dir[28..32] == dir[60..64] == [0, 0, 0, 0] && forall k :: 64 <= k < 2048 ==> dir[k] == 0
  {
    var dir := Patch(Patch(Zeros(2048), 0, a), 32, b);
    assert dir[0..32] == a && dir[32..64] == b;
    SliceOfSlice(dir, 0, 32, 0, 12);
    SliceOfSlice(dir, 0, 32, 28, 32);
    SliceOfSlice(dir, 32, 64, 0, 12);
    SliceOfSlice(dir, 32, 64, 28, 32);
  }

  /** A new directory in bytes: its two links, marked as directories, and zeros behind them. */
  lemma LinksOnDisk(v: Volume, next: nat, parent: nat, name: CString)
    requires WellSized(v) && 2 <= next < |v.clus| + 2 && 2 <= parent < |v.clus| + 2 && parent != next && |v.clus| + 2 < TWO32
    ensures next - 2 < |MakeDirectory(v, next, parent, name).clus|
    ensures var dir := MakeDirectory(v, next, parent, name).clus[next - 2];
            && |dir| == 2048
            && dir[0..12] == [46, 32, 32, 32, 32, 32, 32, 32, 32, 32, 32, 0x10]
            && dir[32..44] == [46, 46, 32, 32, 32, 32, 32, 32, 32, 32, 32, 0x10]
            && Get16(dir, 20) * 65536 + Get16(dir, 26) == next
            && Get16(dir, 52) * 65536 + Get16(dir, 58) == (if parent == 2 then 0 else parent)
            && dir[28..32] == dir[60..64] == [0, 0, 0, 0] && forall k :: 64 <= k < 2048 ==> dir[k] == 0
  {
    hide AddEntry, EntryBytes, BuilderName, Get16, LinkRun, FillRun;
    var p := if parent == ROOT_CLUS then 0 else parent;
    var a, b := EntryBytes(Zeros(32), BuilderName(DOT_NAME), ATTR_DIRECTORY, next, 0),
                EntryBytes(Zeros(32), BuilderName(DOTDOT_NAME), ATTR_DIRECTORY, p, 0);
    LinksInBytes();
    LinkEntry(BuilderName(DOT_NAME), next);
    LinkEntry(BuilderName(DOTDOT_NAME), p);
    assert a[0] == a[0..12][0] == 46;
    assert Block([], 0) == Zeros(2048);
    assert FillRun(v.clus, next, 1, [])[next - 2] == Zeros(2048);
    FirstAdded(BuilderName(DOT_NAME), next);
    SecondAdded(a, BuilderName(DOTDOT_NAME), p);
    TwoLinks(a, b, next, p);
  }

  /** The eight field assignments, in their order, on one slot. */
  function FieldWrites(slot: seq<Byte>, name: seq<Byte>, ext: seq<Byte>, attr: Byte, first: nat, size: nat): (r: seq<Byte>)
    requires |slot| == 32 && |name| == 8 && |ext| == 3
    ensures r == EntryBytes(slot, name + ext, attr, first, size)
  {
    var s1 := Patch(Patch(Patch(slot, 0, name), 8, ext), 11, [attr]);
    var s2 := Patch(Patch(s1, 20, LE16(first / TWO16)), 26, LE16(first % TWO16));
    Patch(Patch(Patch(s2, 28, LE32(size)), 24, LE16(WDATE)), 22, LE16(WTIME))
  }

  /** The slot's bytes in the image are the slot's bytes in the cluster of the view. */
  lemma SlotOfCluster(img: seq<Byte>, g: Geometry, c: nat, i: nat)
    requires g.Valid() && |img| == g.Bytes() && 2 <= c < g.Clusters() + 2 && i < 64
    ensures g.DataAt() + 2048 * (c - 2) + 32 * i + 32 <= |img|
    ensures img[g.DataAt() + 2048 * (c - 2) + 32 * i..g.DataAt() + 2048 * (c - 2) + 32 * i + 32]
         == View(img, g).clus[c - 2][32 * i..32 * i + 32]
  {
    hide View;
    ClusterSlice(img, g, c);
    SliceOfSlice(img, g.DataAt() + 2048 * (c - 2), g.DataAt() + 2048 * (c - 2) + 2048, 32 * i, 32 * i + 32);
  }

  /** An allocated cluster is what storing an empty file there leaves. */
  lemma FreshCluster(v: Volume, c: nat)
    requires WellSized(v) && 2 <= c < |v.clus| + 2
    ensures SetFat(v, c, EOC).(clus := v.clus[c - 2 := Zeros(2048)]) == StoreRun(v, c, 1, [])
  {
    assert Block([], 0) == Zeros(2048);
    assert SetFat(v, c, EOC).fat1 == LinkRun(v.fat1, c, 1);
    assert SetFat(v, c, EOC).fat2 == LinkRun(v.fat2, c, 1);
    assert v.clus[c - 2 := Zeros(2048)] == FillRun(v.clus, c, 1, []);
  }

  /** One more cluster: allocate, link the previous one to it, fill it. */
  function Extended(r: Volume, n: nat, first: bool): (v: Volume)
    requires 3 <= n < |r.fat1| == |r.fat2| && n - 2 < |r.clus|
    ensures |v.clus| == |r.clus|
  {
    var a := SetFat(r, n, EOC).(clus := r.clus[n - 2 := Zeros(2048)]);
    if first then a else SetFat(a, n - 1, n)
  }

  lemma StoreStep(v: Volume, start: nat, i: nat, data: seq<Byte>)
    requires WellSized(v) && 3 <= start && start + i < |v.clus| + 2 && start + i < TWO28
    ensures var e := Extended(StoreRun(v, start, i, data), start + i, i == 0);
            && e.clus[start + i - 2] == Zeros(2048)
            && e.(clus := e.clus[start + i - 2 := Block(data, i)]) == StoreRun(v, start, i + 1, data)
  {
    var n := start + i;
    var e := Extended(StoreRun(v, start, i, data), n, i == 0);
    assert e.fat1 == LinkRun(v.fat1, start, i + 1);
    assert e.fat2 == LinkRun(v.fat2, start, i + 1);
    assert e.clus[n - 2 := Block(data, i)] == FillRun(v.clus, start, i + 1, data);
  }

  /** Marking the last cluster of a run as the last changes nothing. */
  lemma StoreDone(v: Volume, start: nat, n: nat, data: seq<Byte>)
    requires WellSized(v) && 2 <= start && n >= 1 && start + n <= |v.clus| + 2
    ensures SetFat(StoreRun(v, start, n, data), start + n - 1, EOC) == StoreRun(v, start, n, data)
  {
    assert LinkRun(v.fat1, start, n)[start + n - 1 := EOC] == LinkRun(v.fat1, start, n);
    assert LinkRun(v.fat2, start, n)[start + n - 1 := EOC] == LinkRun(v.fat2, start, n);
  }

  lemma StoreNothing(v: Volume, start: nat, data: seq<Byte>)
    requires start >= 2
    ensures StoreRun(v, start, 0, data) == v
  {
    assert LinkRun(v.fat1, start, 0) == v.fat1 && LinkRun(v.fat2, start, 0) == v.fat2;
    assert FillRun(v.clus, start, 0, data) == v.clus;
  }

  lemma BlockFromCopy(data: seq<Byte>, k: nat)
    ensures 2048 * k <= |data| ==>
              var n := if |data| - 2048 * k > 2048 then 2048 else |data| - 2048 * k;
              Block(data, k) == Patch(Zeros(2048), 0, data[2048 * k..2048 * k + n])
    ensures 2048 * k >= |data| ==> Block(data, k) == Zeros(2048)
  {
  }

  /** Sector and offset of a byte come from its position. */
  lemma InSector(sector: nat, offset: nat)
    ensures (sector + offset / 512) * 512 + offset % 512 == sector * 512 + offset
  {
  }

  /** What write_file_data stores: without a source, the zeros its clusters are cleared to. */
  function Written(data: Option<seq<Byte>>, size: nat): (b: seq<Byte>)
    requires data.Some? ==> |data.value| == size
    ensures |b| == size
  {
    if data.Some? then data.value else Zeros(size)
  }

  /** What is left to copy in round `i`; without a source the counters do not matter. */
  ghost predicate Due(data: Option<seq<Byte>>, all: seq<Byte>, i: nat, src: nat, copyBytes: nat) {
    if data.Some? then
      && src == (if i * 2048 <= |all| then i * 2048 else |all|)
      && copyBytes == (if |all| - src > 2048 then 2048 else |all| - src)
    else Block(all, i) == Zeros(2048)
  }

  lemma DueNow(data: Option<seq<Byte>>, size: nat, i: nat, src: nat, copyBytes: nat)
    requires data.Some? ==> |data.value| == size
    requires data.Some? ==> src == if i * 2048 <= size then i * 2048 else size
    requires data.Some? ==> copyBytes == if size - src > 2048 then 2048 else size - src
    ensures Due(data, Written(data, size), i, src, copyBytes) && (data.Some? ==> data.value == Written(data, size))
  {
    if data.None? { assert Block(Zeros(size), i) == Zeros(2048); }
  }

  /** The volume after formatting; entries 0 and 1 of the FAT are not clusters. */
  function Formatted(v: Volume, g: Geometry, vbr: seq<Byte>, io: seq<Byte>): (r: Volume)
    requires WellSized(v) && g.Valid() && |v.clus| >= 1 && |v.reserved| >= 2080 * 512
    ensures WellSized(r)
  {
    var w := v.(reserved := Patch(v.reserved, 2048 * 512, ReservedArea(vbr, g, io)));
    SetFat(SetFat(SetFat(w, 0, 0x0FFF_FFF8), 1, EOC), ROOT_CLUS, EOC)
  }

  // ---------------------------------------------------------------------
  // The builder itself.
  // ---------------------------------------------------------------------

  class ImageBuilder {
    const total: nat            // TOTAL_SECTORS
    const disk: array<Byte>     // g_disk
    const fatStart: nat         // g_fat_start
    const fatSize: nat          // g_fat_size
    const dataStart: nat        // g_data_start
    var nextFree: nat           // g_next_free_clus

    function Geo(): Geometry {
      Geometry(total)
    }

    ghost predicate Valid()
      reads this
    {
      && Geo().Valid()
      && disk.Length == Geo().Bytes()
      && fatStart == Geo().FatStart() && fatSize == Geo().FatSize() && dataStart == Geo().DataStart()
      && 3 <= nextFree <= Geo().Clusters() + 2
    }

    ghost function Vol(): (v: Volume)
      reads this, disk
      requires Valid()
      ensures WellSized(v) && |v.clus| == Geo().Clusters() && |v.reserved| == fatStart * 512
    {
      RegionsInOrder(Geo());
      View(disk[..], Geo())
    }

    method SetFatEntry(cluster: nat, value: nat)
      requires Valid() && cluster < fatSize * 128
      modifies disk
      ensures Valid() && Vol() == SetFat(old(Vol()), cluster, value)
    {
      hide View, ImageBuilder.Vol, LE32;
      RegionsInOrder(Geo());
      var fatOffset := cluster * 4;
      var fat1Sec := fatStart + fatOffset / SECTOR_SIZE;
      var fat2Sec := fatStart + fatSize + fatOffset / SECTOR_SIZE;
      var entOffset := fatOffset % SECTOR_SIZE;
      InSector(fatStart, fatOffset);
      InSector(fatStart + fatSize, fatOffset);
      PutFat1(fat1Sec * SECTOR_SIZE + entOffset, cluster, value % TWO28);
      PutFat2(fat2Sec * SECTOR_SIZE + entOffset, cluster, value % TWO28);
    }

    method PutFat1(o: nat, ghost c: nat, v: nat)
      requires Valid() && c < fatSize * 128 && v < TWO32 && o == Geo().Fat1At() + 4 * c
      modifies disk
      ensures Valid() && Vol() == old(Vol()).(fat1 := old(Vol()).fat1[c := v])
    {
      hide View, LE32;
      ViewOfFat1Patch(disk[..], Geo(), c, v);
      MemCpy(disk, o, LE32(v));
    }

    method PutFat2(o: nat, ghost c: nat, v: nat)
      requires Valid() && c < fatSize * 128 && v < TWO32 && o == Geo().Fat2At() + 4 * c
      modifies disk
      ensures Valid() && Vol() == old(Vol()).(fat2 := old(Vol()).fat2[c := v])
    {
      hide View, LE32;
      ViewOfFat2Patch(disk[..], Geo(), c, v);
      MemCpy(disk, o, LE32(v));
    }

    function ClusterLba(cluster: nat): (lba: nat)
      requires cluster >= 2
    {
      dataStart + (cluster - 2) * SEC_PER_CLUS
    }

    method AllocateCluster() returns (clus: nat)
      requires Valid() && nextFree < Geo().Clusters() + 2
      modifies this, disk
      ensures Valid() && clus == old(nextFree) && nextFree == clus + 1
      ensures Vol() == SetFat(old(Vol()), clus, EOC).(clus := old(Vol()).clus[clus - 2 := Zeros(2048)])
    {
      hide View;
      RegionsInOrder(Geo());
      clus := nextFree;
      nextFree := nextFree + 1;
      SetFatEntry(clus, EOC);
      ViewOfClusterPatch(disk[..], Geo(), clus, 0, Zeros(2048));
      assert Patch(Vol().clus[clus - 2], 0, Zeros(2048)) == Zeros(2048);
      MemSet(disk, ClusterLba(clus) * SECTOR_SIZE, 0, SEC_PER_CLUS * SECTOR_SIZE);
      assert seq(2048, _ => 0) == Zeros(2048);
    }

    /** The field assignments of add_dir_entry on one 32-byte slot at offset `o`. */
    method FillSlot(o: nat, name: CString, attr: Byte, first: nat, size: nat)
      requires o + 32 <= disk.Length
      modifies disk
      ensures disk[..] == Patch(old(disk[..]), o, EntryBytes(old(disk[..])[o..o + 32], BuilderName(name), attr, first, size))
    {
      var oName, oExt := new Byte[8], new Byte[3];
      Format83(name, oName, oExt);
      WriteFields(o, oName[..], oExt[..], attr, first, size);
    }

    method WriteFields(o: nat, name: seq<Byte>, ext: seq<Byte>, attr: Byte, first: nat, size: nat)
      requires o + 32 <= disk.Length && |name| == 8 && |ext| == 3
      modifies disk
      ensures disk[..] == Patch(old(disk[..]), o, EntryBytes(old(disk[..])[o..o + 32], name + ext, attr, first, size))
    {
      ghost var was, slot := disk[..], disk[..][o..o + 32];
      assert was == Patch(was, o, slot);
      slot := Field(o, 0, name, was, slot);
      slot := Field(o, 8, ext, was, slot);
      slot := Field(o, 11, [attr], was, slot);
      slot := Field(o, 20, LE16(first / TWO16), was, slot);
      slot := Field(o, 26, LE16(first % TWO16), was, slot);
      slot := Field(o, 28, LE32(size), was, slot);
      slot := Field(o, 24, LE16(WDATE), was, slot);
      slot := Field(o, 22, LE16(WTIME), was, slot);
      assert slot == FieldWrites(was[o..o + 32], name, ext, attr, first, size);
    }

    /** One field of the slot at `o`; `slot` is what the slot holds so far. */
    method Field(o: nat, k: nat, b: seq<Byte>, ghost was: seq<Byte>, ghost slot: seq<Byte>) returns (ghost after: seq<Byte>)
      requires |was| == disk.Length && o + 32 <= disk.Length && |slot| == 32 && k + |b| <= 32
      requires disk[..] == Patch(was, o, slot)
      modifies disk
      ensures after == Patch(slot, k, b) && disk[..] == Patch(was, o, after)
    {
      after := Patch(slot, k, b);
      PatchNested(was, o, slot, k, b);
      MemCpy(disk, o + k, b);
    }

    method FillDirSlot(dirClus: nat, ghost i: nat, o: nat, name: CString, attr: Byte, first: nat, size: nat)
      requires Valid() && 2 <= dirClus < Geo().Clusters() + 2 && i < 64
      requires o == Geo().DataAt() + 2048 * (dirClus - 2) + 32 * i
      requires i == FreeSlot(Vol().clus[dirClus - 2])
      modifies disk
      ensures Valid() && Vol() == AddEntryAt(old(Vol()), dirClus, BuilderName(name), attr, first, size)
    {
      hide View, EntryBytes, BuilderName, FreeSlot, Free, Patch;
      SlotOfCluster(disk[..], Geo(), dirClus, i);
      ghost var dir := Vol().clus[dirClus - 2];
      ghost var e := EntryBytes(dir[32 * i..32 * i + 32], BuilderName(name), attr, first, size);
      ViewOfClusterPatch(disk[..], Geo(), dirClus, 32 * i, e);
      FillSlot(o, name, attr, first, size);
    }

    method AddDirEntry(dirClus: nat, name: CString, attr: Byte, first: nat, size: nat) returns (res: int)
      requires Valid() && 2 <= dirClus < Geo().Clusters() + 2
      modifies disk
      ensures Valid() && Vol() == AddEntryAt(old(Vol()), dirClus, BuilderName(name), attr, first, size)
      ensures res == if FreeSlot(old(Vol()).clus[dirClus - 2]) < 64 then 0 else -1
    {
      hide View;
      RegionsInOrder(Geo());
      var clusLba := ClusterLba(dirClus);
      ghost var dir := Vol().clus[dirClus - 2];
      for s := 0 to SEC_PER_CLUS
        invariant disk[..] == old(disk[..])
        invariant forall k :: 0 <= k < 16 * s ==> !Free(dir, k)
      {
        for e := 0 to SECTOR_SIZE / 32
          invariant disk[..] == old(disk[..])
          invariant forall k :: 0 <= k < 16 * s + e ==> !Free(dir, k)
        {
          var o := (clusLba + s) * SECTOR_SIZE + 32 * e;
          ghost var i := 16 * s + e;
          assert o == Geo().DataAt() + 2048 * (dirClus - 2) + 32 * i;
          SlotOfCluster(disk[..], Geo(), dirClus, i);
          assert disk[o] == disk[o..o + 32][0] == dir[32 * i..32 * i + 32][0] == dir[32 * i];
          if disk[o] == 0x00 || disk[o] == DELETED {
            FirstFree(dir, i);
            FillDirSlot(dirClus, i, o, name, attr, first, size);
            return 0;
          }
        }
      }
      return -1;
    }

    method CreateDirectory(parentClus: nat, name: CString) returns (clus: nat)
      requires Valid() && nextFree < Geo().Clusters() + 2 && 2 <= parentClus < Geo().Clusters() + 2
      modifies this, disk
      ensures Valid() && clus == old(nextFree) && nextFree == clus + 1
      ensures Vol() == MakeDirectory(old(Vol()), clus, parentClus, name)
      ensures parentClus != clus ==>
                var dir := Vol().clus[clus - 2];
                && |dir| == 2048
                && dir[0..12] == [46, 32, 32, 32, 32, 32, 32, 32, 32, 32, 32, 0x10]
                && dir[32..44] == [46, 46, 32, 32, 32, 32, 32, 32, 32, 32, 32, 0x10]
                && Get16(dir, 20) * 65536 + Get16(dir, 26) == clus
                && Get16(dir, 52) * 65536 + Get16(dir, 58) == (if parentClus == 2 then 0 else parentClus)
                && dir[28..32] == dir[60..64] == [0, 0, 0, 0] && forall k :: 64 <= k < 2048 ==> dir[k] == 0
    {
      hide View;
      RegionsInOrder(Geo());
      ghost var v := Vol();
      clus := AllocateCluster();
      FreshCluster(v, clus);
      var res := AddDirEntry(parentClus, name, ATTR_DIRECTORY, clus, 0);
      res := AddDirEntry(clus, DOT_NAME, ATTR_DIRECTORY, clus, 0);
      res := AddDirEntry(clus, DOTDOT_NAME, ATTR_DIRECTORY, if parentClus == ROOT_CLUS then 0 else parentClus, 0);
      if parentClus != clus { LinksOnDisk(v, clus, parentClus, name); }
    }

    /** Overwrites the first bytes of a cluster. */
    method FillCluster(clus: nat, b: seq<Byte>)
      requires Valid() && 2 <= clus < Geo().Clusters() + 2 && |b| <= 2048
      modifies disk
      ensures Valid() && Vol() == old(Vol()).(clus := old(Vol()).clus[clus - 2 := Patch(old(Vol()).clus[clus - 2], 0, b)])
    {
      hide View;
      RegionsInOrder(Geo());
      ViewOfClusterPatch(disk[..], Geo(), clus, 0, b);
      MemCpy(disk, ClusterLba(clus) * SECTOR_SIZE, b);
    }

    /** One round of write_file_data's loop: a fresh cluster, linked to the previous one and filled. */
    method WriteBlock(ghost v: Volume, ghost start: nat, i: nat, prevClus: nat, data: Option<seq<Byte>>, ghost all: seq<Byte>,
                      src: nat, copyBytes: nat)
      returns (clus: nat)
      requires Valid() && WellSized(v) && |v.clus| == Geo().Clusters() && (data.Some? ==> data.value == all)
      requires start >= 3 && nextFree == start + i < Geo().Clusters() + 2 && (i > 0 ==> prevClus == nextFree - 1)
      requires Vol() == StoreRun(v, start, i, all) && Due(data, all, i, src, copyBytes)
      modifies this, disk
      ensures Valid() && clus == old(nextFree) && nextFree == clus + 1
      ensures Vol() == StoreRun(v, start, i + 1, all)
    {
      hide View, StoreRun, Block, Due, Extended, SetFat, ImageBuilder.Vol;
      RegionsInOrder(Geo());
      StoreStep(v, start, i, all);
      clus := AllocateLinked(i, prevClus);
      FillBlock(clus, data, all, i, src, copyBytes);
    }

    /** The next cluster, linked to the previous one if there is one. */
    method AllocateLinked(i: nat, prevClus: nat) returns (clus: nat)
      requires Valid() && nextFree < Geo().Clusters() + 2 && (i > 0 ==> prevClus == nextFree - 1)
      modifies this, disk
      ensures Valid() && clus == old(nextFree) && nextFree == clus + 1
      ensures Vol() == Extended(old(Vol()), clus, i == 0)
    {
      hide View, ImageBuilder.Vol;
      RegionsInOrder(Geo());
      clus := AllocateCluster();
      if i > 0 {
        SetFatEntry(prevClus, clus);
      }
    }

    /** The copy of the i-th block into a cluster that was cleared. */
    method FillBlock(clus: nat, data: Option<seq<Byte>>, ghost all: seq<Byte>, ghost i: nat, src: nat, copyBytes: nat)
      requires Valid() && 2 <= clus < Geo().Clusters() + 2 && (data.Some? ==> data.value == all)
      requires Due(data, all, i, src, copyBytes) && Vol().clus[clus - 2] == Zeros(2048)
      modifies disk
      ensures Valid() && Vol() == old(Vol()).(clus := old(Vol()).clus[clus - 2 := Block(all, i)])
    {
      hide View, Block;
      BlockFromCopy(all, i);
      if copyBytes > 0 && data.Some? {
        FillCluster(clus, data.value[src..src + copyBytes]);
      } else {
        assert Vol().clus == Vol().clus[clus - 2 := Zeros(2048)];
      }
    }

    /** `data` is None where the source is called with NULL. */
    method WriteFileData(parentClus: nat, name: CString, data: Option<seq<Byte>>, size: nat) returns (firstClus: nat)
      requires Valid() && 2 <= parentClus < Geo().Clusters() + 2 && (data.Some? ==> |data.value| == size)
      requires nextFree + ClustersFor(size) <= Geo().Clusters() + 2
      modifies this, disk
      ensures Valid() && firstClus == old(nextFree) && nextFree == firstClus + ClustersFor(size)
      ensures Vol() == WriteFile(old(Vol()), firstClus, parentClus, name, Written(data, size))
    {
      hide View, StoreRun, LinkRun, FillRun, SetFat, Block, AddEntryAt, AddEntry, BuilderName, Written, Due;
      RegionsInOrder(Geo());
      var numClusters := (size + SEC_PER_CLUS * SECTOR_SIZE - 1) / (SEC_PER_CLUS * SECTOR_SIZE);
      firstClus := 0;
      var prevClus := 0;
      var src, remaining := 0, size;
      if numClusters == 0 {
        numClusters := 1;
      }
      ghost var v, all := Vol(), Written(data, size);
      ghost var start := nextFree;
      StoreNothing(v, start, all);
      for i := 0 to numClusters
        invariant Valid() && nextFree == start + i && remaining >= 0
        invariant data.Some? ==> src == (if i * 2048 <= size then i * 2048 else size) && remaining == size - src
        invariant i > 0 ==> firstClus == start && prevClus == start + i - 1
        invariant Vol() == StoreRun(v, start, i, all)
      {
        var copyBytes := if remaining > SEC_PER_CLUS * SECTOR_SIZE then SEC_PER_CLUS * SECTOR_SIZE else remaining;
        DueNow(data, size, i, src, copyBytes);
        var clus := WriteBlock(v, start, i, prevClus, data, all, src, copyBytes);
        if i == 0 {
          firstClus := clus;
        }
        if copyBytes > 0 && data.Some? {
          src := src + copyBytes;
          remaining := remaining - copyBytes;
        }
        prevClus := clus;
      }
      SetFatEntry(prevClus, EOC);
      StoreDone(v, start, numClusters, all);
      var res := AddDirEntry(parentClus, name, ATTR_ARCHIVE, firstClus, size);
    }

    /** calloc of the image and the geometry computed from its size. */
    constructor (sectors: nat)
      requires Geometry(sectors).Valid()
      ensures Valid() && fresh(disk) && total == sectors && nextFree == 3
      ensures disk[..] == Zeros(Geometry(sectors).Bytes())
    {
      var dataSectors := sectors - PARTITION_START_LBA - RSVD_SEC_CNT;
      var size := (dataSectors / SEC_PER_CLUS * 4 + SECTOR_SIZE - 1) / SECTOR_SIZE;
      total := sectors;
      disk := new Byte[sectors * 512](_ => 0);
      fatStart := PARTITION_START_LBA + RSVD_SEC_CNT;
      fatSize := size;
      dataStart := PARTITION_START_LBA + RSVD_SEC_CNT + NUM_FATS * size;
      nextFree := 3;
    }

    /** The assignments to one structure that lies over the sector at byte `o`. */
    method AssignFields(o: nat, fields: seq<Field>, ghost was: seq<Byte>, ghost s0: seq<Byte>)
      requires |was| == disk.Length && o + 512 <= disk.Length && |s0| == 512
      requires disk[..] == Patch(was, o, s0) && InOrder(fields, 0, 512)
      modifies disk
      ensures disk[..] == Patch(was, o, Assign(s0, fields, 0))
    {
      hide Patch;
      ghost var s, from: nat := s0, 0;
      for i := 0 to |fields|
        invariant |s| == 512 && disk[..] == Patch(was, o, s)
        invariant InOrder(fields[i..], from, 512)
        invariant Assign(s, fields[i..], from) == Assign(s0, fields, 0)
      {
        InOrderFits(fields[i..], from, 512);
        assert fields[i..][0] == fields[i] && fields[i..][1..] == fields[i + 1..];
        PatchNested(was, o, s, fields[i].at, fields[i].bytes);
        MemCpy(disk, o + fields[i].at, fields[i].bytes);
        s, from := Patch(s, fields[i].at, fields[i].bytes), fields[i].at + |fields[i].bytes|;
      }
    }

    /** Overwrites bytes of the reserved area; `head` is what the area holds so far. */
    method FillReserved(k: nat, b: seq<Byte>, ghost was: seq<Byte>, ghost head: seq<Byte>) returns (ghost after: seq<Byte>)
      requires |was| == disk.Length && 2080 * 512 <= disk.Length && |head| == 32 * 512 && k + |b| <= 32 * 512
      requires disk[..] == Patch(was, 2048 * 512, head)
      modifies disk
      ensures after == Patch(head, k, b) && disk[..] == Patch(was, 2048 * 512, after)
    {
      after := Patch(head, k, b);
      PatchNested(was, 2048 * 512, head, k, b);
      MemCpy(disk, 2048 * 512 + k, b);
    }

    /** A structure in sector `sec` of the reserved area. */
    method AssignReserved(sec: nat, fields: seq<Field>, ghost was: seq<Byte>, ghost head: seq<Byte>) returns (ghost after: seq<Byte>)
      requires |was| == disk.Length && 2080 * 512 <= disk.Length && |head| == 32 * 512 && sec < 32
      requires disk[..] == Patch(was, 2048 * 512, head) && InOrder(fields, 0, 512)
      modifies disk
      ensures after == Patch(head, sec * 512, Assign(head[sec * 512..sec * 512 + 512], fields, 0))
      ensures disk[..] == Patch(was, 2048 * 512, after)
    {
      hide Assign, InOrder;
      ghost var now, s0 := disk[..], head[sec * 512..sec * 512 + 512];
      after := Patch(head, sec * 512, Assign(s0, fields, 0));
      PatchNested(was, 2048 * 512, head, sec * 512, Assign(s0, fields, 0));
      assert now[(2048 + sec) * 512..(2048 + sec) * 512 + 512] == s0;
      assert now == Patch(now, (2048 + sec) * 512, s0);
      AssignFields((2048 + sec) * 512, fields, now, s0);
    }

    /** The boot sectors of the partition and the first three FAT entries. */
    method Format(vbr: seq<Byte>, io: seq<Byte>)
      requires Valid() && Vol().reserved[2048 * 512..2080 * 512] == Zeros(32 * 512)
      modifies disk
      ensures Valid() && Vol() == Formatted(old(Vol()), Geo(), vbr, io)
    {
      hide View;
      FormatReserved(vbr, io);
      SetFatEntry(0, 0x0FFF_FFF8);
      SetFatEntry(1, EOC);
      SetFatEntry(ROOT_CLUS, EOC);
    }

    method FormatReserved(vbr: seq<Byte>, io: seq<Byte>)
      requires Valid() && Vol().reserved[2048 * 512..2080 * 512] == Zeros(32 * 512)
      modifies disk
      ensures Valid()
      ensures Vol() == old(Vol()).(reserved := Patch(old(Vol()).reserved, 2048 * 512, ReservedArea(vbr, Geo(), io)))
    {
      RegionsInOrder(Geo());
      ghost var was := disk[..];
      ViewOfReservedPatch(was, Geo(), 2048 * 512, ReservedArea(vbr, Geo(), io));
      assert was[2048 * 512..2080 * 512] == Vol().reserved[2048 * 512..2080 * 512];
      assert was == Patch(was, 2048 * 512, Zeros(32 * 512));
      hide View, Patch, ReservedArea;
      WriteReserved(vbr, io, was);
    }

    method WriteReserved(vbr: seq<Byte>, io: seq<Byte>, ghost was: seq<Byte>)
      requires Valid() && |was| == disk.Length && disk[..] == was == Patch(was, 2048 * 512, Zeros(32 * 512))
      modifies disk
      ensures Valid() && disk[..] == Patch(was, 2048 * 512, ReservedArea(vbr, Geo(), io))
    {
      hide Patch, Assign, BpbFields, FsInfoFields, BootSector, FsInfo, Head, InOrder;
      ghost var head := Zeros(32 * 512);
      BpbInOrder(Geo());
      FsInfoInOrder();
      var code := vbr[..if |vbr| < 512 then |vbr| else 512];
      ghost var z, boot, info := Zeros(512), BootSector(vbr, Geo()), FsInfo();
      HeadStart(code);
      head := FillReserved(0, code, was, head);
      head := PutBoot(vbr, was, head);
      head := PutFsInfo(was, head, boot);
      HeadPatch6(boot, info, z, z, boot);
      assert disk[2048 * 512..2049 * 512] == head[0..512];
      head := FillReserved(6 * 512, disk[2048 * 512..2049 * 512], was, head);
      HeadPatch7(boot, info, boot, z, info);
      assert disk[2049 * 512..2050 * 512] == head[512..1024];
      head := FillReserved(7 * 512, disk[2049 * 512..2050 * 512], was, head);
      if RawCopyFits(|io|) {
        head := FillReserved(2 * 512, io, was, head);
      }
    }

    method PutBoot(ghost vbr: seq<Byte>, ghost was: seq<Byte>, ghost head: seq<Byte>) returns (ghost after: seq<Byte>)
      requires Valid() && |was| == disk.Length
      requires head == Head(Patch(Zeros(512), 0, vbr[..if |vbr| < 512 then |vbr| else 512]), Zeros(512), Zeros(512), Zeros(512))
      requires disk[..] == Patch(was, 2048 * 512, head)
      modifies disk
      ensures after == Head(BootSector(vbr, Geo()), Zeros(512), Zeros(512), Zeros(512)) && disk[..] == Patch(was, 2048 * 512, after)
    {
      hide Patch, Assign, BpbFields, Head, InOrder;
      BpbInOrder(Geo());
      ghost var z, code := Zeros(512), Patch(Zeros(512), 0, vbr[..if |vbr| < 512 then |vbr| else 512]);
      HeadPatch0(code, z, z, z, BootSector(vbr, Geo()));
      after := AssignReserved(0, BpbFields(Geo()), was, head);
    }

    method PutFsInfo(ghost was: seq<Byte>, ghost head: seq<Byte>, ghost boot: seq<Byte>) returns (ghost after: seq<Byte>)
      requires Valid() && |was| == disk.Length && |boot| == 512
      requires head == Head(boot, Zeros(512), Zeros(512), Zeros(512))
      requires disk[..] == Patch(was, 2048 * 512, head)
      modifies disk
      ensures after == Head(boot, FsInfo(), Zeros(512), Zeros(512)) && disk[..] == Patch(was, 2048 * 512, after)
    {
      hide Patch, Assign, FsInfoFields, Head, InOrder;
      FsInfoInOrder();
      ghost var z := Zeros(512);
      HeadPatch1(boot, z, z, z, FsInfo());
      after := AssignReserved(1, FsInfoFields(), was, head);
    }
  }
}
