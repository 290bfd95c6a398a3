/** src/common/fat.c: the FAT12/16/32 reader of the boot loader. */
module FatReader {
  import opened Bytes
  import opened Names83
  import opened StringOps

  type Sector = s: seq<Byte> | |s| == 512 witness seq(512, _ => 0)

  /** What read_fn does for one sector. */
  datatype ReadResult = Data(bytes: Sector) | ReadError

  type Device = nat -> ReadResult

  /** fat_fs_t, as fat_init leaves it; bytes_per_sec is always 512 by then. */
  datatype FatFs = FatFs(partLba: nat, secPerClus: nat, rsvdSecCnt: nat, numFats: nat, fatSize: nat, rootDirSec: nat,
                         rootEntCnt: nat, dataSec: nat, totalSectors: nat, totalClusters: nat, rootClus: nat, fatType: nat)

  datatype InitResult =
    | Mounted(fs: FatFs)
    | InitFailed        // returns -1
    | DivideFault       // a BPB with no sectors per cluster: the division by zero in the source

  /** The fields of struct fat_bpb that fat_init looks at. */
  datatype Bpb = Bpb(bytesPerSec: nat, secPerClus: nat, rsvdSecCnt: nat, numFats: nat, rootEntCnt: nat, totSec16: nat,
                     fatSz16: nat, totSec32: nat, fatSz32: nat, rootClus: nat)

  function BpbOf(s: Sector): (b: Bpb) {
    Bpb(Get16(s, 11), s[13], Get16(s, 14), s[16], Get16(s, 17), Get16(s, 19), Get16(s, 22), Get32(s, 32), Get32(s, 36),
        Get32(s, 44))
  }

  /** fat_init behind the read of the boot sector. */
  function Mount(b: Bpb, partLba: nat): (r: InitResult) {
    if b.bytesPerSec != 512 then InitFailed
    else
      var totalSectors := if b.totSec16 != 0 then b.totSec16 else b.totSec32;
      var fatSize := if b.fatSz16 != 0 then b.fatSz16 else b.fatSz32;
      var rootDirSectors := (b.rootEntCnt * 32 + 511) / 512;
      var fatSectors := U32(b.numFats * fatSize);
      var rootDirSec := U32(partLba + b.rsvdSecCnt + fatSectors);
      var dataSectors := U32(totalSectors - (b.rsvdSecCnt + fatSectors + rootDirSectors));
      if b.secPerClus == 0 then DivideFault
      else
        var clusters := dataSectors / b.secPerClus;
        var fatType := if clusters < 4085 then 12 else if clusters < 65525 then 16 else 32;
        Mounted(FatFs(partLba, b.secPerClus, b.rsvdSecCnt, b.numFats, fatSize, rootDirSec, b.rootEntCnt,
                      U32(rootDirSec + rootDirSectors), totalSectors, clusters,
                      if fatType == 32 then b.rootClus else 0, fatType))
  }

  function FatInit(dev: Device, partLba: nat): (r: InitResult)
    ensures r.Mounted? ==> r.fs.secPerClus > 0
  {
    match dev(partLba)
    case ReadError => InitFailed
    case Data(s) => Mount(BpbOf(s), partLba)
  }

  function ClusterToLba(fs: FatFs, cluster: nat): (lba: nat) {
    U32(fs.dataSec + (cluster - 2) * fs.secPerClus)
  }

  /** fat_get_next_cluster: FAT12 entries are never read, and an unreadable FAT sector ends the chain. */
  function NextCluster(fs: FatFs, dev: Device, cluster: nat): (next: nat) {
    if fs.fatType == 32 then
      var fatOffset := U32(cluster * 4);
      match dev(U32(fs.partLba + fs.rsvdSecCnt + fatOffset / 512))
      case ReadError => 0x0FFF_FFFF
      case Data(s) => assert fatOffset % 4 == 0; Get32(s, fatOffset % 512) % TWO28
    else if fs.fatType == 16 then
      var fatOffset := U32(cluster * 2);
      match dev(U32(fs.partLba + fs.rsvdSecCnt + fatOffset / 512))
      case ReadError => 0xFFFF
      case Data(s) => assert fatOffset % 2 == 0; Get16(s, fatOffset % 512)
    else 0x0FFF_FFFF
  }

  predicate IsEndOfChain(fs: FatFs, cluster: nat) {
    if fs.fatType == 32 then cluster >= 0x0FFF_FFF8
    else if fs.fatType == 16 then cluster >= 0xFFF8
    else cluster >= 0xFF8
  }

  /** The loop condition of both walks. */
  predicate Live(fs: FatFs, cluster: nat) {
    !IsEndOfChain(fs, cluster) && cluster >= 2
  }

  // ---------------------------------------------------------------------
  // Reading a file.
  // ---------------------------------------------------------------------

  /**
   * The i-th byte of the file whose chain starts at `cluster`: the i-th byte of
   * that cluster, or a byte of the next one. None past the end of the chain or
   * in an unreadable sector.
   */
  function ByteOf(fs: FatFs, dev: Device, cluster: nat, i: nat): (b: Option<Byte>)
    requires fs.secPerClus > 0
    decreases i
  {
    if !Live(fs, cluster) then None
    else if i < fs.secPerClus * 512 then
      match dev(U32(ClusterToLba(fs, cluster) + i / 512))
      case ReadError => None
      case Data(s) => Some(s[i % 512])
    else ByteOf(fs, dev, NextCluster(fs, dev, cluster), i - fs.secPerClus * 512)
  }

  /** The chain that starts at `cluster` holds at least `size` readable bytes. */
  ghost predicate Holds(fs: FatFs, dev: Device, cluster: nat, size: nat)
    requires fs.secPerClus > 0
  {
    forall i: nat :: i < size ==> ByteOf(fs, dev, cluster, i).Some?
  }

  method ReadFile(fs: FatFs, dev: Device, firstCluster: nat, fileSize: nat, dest: array<Byte>) returns (res: int)
    requires fs.secPerClus > 0 && fileSize <= dest.Length
    modifies dest
    ensures res == 0 || res == -1
    ensures res == 0 <==> Holds(fs, dev, firstCluster, fileSize)
    ensures res == 0 ==> forall i :: 0 <= i < fileSize ==> ByteOf(fs, dev, firstCluster, i) == Some(dest[i])
    ensures forall i :: fileSize <= i < dest.Length ==> dest[i] == old(dest[i])
  {
    var currentClus, remaining, at := firstCluster, fileSize, 0;
    while remaining > 0 && !IsEndOfChain(fs, currentClus) && currentClus >= 2
      invariant 0 <= at <= fileSize && remaining == fileSize - at
      invariant forall i :: 0 <= i < at ==> ByteOf(fs, dev, firstCluster, i) == Some(dest[i])
      invariant remaining > 0 ==> SameFrom(fs, dev, firstCluster, at, currentClus)
      invariant forall i :: fileSize <= i < dest.Length ==> dest[i] == old(dest[i])
      decreases remaining
    {
      var n := ReadCluster(fs, dev, currentClus, remaining, dest, at);
      forall i | 0 <= i <= n && i < remaining ensures ByteOf(fs, dev, firstCluster, at + i) == ByteOf(fs, dev, currentClus, i) {
      }
      if n < remaining && n < fs.secPerClus * 512 {
        assert !Holds(fs, dev, firstCluster, fileSize) by {
          assert ByteOf(fs, dev, firstCluster, at + n).None?;
        }
        return -1;
      }
      forall i | at <= i < at + n ensures ByteOf(fs, dev, firstCluster, i) == Some(dest[i]) {
        assert ByteOf(fs, dev, firstCluster, at + (i - at)) == ByteOf(fs, dev, currentClus, i - at);
      }
      if n < remaining {
        NextFrom(fs, dev, firstCluster, at, currentClus);
      }
      at := at + n;
      remaining := remaining - n;
      currentClus := NextCluster(fs, dev, currentClus);
    }
    if remaining > 0 {
      assert !Holds(fs, dev, firstCluster, fileSize) by {
        assert ByteOf(fs, dev, firstCluster, at + 0) == ByteOf(fs, dev, currentClus, 0) == None;
      }
    }
    return if remaining == 0 then 0 else -1;
  }

  /** The file goes on, behind its first `at` bytes, as the file that starts at `cluster`. */
  ghost predicate SameFrom(fs: FatFs, dev: Device, first: nat, at: nat, cluster: nat)
    requires fs.secPerClus > 0
  {
    forall i: nat :: ByteOf(fs, dev, first, at + i) == ByteOf(fs, dev, cluster, i)
  }

  lemma NextFrom(fs: FatFs, dev: Device, first: nat, at: nat, cluster: nat)
    requires fs.secPerClus > 0 && Live(fs, cluster) && SameFrom(fs, dev, first, at, cluster)
    ensures SameFrom(fs, dev, first, at + fs.secPerClus * 512, NextCluster(fs, dev, cluster))
  {
    hide NextCluster, Live;
    var n := fs.secPerClus * 512;
    forall i: nat ensures ByteOf(fs, dev, first, at + n + i) == ByteOf(fs, dev, NextCluster(fs, dev, cluster), i) {
      assert ByteOf(fs, dev, first, at + (n + i)) == ByteOf(fs, dev, cluster, n + i);
    }
  }

  /** The inner loop: the sectors of one cluster, as far as bytes are wanted. Stops short at an unreadable sector. */
  method ReadCluster(fs: FatFs, dev: Device, cluster: nat, wanted: nat, dest: array<Byte>, at: nat) returns (n: nat)
    requires fs.secPerClus > 0 && Live(fs, cluster) && at + wanted <= dest.Length
    modifies dest
    ensures n <= wanted && n <= fs.secPerClus * 512
    ensures forall i :: 0 <= i < n ==> ByteOf(fs, dev, cluster, i) == Some(dest[at + i])
    ensures n < wanted && n < fs.secPerClus * 512 ==> ByteOf(fs, dev, cluster, n).None?
    ensures forall i :: 0 <= i < dest.Length && !(at <= i < at + n) ==> dest[i] == old(dest[i])
  {
    hide NextCluster, Live;
    var clusLba := ClusterToLba(fs, cluster);
    var s := 0;
    n := 0;
    while s < fs.secPerClus && n < wanted
      invariant 0 <= s <= fs.secPerClus
      invariant n == if 512 * s <= wanted then 512 * s else wanted
      invariant forall i :: 0 <= i < n ==> ByteOf(fs, dev, cluster, i) == Some(dest[at + i])
      invariant forall i :: 0 <= i < dest.Length && !(at <= i < at + n) ==> dest[i] == old(dest[i])
    {
      var copyLen := if wanted - n > 512 then 512 else wanted - n;
      match dev(U32(clusLba + s)) {
        case ReadError =>
          SectorBytes(fs, dev, cluster, s, 0);
          assert 512 * s + 0 == n;
          return;
        case Data(sector) =>
          MemCpy(dest, at + n, sector[..copyLen]);
          forall i | n <= i < n + copyLen ensures ByteOf(fs, dev, cluster, i) == Some(dest[at + i]) {
            SectorBytes(fs, dev, cluster, s, i - n);
            assert 512 * s + (i - n) == i;
            assert dest[at + i] == sector[i - n];
          }
      }
      n := n + copyLen;
      s := s + 1;
    }
  }

  lemma SectorBytes(fs: FatFs, dev: Device, cluster: nat, s: nat, k: nat)
    requires fs.secPerClus > 0 && Live(fs, cluster) && s < fs.secPerClus && k < 512
    ensures ByteOf(fs, dev, cluster, 512 * s + k)
         == match dev(U32(ClusterToLba(fs, cluster) + s)) case ReadError => None case Data(b) => Some(b[k])
  {
    assert (512 * s + k) / 512 == s && (512 * s + k) % 512 == k;
  }

  // ---------------------------------------------------------------------
  // Finding a file in the root directory.
  // ---------------------------------------------------------------------

  datatype FindResult = Found(firstCluster: nat, fileSize: nat) | NotFound

  function NameAt(s: Sector, e: nat): (n: seq<Byte>)
    requires e < 16
    ensures |n| == 11
  {
    s[32 * e..32 * e + 11]
  }

  /** An entry a lookup may return: neither free, nor deleted, nor a volume label. */
  predicate Matches(s: Sector, e: nat, target: seq<Byte>)
    requires e < 16
  {
    s[32 * e] != 0x00 && s[32 * e] != 0xE5 && s[32 * e + 11] / 8 % 2 == 0 && NameAt(s, e) == target
  }

  function EntryAt(s: Sector, e: nat): FindResult
    requires e < 16
  {
    Found(Get16(s, 32 * e + 20) * TWO16 + Get16(s, 32 * e + 26), Get32(s, 32 * e + 28))
  }

  /** The search ends without a result at an unreadable sector and at the first never-used slot. */
  predicate Stops(dev: Device, lbas: seq<nat>, i: nat)
    requires i < 16 * |lbas|
  {
    var r := dev(lbas[i / 16]);
    r.ReadError? || r.bytes[32 * (i % 16)] == 0x00
  }

  predicate Hits(dev: Device, lbas: seq<nat>, target: seq<Byte>, i: nat)
    requires i < 16 * |lbas|
  {
    var r := dev(lbas[i / 16]);
    r.Data? && Matches(r.bytes, i % 16, target)
  }

  /** The flat lookup: slot by slot over all sectors of the directory, from slot `i` on. */
  function Lookup(dev: Device, lbas: seq<nat>, target: seq<Byte>, i: nat): (r: FindResult)
    requires i <= 16 * |lbas|
    decreases 16 * |lbas| - i
  {
    if i == 16 * |lbas| || Stops(dev, lbas, i) then NotFound
    else if Hits(dev, lbas, target, i) then EntryAt(dev(lbas[i / 16]).bytes, i % 16)
    else Lookup(dev, lbas, target, i + 1)
  }

  /** Slot `i` is the first hit, and nothing in front of it ends the search. */
  ghost predicate FirstHit(dev: Device, lbas: seq<nat>, target: seq<Byte>, i: nat) {
    && i < 16 * |lbas| && Hits(dev, lbas, target, i)
    && forall k: nat :: k < i ==> !Stops(dev, lbas, k) && !Hits(dev, lbas, target, k)
  }

  /** The lookup returns the first hit, and fails exactly when there is none. */
  lemma {:induction false} LookupIsFirstHit(dev: Device, lbas: seq<nat>, target: seq<Byte>)
    ensures Lookup(dev, lbas, target, 0).Found? <==> exists i: nat :: FirstHit(dev, lbas, target, i)
    ensures forall i: nat :: FirstHit(dev, lbas, target, i) ==>
              Lookup(dev, lbas, target, 0) == EntryAt(dev(lbas[i / 16]).bytes, i % 16)
  {
    LookupFrom(dev, lbas, target, 0);
  }

  lemma {:induction false} LookupFrom(dev: Device, lbas: seq<nat>, target: seq<Byte>, from: nat)
    requires from <= 16 * |lbas|
    requires forall k: nat :: k < from ==> !Stops(dev, lbas, k) && !Hits(dev, lbas, target, k)
    ensures Lookup(dev, lbas, target, from).Found? <==> exists i: nat :: FirstHit(dev, lbas, target, i)
    ensures forall i: nat :: FirstHit(dev, lbas, target, i) ==>
              Lookup(dev, lbas, target, from) == EntryAt(dev(lbas[i / 16]).bytes, i % 16)
    decreases 16 * |lbas| - from
  {
    if from == 16 * |lbas| {
    } else if Stops(dev, lbas, from) {
    } else if Hits(dev, lbas, target, from) {
      assert FirstHit(dev, lbas, target, from);
    } else {
      LookupFrom(dev, lbas, target, from + 1);
    }
  }

  /** The root chain ends within `n` links. */
  predicate EndsWithin(fs: FatFs, dev: Device, cluster: nat, n: nat)
    decreases n
  {
    !Live(fs, cluster) || (n > 0 && EndsWithin(fs, dev, NextCluster(fs, dev, cluster), n - 1))
  }

  /** Some slot from `i` on ends the search. */
  predicate Settles(dev: Device, lbas: seq<nat>, target: seq<Byte>, i: nat)
    decreases 16 * |lbas| - i
  {
    i < 16 * |lbas| && (Stops(dev, lbas, i) || Hits(dev, lbas, target, i) || Settles(dev, lbas, target, i + 1))
  }

  lemma {:induction false} SettlesIff(dev: Device, lbas: seq<nat>, target: seq<Byte>, i: nat)
    ensures Settles(dev, lbas, target, i) <==>
              exists k: nat :: i <= k < 16 * |lbas| && (Stops(dev, lbas, k) || Hits(dev, lbas, target, k))
    decreases 16 * |lbas| - i
  {
    if i < 16 * |lbas| { SettlesIff(dev, lbas, target, i + 1); }
  }

  /** Within `n` clusters the root chain ends, or the search does: at a hit, an end mark or an unreadable sector. */
  predicate SearchEnds(fs: FatFs, dev: Device, target: seq<Byte>, n: nat) {
    EndsWithin(fs, dev, fs.rootClus, n) || Settles(dev, ChainLbas(fs, dev, fs.rootClus, n), target, 0)
  }

  function SectorRun(lba: nat, count: nat): (r: seq<nat>)
    ensures |r| == count
    ensures forall s :: 0 <= s < count ==> r[s] == U32(lba + s)
  {
    if count == 0 then [] else SectorRun(lba, count - 1) + [U32(lba + count - 1)]
  }

  /** The sectors of the first `n` clusters of a chain, in order. */
  function ChainLbas(fs: FatFs, dev: Device, cluster: nat, n: nat): (r: seq<nat>)
    decreases n
  {
    if n == 0 || !Live(fs, cluster) then []
    else SectorRun(ClusterToLba(fs, cluster), fs.secPerClus) + ChainLbas(fs, dev, NextCluster(fs, dev, cluster), n - 1)
  }

  /** The sectors of the root directory. */
  function RootLbas(fs: FatFs, dev: Device, n: nat): (r: seq<nat>) {
    if fs.fatType == 32 then ChainLbas(fs, dev, fs.rootClus, n)
    else SectorRun(fs.rootDirSec, (fs.rootEntCnt * 32 + 511) / 512)
  }

  lemma {:induction false} SlotStep(dev: Device, lbas: seq<nat>, target: seq<Byte>, k: nat, e: nat)
    requires k < |lbas| && e < 16 && dev(lbas[k]).Data?
    ensures var s := dev(lbas[k]).bytes;
            Lookup(dev, lbas, target, 16 * k + e) ==
            if s[32 * e] == 0x00 then NotFound
            else if Matches(s, e, target) then EntryAt(s, e)
            else Lookup(dev, lbas, target, 16 * k + (e + 1))
    ensures var s := dev(lbas[k]).bytes;
            s[32 * e] != 0x00 && !Matches(s, e, target) ==>
              Settles(dev, lbas, target, 16 * k + e) == Settles(dev, lbas, target, 16 * k + (e + 1))
  {
    hide Matches, EntryAt;
    assert (16 * k + e) / 16 == k && (16 * k + e) % 16 == e;
  }

  /** The inner loop of both searches: 16 entries of one sector. */
  method ScanSector(s: Sector, target: seq<Byte>, ghost dev: Device, ghost lbas: seq<nat>, ghost k: nat)
    returns (done: bool, r: FindResult)
    requires |target| == 11 && k < |lbas| && dev(lbas[k]) == Data(s)
    ensures done ==> r == Lookup(dev, lbas, target, 16 * k)
    ensures !done ==> Lookup(dev, lbas, target, 16 * k) == Lookup(dev, lbas, target, 16 * (k + 1))
    ensures !done ==> Settles(dev, lbas, target, 16 * k) == Settles(dev, lbas, target, 16 * (k + 1))
  {
    hide Lookup, Settles, Get16, Get32;
    assert 16 * k + 0 == 16 * k;
    for e := 0 to 16
      invariant Lookup(dev, lbas, target, 16 * k) == Lookup(dev, lbas, target, 16 * k + e)
      invariant Settles(dev, lbas, target, 16 * k) == Settles(dev, lbas, target, 16 * k + e)
    {
      SlotStep(dev, lbas, target, k, e);
      if s[32 * e] == 0x00 {
        return true, NotFound;
      }
      if s[32 * e] == 0xE5 || s[32 * e + 11] / 8 % 2 == 1 {
        continue;
      }
      var name := s[32 * e..32 * e + 11];
      var c := MemCmp(name, target, 11);
      assert name[..11] == name && target[..11] == target;
      if c == 0 {
        return true, Found(Get16(s, 32 * e + 20) * TWO16 + Get16(s, 32 * e + 26), Get32(s, 32 * e + 28));
      }
    }
    assert 16 * k + 16 == 16 * (k + 1);
    return false, NotFound;
  }

  /** The sectors lba, lba+1, ...: those of one cluster, or those of a FAT16 root directory. */
  method ScanRun(dev: Device, lba: nat, count: nat, target: seq<Byte>, ghost lbas: seq<nat>, ghost k: nat)
    returns (done: bool, r: FindResult)
    requires |target| == 11 && k + count <= |lbas| && lbas[k..k + count] == SectorRun(lba, count)
    ensures done ==> r == Lookup(dev, lbas, target, 16 * k)
    ensures !done ==> Lookup(dev, lbas, target, 16 * k) == Lookup(dev, lbas, target, 16 * (k + count))
    ensures !done ==> Settles(dev, lbas, target, 16 * k) == Settles(dev, lbas, target, 16 * (k + count))
  {
    hide Lookup, Settles;
    for s := 0 to count
      invariant Lookup(dev, lbas, target, 16 * k) == Lookup(dev, lbas, target, 16 * (k + s))
      invariant Settles(dev, lbas, target, 16 * k) == Settles(dev, lbas, target, 16 * (k + s))
    {
      assert lbas[k..k + count][s] == lbas[k + s] == U32(lba + s);
      match dev(U32(lba + s)) {
        case ReadError =>
          Unreadable(dev, lbas, target, k + s);
          return true, NotFound;
        case Data(sector) =>
          done, r := ScanSector(sector, target, dev, lbas, k + s);
          if done {
            return;
          }
      }
    }
    return false, NotFound;
  }

  lemma {:induction false} Unreadable(dev: Device, lbas: seq<nat>, target: seq<Byte>, k: nat)
    requires k < |lbas| && dev(lbas[k]).ReadError?
    ensures Lookup(dev, lbas, target, 16 * k) == NotFound
  {
    assert Stops(dev, lbas, 16 * k);
  }

  lemma ChainStep(fs: FatFs, dev: Device, lbas: seq<nat>, k: nat, c: nat, left: nat)
    requires k <= |lbas| && lbas[k..] == ChainLbas(fs, dev, c, left)
    ensures !Live(fs, c) || left == 0 ==> k == |lbas|
    ensures Live(fs, c) && EndsWithin(fs, dev, c, left) ==>
              left > 0 && EndsWithin(fs, dev, NextCluster(fs, dev, c), left - 1)
    ensures Live(fs, c) && left > 0 ==>
              && k + fs.secPerClus <= |lbas|
              && lbas[k..k + fs.secPerClus] == SectorRun(ClusterToLba(fs, c), fs.secPerClus)
              && lbas[k + fs.secPerClus..] == ChainLbas(fs, dev, NextCluster(fs, dev, c), left - 1)
  {
    hide SectorRun, ClusterToLba, NextCluster, Live;
    if Live(fs, c) && left > 0 {
      var count := fs.secPerClus;
      assert lbas[k..] == SectorRun(ClusterToLba(fs, c), count) + ChainLbas(fs, dev, NextCluster(fs, dev, c), left - 1);
      assert lbas[k..k + count] == lbas[k..][..count];
      assert lbas[k + count..] == lbas[k..][count..];
    }
  }

  /** Where the chain goes on but no more of it is listed, the search has ended before. */
  lemma {:induction false} MoreToCome(fs: FatFs, dev: Device, lbas: seq<nat>, target: seq<Byte>, k: nat, c: nat, left: nat)
    requires k <= |lbas| && lbas[k..] == ChainLbas(fs, dev, c, left) && Live(fs, c)
    requires EndsWithin(fs, dev, c, left) || Settles(dev, lbas, target, 16 * k)
    ensures left > 0
  {
    hide NextCluster, Live, Stops, Hits;
  }

  /** The FAT32 half of fat_find_file: cluster by cluster along the chain of the root directory. */
  method FindInChain(fs: FatFs, dev: Device, target: seq<Byte>, ghost n: nat) returns (r: FindResult)
    requires |target| == 11 && SearchEnds(fs, dev, target, n)
    ensures r == Lookup(dev, ChainLbas(fs, dev, fs.rootClus, n), target, 0)
  {
    hide SectorRun, ClusterToLba, NextCluster, ChainLbas, EndsWithin, Settles, Stops, Hits, EntryAt;
    var currentClus := fs.rootClus;
    ghost var lbas := ChainLbas(fs, dev, fs.rootClus, n);
    ghost var left: nat, k: nat := n, 0;
    assert lbas[0..] == lbas;
    while !IsEndOfChain(fs, currentClus) && currentClus >= 2
      invariant EndsWithin(fs, dev, currentClus, left) || Settles(dev, lbas, target, 16 * k)
      invariant k <= |lbas| && lbas[k..] == ChainLbas(fs, dev, currentClus, left)
      invariant Lookup(dev, lbas, target, 0) == Lookup(dev, lbas, target, 16 * k)
      decreases left
    {
      ChainStep(fs, dev, lbas, k, currentClus, left);
      MoreToCome(fs, dev, lbas, target, k, currentClus, left);
      var done;
      done, r := ScanRun(dev, ClusterToLba(fs, currentClus), fs.secPerClus, target, lbas, k);
      if done {
        return;
      }
      k := k + fs.secPerClus;
      left := left - 1;
      currentClus := NextCluster(fs, dev, currentClus);
    }
    ChainStep(fs, dev, lbas, k, currentClus, left);
    return NotFound;
  }

  /** fat_find_file. On a FAT32 volume the search has to end; `n` bounds the clusters it takes. */
  method FindFile(fs: FatFs, dev: Device, filename: CString, ghost n: nat) returns (r: FindResult)
    requires fs.fatType == 32 ==> SearchEnds(fs, dev, ReaderName(filename), n)
    ensures r == Lookup(dev, RootLbas(fs, dev, n), ReaderName(filename), 0)
  {
    hide ReaderName, SectorRun, SearchEnds;
    var target83 := new Byte[11];
    Format83Name(filename, target83);
    var target := target83[..];
    if fs.fatType == 32 {
      r := FindInChain(fs, dev, target, n);
    } else {
      ghost var lbas := RootLbas(fs, dev, n);
      assert lbas[0..0 + |lbas|] == lbas;
      var done;
      done, r := ScanRun(dev, fs.rootDirSec, (fs.rootEntCnt * 32 + 511) / 512, target, lbas, 0);
      return if done then r else NotFound;
    }
  }
}
