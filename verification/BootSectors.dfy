/** The reserved area of the partition: boot sector, FSInfo, their backups and the raw copy of IO.SYS. */
module BootSectors {
  import opened Bytes
  import opened Layout

  /** A structure field: its offset and the bytes assigned to it. */
  datatype Field = Field(at: nat, bytes: seq<Byte>)

  predicate InOrder(fields: seq<Field>, from: nat, to: nat) {
    if fields == [] then from <= to
    else from <= fields[0].at && InOrder(fields[1..], fields[0].at + |fields[0].bytes|, to)
  }

  /** The assignments carried out one after the other. */
  function Assign(sector: seq<Byte>, fields: seq<Field>, from: nat): (r: seq<Byte>)
    requires InOrder(fields, from, |sector|)
    ensures |r| == |sector| && from <= |sector|
    ensures r[..from] == sector[..from]
    decreases fields
  {
    if fields == [] then sector
    else
      var f := fields[0];
      InOrderFits(fields, from, |sector|);
      var rest := Assign(Patch(sector, f.at, f.bytes), fields[1..], f.at + |f.bytes|);
      assert rest[..from] == rest[..f.at + |f.bytes|][..from];
      rest
  }

  lemma {:induction false} InOrderFits(fields: seq<Field>, from: nat, to: nat)
    requires InOrder(fields, from, to)
    ensures from <= to
    ensures forall i :: 0 <= i < |fields| ==> from <= fields[i].at && fields[i].at + |fields[i].bytes| <= to
    decreases fields
  {
    if fields != [] {
      InOrderFits(fields[1..], fields[0].at + |fields[0].bytes|, to);
      forall i | 0 <= i < |fields| ensures from <= fields[i].at && fields[i].at + |fields[i].bytes| <= to {
        if i > 0 { assert fields[i] == fields[1..][i - 1]; }
      }
    }
  }

  /** No assignment touches another one's field. */
  lemma {:induction false} AssignedField(sector: seq<Byte>, fields: seq<Field>, from: nat, i: nat)
    requires InOrder(fields, from, |sector|) && i < |fields|
    ensures fields[i].at + |fields[i].bytes| <= |sector|
    ensures Assign(sector, fields, from)[fields[i].at..fields[i].at + |fields[i].bytes|] == fields[i].bytes
    decreases fields
  {
    InOrderFits(fields, from, |sector|);
    var f := fields[0];
    var s, next := Patch(sector, f.at, f.bytes), f.at + |f.bytes|;
    if i == 0 {
      var r := Assign(s, fields[1..], next);
      assert r[f.at..next] == r[..next][f.at..next] == s[..next][f.at..next] == f.bytes;
    } else {
      AssignedField(s, fields[1..], next, i - 1);
    }
  }

  const GEMIBOOT: seq<Byte> := [71, 69, 77, 73, 66, 79, 79, 84]
  const VOLUME_LABEL: seq<Byte> := GEMIBOOT + [32, 32, 32]
  const FAT32_TYPE: seq<Byte> := [70, 65, 84, 51, 50, 32, 32, 32]

  /** The assignments to struct fat32_bpb, in program order. */
  function BpbFields(g: Geometry): (r: seq<Field>)
    requires g.Valid()
    ensures |r| == 23
  {
    [Field(3, GEMIBOOT), Field(11, LE16(512)), Field(13, [4]), Field(14, LE16(32)), Field(16, [2]), Field(17, LE16(0)),
     Field(19, LE16(0)), Field(21, [0xF8]), Field(22, LE16(0)), Field(24, LE16(63)), Field(26, LE16(255)),
     Field(28, LE32(2048)), Field(32, LE32(g.PartitionSectors())), Field(36, LE32(g.FatSize())), Field(44, LE32(2)),
     Field(48, LE16(1)), Field(50, LE16(6)), Field(64, [0x80]), Field(66, [0x29]), Field(67, LE32(0x12345678)),
     Field(71, VOLUME_LABEL), Field(82, FAT32_TYPE), Field(510, LE16(0xAA55))]
  }

  /** The assignments to struct fat32_fsinfo. */
  function FsInfoFields(): (r: seq<Field>)
    ensures |r| == 5
  {
    [Field(0, LE32(0x41615252)), Field(484, LE32(0x61417272)), Field(488, LE32(0xFFFFFFFF)), Field(492, LE32(0xFFFFFFFF)),
     Field(508, LE32(0xAA550000))]
  }

  lemma BpbInOrder(g: Geometry)
    requires g.Valid()
    ensures InOrder(BpbFields(g), 0, 512)
  {
    var fs := BpbFields(g);
    InOrderByIndex(fs, 0, 512);
  }

  lemma {:induction false} InOrderByIndex(fields: seq<Field>, from: nat, to: nat)
    requires |fields| > 0 ==> from <= fields[0].at
    requires forall i :: 0 <= i < |fields| - 1 ==> fields[i].at + |fields[i].bytes| <= fields[i + 1].at
    requires if |fields| > 0 then fields[|fields| - 1].at + |fields[|fields| - 1].bytes| <= to else from <= to
    ensures InOrder(fields, from, to)
    decreases fields
  {
    if |fields| > 0 {
      InOrderByIndex(fields[1..], fields[0].at + |fields[0].bytes|, to);
    }
  }

  lemma FsInfoInOrder()
    ensures InOrder(FsInfoFields(), 0, 512)
  {
    InOrderByIndex(FsInfoFields(), 0, 512);
  }

  /** The VBR code with the BPB laid over it. */
  function BootSector(vbr: seq<Byte>, g: Geometry): (s: seq<Byte>)
    requires g.Valid()
    ensures |s| == 512
  {
    BpbInOrder(g);
    var n := if |vbr| < 512 then |vbr| else 512;
    Assign(Patch(Zeros(512), 0, vbr[..n]), BpbFields(g), 0)
  }

  function FsInfo(): (s: seq<Byte>)
    ensures |s| == 512
  {
    FsInfoInOrder();
    Assign(Zeros(512), FsInfoFields(), 0)
  }

  function IoSectors(size: nat): nat {
    (size + 511) / 512
  }

  /** IO.SYS is copied behind the VBR only when it stays clear of the FAT. */
  predicate RawCopyFits(size: nat) {
    2 + IoSectors(size) < RSVD_SEC_CNT
  }

  /** 32 sectors of which all but four are zero. */
  function Head(s0: seq<Byte>, s1: seq<Byte>, s6: seq<Byte>, s7: seq<Byte>): (r: seq<Byte>)
    requires |s0| == |s1| == |s6| == |s7| == 512
    ensures |r| == 32 * 512
    ensures r[0..512] == s0 && r[512..1024] == s1
    ensures r[6 * 512..7 * 512] == s6 && r[7 * 512..8 * 512] == s7
  {
    s0 + s1 + Zeros(4 * 512) + s6 + s7 + Zeros(24 * 512)
  }

  lemma HeadPatch0(a: seq<Byte>, b: seq<Byte>, c: seq<Byte>, d: seq<Byte>, x: seq<Byte>)
    requires |a| == |b| == |c| == |d| == |x| == 512
    ensures Patch(Head(a, b, c, d), 0, x) == Head(x, b, c, d)
  {
  }

  lemma HeadPatch1(a: seq<Byte>, b: seq<Byte>, c: seq<Byte>, d: seq<Byte>, x: seq<Byte>)
    requires |a| == |b| == |c| == |d| == |x| == 512
    ensures Patch(Head(a, b, c, d), 512, x) == Head(a, x, c, d)
  {
  }

  lemma HeadPatch6(a: seq<Byte>, b: seq<Byte>, c: seq<Byte>, d: seq<Byte>, x: seq<Byte>)
    requires |a| == |b| == |c| == |d| == |x| == 512
    ensures Patch(Head(a, b, c, d), 6 * 512, x) == Head(a, b, x, d)
  {
  }

  lemma HeadPatch7(a: seq<Byte>, b: seq<Byte>, c: seq<Byte>, d: seq<Byte>, x: seq<Byte>)
    requires |a| == |b| == |c| == |d| == |x| == 512
    ensures Patch(Head(a, b, c, d), 7 * 512, x) == Head(a, b, c, x)
  {
  }

  lemma HeadStart(x: seq<Byte>)
    requires |x| <= 512
    ensures Patch(Zeros(32 * 512), 0, x) == Head(Patch(Zeros(512), 0, x), Zeros(512), Zeros(512), Zeros(512))
  {
  }

  /** The 32 reserved sectors. */
  function ReservedArea(vbr: seq<Byte>, g: Geometry, io: seq<Byte>): (r: seq<Byte>)
    requires g.Valid()
    ensures |r| == 32 * 512
  {
    var head := Head(BootSector(vbr, g), FsInfo(), BootSector(vbr, g), FsInfo());
    if RawCopyFits(|io|) then Patch(head, 2 * 512, io) else head
  }

  /** The sector that the BPB names as the backup boot sector is one. */
  predicate BackupIntact(vbr: seq<Byte>, g: Geometry, io: seq<Byte>)
    requires g.Valid()
  {
    ReservedArea(vbr, g, io)[6 * 512..7 * 512] == BootSector(vbr, g)
  }

  /**
   * It is exactly if the raw copy of IO.SYS is not made, ends in front of it,
   * or happens to hold the same bytes there.
   */
  lemma BackupIntactIff(vbr: seq<Byte>, g: Geometry, io: seq<Byte>)
    requires g.Valid()
    ensures BackupIntact(vbr, g, io) <==>
              |io| > 14848 || forall k :: 0 <= k < 512 && 2048 + k < |io| ==> io[2048 + k] == BootSector(vbr, g)[k]
  {
    hide BootSector, FsInfo, Head;
    var b := BootSector(vbr, g);
    var head := Head(b, FsInfo(), b, FsInfo());
    if RawCopyFits(|io|) {
      var area := Patch(head, 1024, io);
      var s := area[6 * 512..7 * 512];
      forall k | 0 <= k < 512 ensures s[k] == if 2048 + k < |io| then io[2048 + k] else b[k] {
        assert s[k] == area[6 * 512 + k] && head[6 * 512..7 * 512][k] == head[6 * 512 + k];
      }
      if s == b {
        forall k | 0 <= k < 512 && 2048 + k < |io| ensures io[2048 + k] == b[k] { assert s[k] == b[k]; }
      }
    }
  }

  /** Four sectors of IO.SYS are safe, and so is a file too long to be copied; every size between has a file that breaks it. */
  lemma SizesThatKeepBackup(vbr: seq<Byte>, g: Geometry, n: nat)
    requires g.Valid()
    ensures (forall io: seq<Byte> :: |io| == n ==> BackupIntact(vbr, g, io)) <==> n <= 2048 || n > 14848
  {
    hide BootSector, BackupIntact;
    if n <= 2048 || !RawCopyFits(n) {
      forall io: seq<Byte> | |io| == n ensures BackupIntact(vbr, g, io) { BackupIntactIff(vbr, g, io); }
    } else {
      var io := Zeros(2048) + [(BootSector(vbr, g)[0] as int + 1) % 256] + Zeros(n - 2049);
      BackupIntactIff(vbr, g, io);
      assert io[2048 + 0] != BootSector(vbr, g)[0];
    }
  }

  /** The fields from which the reader derives its geometry. */
  lemma BootSectorFields(vbr: seq<Byte>, g: Geometry)
    requires g.Valid()
    ensures var s := BootSector(vbr, g);
            && s[3..11] == GEMIBOOT && Get16(s, 11) == 512 && s[13] == 4 && Get16(s, 14) == 32 && s[16] == 2
            && Get16(s, 17) == 0 && Get16(s, 19) == 0 && Get16(s, 22) == 0
            && Get32(s, 32) == g.PartitionSectors() && Get32(s, 36) == g.FatSize() && Get32(s, 44) == 2
            && Get16(s, 510) == 0xAA55
  {
    hide BootSector, BpbFields, Get16, Get32;
    LeadingFields(vbr, g);
    SizeFields(vbr, g);
  }

  lemma LeadingFields(vbr: seq<Byte>, g: Geometry)
    requires g.Valid()
    ensures var s := BootSector(vbr, g);
            && s[3..11] == GEMIBOOT && Get16(s, 11) == 512 && s[13] == 4 && Get16(s, 14) == 32 && s[16] == 2
            && Get16(s, 510) == 0xAA55
  {
    hide BootSector, Get16;
    var s := BootSector(vbr, g);
    BpbField(vbr, g, 0, 3, GEMIBOOT);
    Bpb16(vbr, g, 1, 11, 512);
    BpbField(vbr, g, 2, 13, [4]);
    assert s[13..14][0] == s[13];
    Bpb16(vbr, g, 3, 14, 32);
    BpbField(vbr, g, 4, 16, [2]);
    assert s[16..17][0] == s[16];
    Bpb16(vbr, g, 22, 510, 0xAA55);
  }

  lemma SizeFields(vbr: seq<Byte>, g: Geometry)
    requires g.Valid()
    ensures var s := BootSector(vbr, g);
            && Get16(s, 17) == 0 && Get16(s, 19) == 0 && Get16(s, 22) == 0
            && Get32(s, 32) == g.PartitionSectors() && Get32(s, 36) == g.FatSize() && Get32(s, 44) == 2
  {
    hide BootSector, Get16, Get32;
    RegionsInOrder(g);
    Bpb16(vbr, g, 5, 17, 0);
    Bpb16(vbr, g, 6, 19, 0);
    Bpb16(vbr, g, 8, 22, 0);
    Bpb32(vbr, g, 12, 32, g.PartitionSectors());
    Bpb32(vbr, g, 13, 36, g.FatSize());
    Bpb32(vbr, g, 14, 44, 2);
  }

  lemma BpbField(vbr: seq<Byte>, g: Geometry, i: nat, at: nat, bytes: seq<Byte>)
    requires g.Valid() && i < 23 && BpbFields(g)[i] == Field(at, bytes)
    ensures at + |bytes| <= 512 && BootSector(vbr, g)[at..at + |bytes|] == bytes
  {
    hide BpbFields, Assign, InOrder;
    BpbInOrder(g);
    AssignedField(Patch(Zeros(512), 0, vbr[..if |vbr| < 512 then |vbr| else 512]), BpbFields(g), 0, i);
  }

  lemma Bpb16(vbr: seq<Byte>, g: Geometry, i: nat, at: nat, v: nat)
    requires g.Valid() && i < 23 && v < TWO16 && BpbFields(g)[i] == Field(at, LE16(v))
    ensures at + 2 <= 512 && Get16(BootSector(vbr, g), at) == v
  {
    hide BpbFields, BootSector;
    BpbField(vbr, g, i, at, LE16(v));
    Slice16(BootSector(vbr, g), at, v);
  }

  lemma Bpb32(vbr: seq<Byte>, g: Geometry, i: nat, at: nat, v: nat)
    requires g.Valid() && i < 23 && v < TWO32 && BpbFields(g)[i] == Field(at, LE32(v))
    ensures at + 4 <= 512 && Get32(BootSector(vbr, g), at) == v
  {
    hide BpbFields, BootSector;
    BpbField(vbr, g, i, at, LE32(v));
    Slice32(BootSector(vbr, g), at, v);
  }

  // ---------------------------------------------------------------------
  // The finished sectors, byte for byte.
  // ---------------------------------------------------------------------

  lemma {:induction false} AssignElsewhere(sector: seq<Byte>, fields: seq<Field>, from: nat, k: nat)
    requires InOrder(fields, from, |sector|) && k < |sector|
    requires forall i :: 0 <= i < |fields| ==> !(fields[i].at <= k < fields[i].at + |fields[i].bytes|)
    ensures Assign(sector, fields, from)[k] == sector[k]
    decreases fields
  {
    if fields != [] {
      InOrderFits(fields, from, |sector|);
      var f := fields[0];
      AssignElsewhere(Patch(sector, f.at, f.bytes), fields[1..], f.at + |f.bytes|, k);
    }
  }

  lemma Literals()
    ensures LE16(0) == [0, 0] && LE16(1) == [1, 0] && LE16(6) == [6, 0] && LE16(32) == [32, 0] && LE16(63) == [63, 0]
    ensures LE16(255) == [255, 0] && LE16(512) == [0, 2] && LE16(0xAA55) == [0x55, 0xAA]
    ensures LE32(2) == [2, 0, 0, 0] && LE32(2048) == [0, 8, 0, 0] && LE32(0x12345678) == [0x78, 0x56, 0x34, 0x12]
    ensures LE32(0x41615252) == [0x52, 0x52, 0x61, 0x41] && LE32(0x61417272) == [0x72, 0x72, 0x41, 0x61]
    ensures LE32(0xFFFFFFFF) == [0xFF, 0xFF, 0xFF, 0xFF] && LE32(0xAA550000) == [0x00, 0x00, 0x55, 0xAA]
  {
  }

  lemma OemName(g: Geometry)
    requires g.Valid()
    ensures BpbFields(g)[0] == Field(3, [71, 69, 77, 73, 66, 79, 79, 84])
  {
    hide LE16, LE32;
  }

  lemma BpbValues1(g: Geometry)
    requires g.Valid()
    ensures var f := BpbFields(g);
            && f[1] == Field(11, [0, 2]) && f[2] == Field(13, [4]) && f[3] == Field(14, [32, 0])
            && f[4] == Field(16, [2]) && f[5] == Field(17, [0, 0])
  {
    hide LE16, LE32;
    Literals();
  }

  lemma BpbValues2(g: Geometry)
    requires g.Valid()
    ensures var f := BpbFields(g);
            && f[6] == Field(19, [0, 0]) && f[7] == Field(21, [0xF8]) && f[8] == Field(22, [0, 0]) && f[9] == Field(24, [63, 0])
            && f[10] == Field(26, [255, 0]) && f[11] == Field(28, [0, 8, 0, 0])
  {
    hide LE16, LE32;
    Literals();
  }

  lemma BpbValues3(g: Geometry)
    requires g.Valid()
    ensures var f := BpbFields(g);
            && f[14] == Field(44, [2, 0, 0, 0]) && f[15] == Field(48, [1, 0]) && f[16] == Field(50, [6, 0])
            && f[17] == Field(64, [0x80]) && f[18] == Field(66, [0x29])
  {
    hide LE16, LE32;
    Literals();
  }

  lemma BpbValues4(g: Geometry)
    requires g.Valid()
    ensures var f := BpbFields(g);
            && f[19] == Field(67, [0x78, 0x56, 0x34, 0x12]) && f[20] == Field(71, [71, 69, 77, 73, 66, 79, 79, 84, 32, 32, 32])
            && f[21] == Field(82, [70, 65, 84, 51, 50, 32, 32, 32]) && f[22] == Field(510, [0x55, 0xAA])
  {
    hide LE16, LE32;
    Literals();
  }

  lemma BootBytes1(vbr: seq<Byte>, g: Geometry)
    requires g.Valid()
    ensures var s := BootSector(vbr, g);
            && s[3..11] == [71, 69, 77, 73, 66, 79, 79, 84] && s[11..13] == [0, 2] && s[13..14] == [4] && s[14..16] == [32, 0]
            && s[16..17] == [2] && s[17..19] == [0, 0] && s[19..21] == [0, 0] && s[21..22] == [0xF8] && s[22..24] == [0, 0]
            && s[24..26] == [63, 0] && s[26..28] == [255, 0] && s[28..32] == [0, 8, 0, 0]
  {
    hide BootSector, BpbFields;
    OemName(g);
    BpbValues1(g);
    BpbField(vbr, g, 0, 3, [71, 69, 77, 73, 66, 79, 79, 84]);
    BpbField(vbr, g, 1, 11, [0, 2]);
    BpbField(vbr, g, 2, 13, [4]);
    BpbField(vbr, g, 3, 14, [32, 0]);
    BpbField(vbr, g, 4, 16, [2]);
    BpbField(vbr, g, 5, 17, [0, 0]);
    BpbValues2(g);
    BpbField(vbr, g, 6, 19, [0, 0]);
    BpbField(vbr, g, 7, 21, [0xF8]);
    BpbField(vbr, g, 8, 22, [0, 0]);
    BpbField(vbr, g, 9, 24, [63, 0]);
    BpbField(vbr, g, 10, 26, [255, 0]);
    BpbField(vbr, g, 11, 28, [0, 8, 0, 0]);
  }

  lemma BootBytes2(vbr: seq<Byte>, g: Geometry)
    requires g.Valid()
    ensures var s := BootSector(vbr, g);
            && s[44..48] == [2, 0, 0, 0] && s[48..50] == [1, 0] && s[50..52] == [6, 0] && s[64..65] == [0x80] && s[66..67] == [0x29]
            && s[67..71] == [0x78, 0x56, 0x34, 0x12] && s[71..82] == [71, 69, 77, 73, 66, 79, 79, 84, 32, 32, 32]
            && s[82..90] == [70, 65, 84, 51, 50, 32, 32, 32] && s[510..512] == [0x55, 0xAA]
  {
    hide BootSector, BpbFields;
    BpbValues3(g);
    BpbField(vbr, g, 14, 44, [2, 0, 0, 0]);
    BpbField(vbr, g, 15, 48, [1, 0]);
    BpbField(vbr, g, 16, 50, [6, 0]);
    BpbField(vbr, g, 17, 64, [0x80]);
    BpbField(vbr, g, 18, 66, [0x29]);
    BpbValues4(g);
    BpbField(vbr, g, 19, 67, [0x78, 0x56, 0x34, 0x12]);
    BpbField(vbr, g, 20, 71, [71, 69, 77, 73, 66, 79, 79, 84, 32, 32, 32]);
    BpbField(vbr, g, 21, 82, [70, 65, 84, 51, 50, 32, 32, 32]);
    BpbField(vbr, g, 22, 510, [0x55, 0xAA]);
  }

  /** Bytes that belong to no assigned field are the VBR's, or zero behind its end. */
  lemma BootCodeStays(vbr: seq<Byte>, g: Geometry, k: nat)
    requires g.Valid()
    requires k < 3 || 40 <= k < 44 || 52 <= k < 64 || k == 65 || 90 <= k < 510
    ensures BootSector(vbr, g)[k] == if k < |vbr| then vbr[k] else 0
  {
    hide Assign, InOrder;
    BpbInOrder(g);
    var code := Patch(Zeros(512), 0, vbr[..if |vbr| < 512 then |vbr| else 512]);
    var fields := BpbFields(g);
    forall i | 0 <= i < |fields| ensures !(fields[i].at <= k < fields[i].at + |fields[i].bytes|) {
      hide LE16, LE32;
    }
    AssignElsewhere(code, fields, 0, k);
  }

  /** The finished boot sector, every byte of it. */
  lemma BootSectorInBytes(vbr: seq<Byte>, g: Geometry)
    requires g.Valid()
    ensures var s := BootSector(vbr, g);
            && s[3..11] == [71, 69, 77, 73, 66, 79, 79, 84]
            && s[11..22] == [0, 2, 4, 32, 0, 2, 0, 0, 0, 0, 0xF8] && s[22..32] == [0, 0, 63, 0, 255, 0, 0, 8, 0, 0]
            && Get32(s, 32) == g.total - 2048 && Get32(s, 36) == g.FatSize()
            && s[44..52] == [2, 0, 0, 0, 1, 0, 6, 0] && s[64] == 0x80 && s[66..71] == [0x29, 0x78, 0x56, 0x34, 0x12]
            && s[71..82] == [71, 69, 77, 73, 66, 79, 79, 84, 32, 32, 32] && s[82..90] == [70, 65, 84, 51, 50, 32, 32, 32]
            && s[510..512] == [0x55, 0xAA]
            && forall k :: 0 <= k < 512 && (k < 3 || 40 <= k < 44 || 52 <= k < 64 || k == 65 || 90 <= k < 510) ==>
                 s[k] == if k < |vbr| then vbr[k] else 0
  {
    hide BootSector, Get32;
    var s := BootSector(vbr, g);
    SizeFields(vbr, g);
    BootBytes1(vbr, g);
    BootBytes2(vbr, g);
    JoinLeading(s);
    JoinTrailing(s);
    forall k | 0 <= k < 512 && (k < 3 || 40 <= k < 44 || 52 <= k < 64 || k == 65 || 90 <= k < 510)
      ensures s[k] == if k < |vbr| then vbr[k] else 0
    {
      BootCodeStays(vbr, g, k);
    }
  }

  lemma JoinLeading(s: seq<Byte>)
    requires |s| == 512 && s[11..13] == [0, 2] && s[13..14] == [4] && s[14..16] == [32, 0]
    requires s[16..17] == [2] && s[17..19] == [0, 0] && s[19..21] == [0, 0] && s[21..22] == [0xF8]
    requires s[22..24] == [0, 0] && s[24..26] == [63, 0] && s[26..28] == [255, 0] && s[28..32] == [0, 8, 0, 0]
    ensures s[11..22] == [0, 2, 4, 32, 0, 2, 0, 0, 0, 0, 0xF8] && s[22..32] == [0, 0, 63, 0, 255, 0, 0, 8, 0, 0]
  {
    assert s[11..22] == s[11..13] + s[13..14] + s[14..16] + s[16..17] + s[17..19] + s[19..21] + s[21..22];
    assert s[22..32] == s[22..24] + s[24..26] + s[26..28] + s[28..32];
  }

  lemma JoinTrailing(s: seq<Byte>)
    requires |s| == 512 && s[44..48] == [2, 0, 0, 0] && s[48..50] == [1, 0] && s[50..52] == [6, 0]
    requires s[64..65] == [0x80] && s[66..67] == [0x29] && s[67..71] == [0x78, 0x56, 0x34, 0x12]
    ensures s[44..52] == [2, 0, 0, 0, 1, 0, 6, 0] && s[64] == 0x80 && s[66..71] == [0x29, 0x78, 0x56, 0x34, 0x12]
  {
    assert s[44..52] == s[44..48] + s[48..50] + s[50..52] && s[66..71] == s[66..67] + s[67..71];
    assert s[64..65][0] == s[64];
  }

  lemma FsInfoField(i: nat, at: nat, bytes: seq<Byte>)
    requires i < 5 && FsInfoFields()[i] == Field(at, bytes)
    ensures at + |bytes| <= 512 && FsInfo()[at..at + |bytes|] == bytes
  {
    hide FsInfoFields, Assign, InOrder;
    FsInfoInOrder();
    AssignedField(Zeros(512), FsInfoFields(), 0, i);
  }

  lemma FsInfoValues()
    ensures var f := FsInfoFields();
            && f[0] == Field(0, [0x52, 0x52, 0x61, 0x41]) && f[1] == Field(484, [0x72, 0x72, 0x41, 0x61])
            && f[2] == Field(488, [0xFF, 0xFF, 0xFF, 0xFF]) && f[3] == Field(492, [0xFF, 0xFF, 0xFF, 0xFF])
            && f[4] == Field(508, [0x00, 0x00, 0x55, 0xAA])
  {
    hide LE16, LE32;
    Literals();
  }

  lemma FsInfoGaps(k: nat)
    requires 4 <= k < 484 || 496 <= k < 508
    ensures FsInfo()[k] == 0
  {
    hide FsInfoFields, Assign, InOrder;
    FsInfoInOrder();
    FsInfoValues();
    AssignElsewhere(Zeros(512), FsInfoFields(), 0, k);
  }

  /** The finished FSInfo sector, every byte of it. */
  lemma FsInfoInBytes()
    ensures var s := FsInfo();
            && s[0..4] == [0x52, 0x52, 0x61, 0x41]
            && s[484..496] == [0x72, 0x72, 0x41, 0x61, 0xFF, 0xFF, 0xFF, 0xFF, 0xFF, 0xFF, 0xFF, 0xFF]
            && s[508..512] == [0x00, 0x00, 0x55, 0xAA]
            && forall k :: 4 <= k < 484 || 496 <= k < 508 ==> s[k] == 0
  {
    hide FsInfoFields, FsInfo;
    FsInfoValues();
    FsInfoField(0, 0, [0x52, 0x52, 0x61, 0x41]);
    FsInfoField(1, 484, [0x72, 0x72, 0x41, 0x61]);
    FsInfoField(2, 488, [0xFF, 0xFF, 0xFF, 0xFF]);
    FsInfoField(3, 492, [0xFF, 0xFF, 0xFF, 0xFF]);
    FsInfoField(4, 508, [0x00, 0x00, 0x55, 0xAA]);
    var s := FsInfo();
    assert s[484..496] == s[484..488] + s[488..492] + s[492..496];
    forall k | 4 <= k < 484 || 496 <= k < 508 ensures s[k] == 0 {
      FsInfoGaps(k);
    }
  }

  /**
   * The 32 reserved sectors: boot sector and FSInfo at 0 and 1 and again at 6
   * and 7, zeros elsewhere, and over them from sector 2 on the whole of IO.SYS
   * if it has at most 29 sectors.
   */
  lemma ReservedInBytes(vbr: seq<Byte>, g: Geometry, io: seq<Byte>, k: nat)
    requires g.Valid() && k < 16384
    ensures ReservedArea(vbr, g, io)[k] ==
            if |io| <= 14848 && 1024 <= k < 1024 + |io| then io[k - 1024]
            else if k < 512 then BootSector(vbr, g)[k]
            else if k < 1024 then FsInfo()[k - 512]
            else if 3072 <= k < 3584 then BootSector(vbr, g)[k - 3072]
            else if 3584 <= k < 4096 then FsInfo()[k - 3584]
            else 0
  {
    hide BootSector, FsInfo;
  }
}
