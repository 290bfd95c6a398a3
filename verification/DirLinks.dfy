/** The ".." entries of the directories the builder makes. */
module DirLinks {
  import opened Bytes
  import opened Names83
  import opened Layout
  import opened MkDisk
  import opened Volumes
  import opened RoundTrip

  /** The cluster number in the second slot of a directory cluster: its "..". */
  function DotDotOf(dir: seq<Byte>): (c: nat)
    requires |dir| == 2048
  {
    Get16(dir, 32 + 20) * TWO16 + Get16(dir, 32 + 26)
  }

  /** Following ".." from cluster `d`, `n` times; the root is written as 0 and stays put. */
  function Ascend(v: Volume, d: nat, n: nat): (c: nat)
    requires WellSized(v)
    decreases n
  {
    if n == 0 || d < 3 || d >= |v.clus| + 2 then d else Ascend(v, DotDotOf(v.clus[d - 2]), n - 1)
  }

  /** The parent that a directory was created in. */
  function ParentOf(ops: seq<Op>, d: nat): (p: nat)
    requires IsDir(ops, d)
  {
    if ops == [] || IsDir(ops[..|ops| - 1], d) then (if ops == [] then ROOT_CLUS else ParentOf(ops[..|ops| - 1], d))
    else ops[|ops| - 1].parent
  }

  /** A directory starts with its two links, made when it was created; the root has none. */
  lemma {:induction false} LinksComeFirst(ops: seq<Op>, clusters: nat, d: nat)
    requires Legal(ops, clusters) && IsDir(ops, d) && d != ROOT_CLUS
    ensures DotEntries(d, ParentOf(ops, d)) <= EntriesOf(ops, d)
    ensures IsDir(ops, ParentOf(ops, d)) && ParentOf(ops, d) < d
  {
    hide DotEntries;
    var front, op := ops[..|ops| - 1], ops[|ops| - 1];
    EntriesPrefix(ops, |front|, d);
    if IsDir(front, d) {
      LinksComeFirst(front, clusters, d);
    } else {
      NoEntriesYet(front, clusters, d);
      DirBelow(front, op.parent);
      assert EntriesOf(ops, d) == DotEntries(d, op.parent);
    }
  }

  /** The ".." of a created directory names its parent, and names the root as 0. */
  lemma {:induction false} DotDotIsParent(v: Volume, ops: seq<Op>, d: nat)
    requires Fresh(v) && Legal(ops, |v.clus|) && |v.clus| + 2 < TWO32 && IsDir(ops, d) && d != ROOT_CLUS
    ensures 3 <= d < |v.clus| + 2
    ensures DotDotOf(Run(v, ops).clus[d - 2]) == if ParentOf(ops, d) == ROOT_CLUS then 0 else ParentOf(ops, d)
  {
    hide Run, EntriesOf, Render, EntryImage, BuilderName, ParentOf, Chained, Stored;
    RunInvariant(v, ops);
    DirBelow(ops, d);
    LinksComeFirst(ops, |v.clus|, d);
    DirBelow(ops, ParentOf(ops, d));
    EntriesPlain(ops, |v.clus|, d);
    var es := EntriesOf(ops, d);
    assert es[1] == DotEntries(d, ParentOf(ops, d))[1];
    var slots := SlotsOf(ops, d);
    assert slots[1] == es[1];
    RenderedSlot(slots, 1);
    EntryFields(es[1]);
    assert Render(slots)[32 * 1..32 * 1 + 32] == EntryImage(es[1]);
    SlotNumbers(Render(slots), EntryImage(es[1]));
  }

  lemma SlotNumbers(dir: seq<Byte>, slot: seq<Byte>)
    requires |dir| == 2048 && |slot| == 32 && dir[32..64] == slot
    ensures DotDotOf(dir) == Get16(slot, 20) * TWO16 + Get16(slot, 26)
  {
    assert slot[20] == dir[52] && slot[21] == dir[53] && slot[26] == dir[58] && slot[27] == dir[59];
  }

  /** From any created directory, ".." leads to the root in finitely many steps. */
  lemma {:induction false} DotDotReachesRoot(v: Volume, ops: seq<Op>, d: nat)
    requires Fresh(v) && Legal(ops, |v.clus|) && |v.clus| + 2 < TWO32 && IsDir(ops, d) && d != ROOT_CLUS
    ensures exists n: nat :: Ascend(Run(v, ops), d, n) == 0
    decreases d
  {
    hide Run, DotDotOf, ParentOf;
    DotDotIsParent(v, ops, d);
    LinksComeFirst(ops, |v.clus|, d);
    var r, p := Run(v, ops), ParentOf(ops, d);
    if p == ROOT_CLUS {
      assert Ascend(r, d, 1) == Ascend(r, 0, 0) == 0;
    } else {
      DirBelow(ops, p);
      DotDotReachesRoot(v, ops, p);
      var n: nat :| Ascend(r, p, n) == 0;
      assert Ascend(r, d, n + 1) == 0;
    }
  }
}
