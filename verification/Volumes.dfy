/** Whole runs of the image builder: what any sequence of files and directories leaves in the volume. */
module Volumes {
  import opened Bytes
  import opened Names83
  import opened Layout
  import opened MkDisk

  /** One call of write_file_data or create_directory. */
  datatype Op = FileOp(parent: nat, name: CString, data: seq<Byte>) | DirOp(parent: nat, name: CString) {
    /** The clusters the call allocates. */
    function Need(): (n: nat)
      ensures n >= 1
    {
      if FileOp? then ClustersFor(|data|) else 1
    }
  }

  /** g_next_free_clus after a run; the first cluster of the next object. */
  function NextAfter(ops: seq<Op>): (n: nat)
    ensures n >= 3
  {
    if ops == [] then 3 else NextAfter(ops[..|ops| - 1]) + ops[|ops| - 1].Need()
  }

  function FirstOf(ops: seq<Op>, j: nat): (n: nat)
    requires j <= |ops|
    ensures n >= 3
  {
    NextAfter(ops[..j])
  }

  /** The root directory and whatever create_directory has returned so far. */
  predicate IsDir(ops: seq<Op>, d: nat) {
    if ops == [] then d == ROOT_CLUS
    else
      var front, op := ops[..|ops| - 1], ops[|ops| - 1];
      IsDir(front, d) || (op.DirOp? && NextAfter(front) == d)
  }

  /** The first byte would mark the entry's slot as reusable. */
  predicate LooksDeleted(name: CString) {
    BuilderName(name)[0] == DELETED
  }

  /** Every object goes into a directory made before it, and all of them fit the data area. */
  predicate Legal(ops: seq<Op>, clusters: nat) {
    && NextAfter(ops) <= clusters + 2
    && (ops == [] ||
        var front, op := ops[..|ops| - 1], ops[|ops| - 1];
        && Legal(front, clusters)
        && IsDir(front, op.parent)
        && (op.FileOp? ==> |op.data| < TWO32))
  }

  datatype Entry = Entry(name: seq<Byte>, attr: Byte, first: nat, size: nat)

  function EntryOf(op: Op, first: nat): Entry {
    if op.FileOp? then Entry(BuilderName(op.name), ATTR_ARCHIVE, first, |op.data|)
    else Entry(BuilderName(op.name), ATTR_DIRECTORY, first, 0)
  }

  /** "." and "..": the root is written as cluster 0. */
  function DotEntries(d: nat, parent: nat): (r: seq<Entry>) {
    [Entry(BuilderName(DOT_NAME), ATTR_DIRECTORY, d, 0),
     Entry(BuilderName(DOTDOT_NAME), ATTR_DIRECTORY, if parent == ROOT_CLUS then 0 else parent, 0)]
  }

  /**
   * The abstract contents of directory `d`: whatever was added to it, in
   * order, but for the names that look deleted.
   */
  function EntriesOf(ops: seq<Op>, d: nat): (r: seq<Entry>)
    ensures forall k :: 0 <= k < |r| ==> |r[k].name| == 11
  {
    if ops == [] then []
    else
      var front, op := ops[..|ops| - 1], ops[|ops| - 1];
      EntriesOf(front, d)
      + (if op.parent == d && !LooksDeleted(op.name) then [EntryOf(op, NextAfter(front))] else [])
      + (if op.DirOp? && NextAfter(front) == d then DotEntries(d, op.parent) else [])
  }

  /** The entry behind them, if the last name added to `d` looks deleted; the next one added takes its slot. */
  function Leftover(ops: seq<Op>, d: nat): (r: seq<Entry>)
    ensures IsLeftover(r)
  {
    if ops == [] then []
    else
      var front, op := ops[..|ops| - 1], ops[|ops| - 1];
      if op.parent == d then (if LooksDeleted(op.name) then [EntryOf(op, NextAfter(front))] else [])
      else Leftover(front, d)
  }

  predicate IsLeftover(left: seq<Entry>) {
    |left| <= 1 && (|left| == 1 ==> |left[0].name| == 11 && left[0].name[0] == DELETED)
  }

  function SlotsOf(ops: seq<Op>, d: nat): (r: seq<Entry>)
    ensures forall k :: 0 <= k < |r| ==> |r[k].name| == 11
  {
    EntriesOf(ops, d) + Leftover(ops, d)
  }

  /** A directory cluster: the first 64 entries, then zeros. */
  function Render(es: seq<Entry>): (b: seq<Byte>)
    requires forall k :: 0 <= k < |es| ==> |es[k].name| == 11
    ensures |b| == 2048
  {
    seq(2048, i requires 0 <= i < 2048 => if i / 32 < |es| then EntryImage(es[i / 32])[i % 32] else 0)
  }

  function EntryImage(e: Entry): (b: seq<Byte>)
    requires |e.name| == 11
    ensures |b| == 32 && b[0] == e.name[0]
  {
    EntryBytes(Zeros(32), e.name, e.attr, e.first, e.size)
  }

  lemma RenderedByte(es: seq<Entry>, k: nat, i: nat)
    requires forall k :: 0 <= k < |es| ==> |es[k].name| == 11
    requires k < 64 && i < 32
    ensures Render(es)[32 * k + i] == if k < |es| then EntryImage(es[k])[i] else 0
  {
    hide EntryImage;
    assert (32 * k + i) / 32 == k && (32 * k + i) % 32 == i;
  }

  lemma RenderedSlot(es: seq<Entry>, k: nat)
    requires forall k :: 0 <= k < |es| ==> |es[k].name| == 11
    requires k < 64
    ensures Render(es)[32 * k..32 * k + 32] == if k < |es| then EntryImage(es[k]) else Zeros(32)
  {
    hide EntryImage, Render;
    var slot, want := Render(es)[32 * k..32 * k + 32], if k < |es| then EntryImage(es[k]) else Zeros(32);
    forall i | 0 <= i < 32 ensures slot[i] == want[i] {
      RenderedByte(es, k, i);
    }
    assert slot == want;
  }

  predicate Visible(es: seq<Entry>) {
    forall k :: 0 <= k < |es| ==> |es[k].name| == 11 && es[k].name[0] != 0 && es[k].name[0] != DELETED
  }

  lemma FreeInRendered(es: seq<Entry>, left: seq<Entry>)
    requires Visible(es) && IsLeftover(left)
    ensures FreeSlot(Render(es + left)) == if |es| < 64 then |es| else 64
  {
    hide EntryImage, Render;
    var dir, all := Render(es + left), es + left;
    forall k | 0 <= k < 64 ensures Free(dir, k) <==> k >= |es| {
      RenderedByte(all, k, 0);
      assert dir[32 * k + 0] == dir[32 * k];
    }
    var i := FreeSlot(dir);
    assert i < 64 ==> Free(dir, i);
    assert |es| < 64 ==> Free(dir, |es|);
  }

  /**
   * Used slots form a prefix, so adding an entry appends it while one of the
   * 64 slots is left, and loses it after that. A leftover is overwritten.
   */
  lemma AddToRendered(es: seq<Entry>, left: seq<Entry>, e: Entry)
    requires Visible(es) && IsLeftover(left) && |e.name| == 11
    ensures AddEntry(Render(es + left), e.name, e.attr, e.first, e.size) == Render(es + [e])
  {
    hide EntryImage, Render, EntryBytes;
    FreeInRendered(es, left);
    if |es| < 64 {
      SlotReused(es, left, e);
      PatchRendered(es, left, e);
    } else {
      FullStays(es, left, e);
    }
  }

  lemma FullStays(es: seq<Entry>, left: seq<Entry>, e: Entry)
    requires Visible(es) && IsLeftover(left) && |e.name| == 11 && |es| >= 64
    ensures Render(es + left) == Render(es + [e])
  {
    hide EntryImage, Render;
    var a, b := es + left, es + [e];
    forall j | 0 <= j < 2048 ensures Render(a)[j] == Render(b)[j] {
      RenderedByte(a, j / 32, j % 32);
      RenderedByte(b, j / 32, j % 32);
    }
  }

  /** An entry whose name starts with 0xE5 holds its slot only until the next one is added. */
  lemma DeletedNameIsOverwritten(es: seq<Entry>, lost: Entry, e: Entry)
    requires Visible(es) && |lost.name| == |e.name| == 11 && lost.name[0] == DELETED
    ensures var dir := AddEntry(Render(es), lost.name, lost.attr, lost.first, lost.size);
            AddEntry(dir, e.name, e.attr, e.first, e.size) == Render(es + [e])
  {
    hide Render, AddEntry;
    assert es + [] == es;
    AddToRendered(es, [], lost);
    AddToRendered(es, [lost], e);
  }

  /** Whether zeros or a leftover: what a new entry makes of the slot. */
  lemma SlotReused(es: seq<Entry>, left: seq<Entry>, e: Entry)
    requires Visible(es) && IsLeftover(left) && |e.name| == 11 && |es| < 64
    ensures var slot := Render(es + left)[32 * |es|..32 * |es| + 32];
            EntryBytes(slot, e.name, e.attr, e.first, e.size) == EntryImage(e)
  {
    hide Render, EntryImage, EntryBytes;
    var all := es + left;
    RenderedSlot(all, |es|);
    if left == [] {
      EntryReplaced(Zeros(32), e);
    } else {
      assert all[|es|] == left[0];
      DatesUnused(left[0]);
      EntryReplaced(EntryImage(left[0]), e);
    }
  }

  lemma DatesUnused(e: Entry)
    requires |e.name| == 11
    ensures EntryImage(e)[12..20] == Zeros(32)[12..20]
  {
  }

  lemma EntryReplaced(slot: seq<Byte>, e: Entry)
    requires |slot| == 32 && slot[12..20] == Zeros(32)[12..20] && |e.name| == 11
    ensures EntryBytes(slot, e.name, e.attr, e.first, e.size) == EntryImage(e)
  {
  }

  lemma PatchRendered(es: seq<Entry>, left: seq<Entry>, e: Entry)
    requires Visible(es) && IsLeftover(left) && |e.name| == 11 && |es| < 64
    ensures Patch(Render(es + left), 32 * |es|, EntryImage(e)) == Render(es + [e])
  {
    hide EntryImage, Render;
    var was, all, n := es + left, es + [e], |es|;
    forall j | 0 <= j < 2048
      ensures Patch(Render(was), 32 * n, EntryImage(e))[j] == Render(all)[j]
    {
      var k, i := j / 32, j % 32;
      assert j == 32 * k + i;
      RenderedByte(was, k, i);
      RenderedByte(all, k, i);
      if k == n {
        assert Patch(Render(was), 32 * n, EntryImage(e))[j] == EntryImage(e)[i];
      } else {
        assert k < n ==> j < 32 * n;
        assert k > n ==> j >= 32 * n + 32;
      }
    }
  }

  // ---------------------------------------------------------------------
  // One call.
  // ---------------------------------------------------------------------

  function Apply(v: Volume, next: nat, op: Op): (r: Volume)
    requires WellSized(v) && 3 <= next && next + op.Need() <= |v.clus| + 2 && 2 <= op.parent < next
    ensures WellSized(r)
  {
    match op
    case FileOp(parent, name, data) => WriteFile(v, next, parent, name, data)
    case DirOp(parent, name) => MakeDirectory(v, next, parent, name)
  }

  /** What a run of clusters holds after the call that allocated it. */
  function FirstContents(op: Op, first: nat, k: nat): (b: seq<Byte>)
    requires k < op.Need()
  {
    if op.FileOp? then Block(op.data, k) else Render(DotEntries(first, op.parent))
  }

  /**
   * Frame and effect of one call: it links and fills its own clusters, adds
   * one entry to its parent, and leaves every other cluster and every other
   * FAT entry, in both copies, and all bytes outside the FATs and the data
   * area as they were.
   */
  ghost predicate Effect(v: Volume, r: Volume, next: nat, op: Op)
    requires WellSized(v) && 3 <= next && next + op.Need() <= |v.clus| + 2 && 2 <= op.parent < next
  {
    var e := EntryOf(op, next);
    && r.reserved == v.reserved && r.tail == v.tail && |r.clus| == |v.clus|
    && r.fat1 == LinkRun(v.fat1, next, op.Need()) && r.fat2 == LinkRun(v.fat2, next, op.Need())
    && (forall i :: 0 <= i < |v.clus| && !(next <= i + 2 < next + op.Need()) && i + 2 != op.parent ==>
          r.clus[i] == v.clus[i])
    && (forall k :: 0 <= k < op.Need() ==> r.clus[next - 2 + k] == FirstContents(op, next, k))
    && r.clus[op.parent - 2] == AddEntry(v.clus[op.parent - 2], e.name, e.attr, e.first, e.size)
  }

  lemma EffectOnParent(v: Volume, r: Volume, next: nat, op: Op)
    requires WellSized(v) && 3 <= next && next + op.Need() <= |v.clus| + 2 && 2 <= op.parent < next
    requires Effect(v, r, next, op)
    ensures |r.clus| == |v.clus|
    ensures var e := EntryOf(op, next);
            r.clus[op.parent - 2] == AddEntry(v.clus[op.parent - 2], e.name, e.attr, e.first, e.size)
  {
  }

  lemma EffectElsewhere(v: Volume, r: Volume, next: nat, op: Op, c: nat)
    requires WellSized(v) && 3 <= next && next + op.Need() <= |v.clus| + 2 && 2 <= op.parent < next
    requires Effect(v, r, next, op)
    requires 2 <= c < |v.clus| + 2 && !(next <= c < next + op.Need()) && c != op.parent
    ensures |r.clus| == |v.clus| && r.clus[c - 2] == v.clus[c - 2]
  {
    var i := c - 2;
    assert r.clus[i] == v.clus[i];
  }

  lemma EffectOnNew(v: Volume, r: Volume, next: nat, op: Op, k: nat)
    requires WellSized(v) && 3 <= next && next + op.Need() <= |v.clus| + 2 && 2 <= op.parent < next
    requires Effect(v, r, next, op) && k < op.Need()
    ensures |r.clus| == |v.clus| && r.clus[next - 2 + k] == FirstContents(op, next, k)
  {
  }

  lemma ApplyEffect(v: Volume, next: nat, op: Op)
    requires WellSized(v) && 3 <= next && next + op.Need() <= |v.clus| + 2 && 2 <= op.parent < next
    ensures Effect(v, Apply(v, next, op), next, op)
  {
    if op.DirOp? {
      hide AddEntry, LinkRun, Render, Block;
      DotsRendered(next, op.parent);
    } else {
      hide AddEntry, LinkRun, Render, Block;
    }
  }

  lemma DotsRendered(d: nat, parent: nat)
    ensures Visible(DotEntries(d, parent))
    ensures AddEntry(AddEntry(Block([], 0), BuilderName(DOT_NAME), ATTR_DIRECTORY, d, 0),
                     BuilderName(DOTDOT_NAME), ATTR_DIRECTORY, if parent == ROOT_CLUS then 0 else parent, 0)
         == Render(DotEntries(d, parent))
  {
    hide Render, AddEntry, Block, BuilderName;
    var es := DotEntries(d, parent);
    DotNames();
    EmptyDirectory();
    FirstEntry(es[0]);
    SecondEntry(es[0], es[1]);
  }

  lemma DotNames()
    ensures BuilderName(DOT_NAME)[0] == DOT && BuilderName(DOTDOT_NAME)[0] == DOT
  {
  }

  lemma EmptyDirectory()
    ensures Block([], 0) == Render([])
  {
  }

  lemma FirstEntry(e: Entry)
    requires |e.name| == 11
    ensures AddEntry(Render([]), e.name, e.attr, e.first, e.size) == Render([e])
  {
    hide Render, AddEntry;
    var none: seq<Entry> := [];
    assert none + none == none && none + [e] == [e];
    AddToRendered(none, none, e);
  }

  lemma SecondEntry(a: Entry, b: Entry)
    requires Visible([a]) && |b.name| == 11
    ensures AddEntry(Render([a]), b.name, b.attr, b.first, b.size) == Render([a, b])
  {
    hide Render, AddEntry;
    assert [a] + [] == [a] && [a] + [b] == [a, b];
    AddToRendered([a], [], b);
  }

  // ---------------------------------------------------------------------
  // Runs.
  // ---------------------------------------------------------------------

  lemma {:induction false} NextGrows(ops: seq<Op>, i: nat, j: nat)
    requires i <= j <= |ops|
    ensures FirstOf(ops, i) + (j - i) <= FirstOf(ops, j)
    ensures i < j ==> FirstOf(ops, i) + ops[i].Need() <= FirstOf(ops, j)
  {
    if i < j {
      assert ops[..j][..j - 1] == ops[..j - 1];
      NextGrows(ops, i, j - 1);
    }
  }

  lemma PrefixFirst(ops: seq<Op>, n: nat, j: nat)
    requires j <= n <= |ops|
    ensures FirstOf(ops[..n], j) == FirstOf(ops, j)
  {
    assert ops[..n][..j] == ops[..j];
  }

  /** Directories are clusters of the run, so they lie below the next free one. */
  lemma {:induction false} DirBelow(ops: seq<Op>, d: nat)
    requires IsDir(ops, d)
    ensures 2 <= d < NextAfter(ops)
  {
    if ops != [] && IsDir(ops[..|ops| - 1], d) {
      DirBelow(ops[..|ops| - 1], d);
    }
  }

  ghost function Run(v: Volume, ops: seq<Op>): (r: Volume)
    requires WellSized(v) && Legal(ops, |v.clus|)
    ensures WellSized(r) && |r.clus| == |v.clus| && |r.fat1| == |v.fat1|
  {
    if ops == [] then v
    else
      DirBelow(ops[..|ops| - 1], ops[|ops| - 1].parent);
      var w := Run(v, ops[..|ops| - 1]);
      ApplyEffect(w, NextAfter(ops[..|ops| - 1]), ops[|ops| - 1]);
      Apply(w, NextAfter(ops[..|ops| - 1]), ops[|ops| - 1])
  }

  /** A formatted volume: two equal, empty FATs, and a zeroed root directory. */
  predicate Fresh(v: Volume) {
    && WellSized(v) && |v.clus| >= 1
    && v.fat1 == v.fat2
    && v.fat1[ROOT_CLUS] == EOC
    && (forall c :: 3 <= c < |v.fat1| ==> v.fat1[c] == 0)
    && v.clus[0] == Zeros(2048)
  }

  /** The invariant of the builder over any run. */
  ghost predicate Chained(v: Volume, ops: seq<Op>)
    requires WellSized(v) && NextAfter(ops) <= |v.clus| + 2
  {
    && v.fat1 == v.fat2
    && v.fat1[ROOT_CLUS] == EOC
    && (forall c :: NextAfter(ops) <= c < |v.fat1| ==> v.fat1[c] == 0)
    && (forall j :: 0 <= j < |ops| ==> RunLinked(v.fat1, FirstOf(ops, j), ops[j].Need()))
  }

  /** The clusters first .. first+n-1 are one chain, in order. */
  predicate RunLinked(fat: seq<nat>, first: nat, n: nat) {
    && first + n <= |fat|
    && forall c :: first <= c < first + n ==> fat[c] == if c + 1 < first + n then c + 1 else EOC
  }

  /** The blocks of `data` lie in the clusters first, first+1, ... */
  predicate FileStored(v: Volume, first: nat, data: seq<Byte>) {
    && 2 <= first && first + ClustersFor(|data|) <= |v.clus| + 2
    && forall k :: 0 <= k < ClustersFor(|data|) ==> v.clus[first - 2 + k] == Block(data, k)
  }

  ghost predicate Stored(v: Volume, ops: seq<Op>)
    requires WellSized(v)
  {
    forall j :: 0 <= j < |ops| && ops[j].FileOp? ==> FileStored(v, FirstOf(ops, j), ops[j].data)
  }

  ghost predicate Listed(v: Volume, ops: seq<Op>)
    requires WellSized(v)
  {
    forall d: nat :: IsDir(ops, d) && 2 <= d < |v.clus| + 2 ==>
      Visible(EntriesOf(ops, d)) && v.clus[d - 2] == Render(SlotsOf(ops, d))
  }

  lemma {:induction false} LastNext(ops: seq<Op>)
    requires ops != []
    ensures NextAfter(ops) == NextAfter(ops[..|ops| - 1]) + ops[|ops| - 1].Need()
  {
  }

  lemma {:induction false} ChainedStep(v: Volume, w: Volume, ops: seq<Op>)
    requires ops != [] && WellSized(v) && WellSized(w) && |w.fat1| == |v.fat1| && |w.clus| == |v.clus|
    requires NextAfter(ops) <= |v.clus| + 2 && Chained(v, ops[..|ops| - 1])
    requires var next, n := NextAfter(ops[..|ops| - 1]), ops[|ops| - 1].Need();
             w.fat1 == LinkRun(v.fat1, next, n) && w.fat2 == LinkRun(v.fat2, next, n)
    ensures Chained(w, ops)
  {
    hide NextAfter, RunLinked;
    var m := |ops| - 1;
    LastNext(ops);
    forall j | 0 <= j < |ops| ensures RunLinked(w.fat1, FirstOf(ops, j), ops[j].Need()) {
      if j < m {
        PrefixFirst(ops, m, j);
        NextGrows(ops, j, m);
        assert RunLinked(v.fat1, FirstOf(ops[..m], j), ops[..m][j].Need());
        LinkElsewhere(v.fat1, FirstOf(ops, m), ops[m].Need(), FirstOf(ops, j), ops[j].Need());
      } else {
        LinkHere(v.fat1, FirstOf(ops, m), ops[m].Need());
      }
    }
  }

  lemma LinkHere(fat: seq<nat>, first: nat, n: nat)
    requires first + n <= |fat|
    ensures RunLinked(LinkRun(fat, first, n), first, n)
  {
  }

  lemma LinkElsewhere(fat: seq<nat>, first: nat, n: nat, first': nat, n': nat)
    requires RunLinked(fat, first', n') && first' + n' <= first
    ensures RunLinked(LinkRun(fat, first, n), first', n')
  {
  }

  lemma {:induction false} StoredStep(v: Volume, w: Volume, ops: seq<Op>)
    requires ops != [] && WellSized(v) && WellSized(w) && NextAfter(ops) <= |v.clus| + 2 && Stored(v, ops[..|ops| - 1])
    requires 2 <= ops[|ops| - 1].parent < NextAfter(ops[..|ops| - 1])
    requires Effect(v, w, NextAfter(ops[..|ops| - 1]), ops[|ops| - 1])
    requires IsDir(ops[..|ops| - 1], ops[|ops| - 1].parent)
    ensures Stored(w, ops)
  {
    hide Effect, IsDir, NextAfter, FileStored, Block;
    var m := |ops| - 1;
    forall j | 0 <= j < |ops| && ops[j].FileOp? ensures FileStored(w, FirstOf(ops, j), ops[j].data) {
      if j < m {
        PrefixFirst(ops, m, j);
        assert FileStored(v, FirstOf(ops[..m], j), ops[..m][j].data);
        OldFile(v, w, ops, j);
      } else {
        NewFile(v, w, ops);
      }
    }
  }

  lemma {:induction false} NewFile(v: Volume, w: Volume, ops: seq<Op>)
    requires ops != [] && WellSized(v) && WellSized(w) && NextAfter(ops) <= |v.clus| + 2
    requires 2 <= ops[|ops| - 1].parent < NextAfter(ops[..|ops| - 1])
    requires Effect(v, w, NextAfter(ops[..|ops| - 1]), ops[|ops| - 1])
    requires ops[|ops| - 1].FileOp?
    ensures FileStored(w, FirstOf(ops, |ops| - 1), ops[|ops| - 1].data)
  {
    hide Block, Effect, NextAfter, EntryOf, AddEntry;
    LastNext(ops);
    var op, next := ops[|ops| - 1], NextAfter(ops[..|ops| - 1]);
    EffectOnParent(v, w, next, op);
    forall k | 0 <= k < op.Need() ensures w.clus[next - 2 + k] == Block(op.data, k) {
      EffectOnNew(v, w, next, op, k);
    }
  }

  lemma {:induction false} OldFile(v: Volume, w: Volume, ops: seq<Op>, j: nat)
    requires ops != [] && WellSized(v) && WellSized(w) && NextAfter(ops) <= |v.clus| + 2
    requires 2 <= ops[|ops| - 1].parent < NextAfter(ops[..|ops| - 1])
    requires Effect(v, w, NextAfter(ops[..|ops| - 1]), ops[|ops| - 1])
    requires IsDir(ops[..|ops| - 1], ops[|ops| - 1].parent)
    requires j < |ops| - 1 && ops[j].FileOp? && FileStored(v, FirstOf(ops, j), ops[j].data)
    ensures FileStored(w, FirstOf(ops, j), ops[j].data)
  {
    hide Effect, NextAfter, FileStored, IsDir, EntryOf, AddEntry;
    var m := |ops| - 1;
    var first := FirstOf(ops, j);
    LastNext(ops);
    EffectOnParent(v, w, NextAfter(ops[..m]), ops[m]);
    PrefixFirst(ops, m, j);
    NextGrows(ops, j, m);
    var next, op := NextAfter(ops[..m]), ops[m];
    FileIsNoDir(ops[..m], j, op.parent);
    forall i | first - 2 <= i < first - 2 + ClustersFor(|ops[j].data|) ensures w.clus[i] == v.clus[i] {
      EffectElsewhere(v, w, next, op, i + 2);
    }
    SameBlocks(v, w, first, ops[j].data);
  }

  lemma SameBlocks(v: Volume, w: Volume, first: nat, data: seq<Byte>)
    requires FileStored(v, first, data) && |w.clus| == |v.clus|
    requires forall i :: first - 2 <= i < first - 2 + ClustersFor(|data|) ==> w.clus[i] == v.clus[i]
    ensures FileStored(w, first, data)
  {
    hide Block;
    forall k | 0 <= k < ClustersFor(|data|) ensures w.clus[first - 2 + k] == Block(data, k) {
      assert v.clus[first - 2 + k] == Block(data, k);
    }
  }

  /** The clusters of a file are not those of a directory. */
  lemma {:induction false} FileIsNoDir(ops: seq<Op>, j: nat, d: nat)
    requires j < |ops| && ops[j].FileOp? && IsDir(ops, d)
    ensures !(FirstOf(ops, j) <= d < FirstOf(ops, j) + ops[j].Need())
  {
    var m := |ops| - 1;
    if j < m {
      PrefixFirst(ops, m, j);
      NextGrows(ops, j, m);
      if IsDir(ops[..m], d) {
        FileIsNoDir(ops[..m], j, d);
      }
    } else {
      DirBelow(ops[..m], d);
    }
  }

  /** A name's first byte is never the end-of-directory mark. */
  lemma NameStart(name: CString)
    ensures BuilderName(name)[0] != 0
  {
    PartsNonZero(name);
  }

  lemma {:induction false} PartsNonZero(s: seq<Byte>)
    requires 0 !in s
    ensures 0 !in BaseOf(s) && 0 !in ExtOf(s)
  {
    if s != [] { PartsNonZero(s[..|s| - 1]); }
  }

  /** What one more call makes of the slots of a directory. */
  lemma EntriesStep(ops: seq<Op>, d: nat)
    requires ops != [] && 2 <= ops[|ops| - 1].parent < NextAfter(ops[..|ops| - 1])
    ensures var front, op := ops[..|ops| - 1], ops[|ops| - 1];
            var next := NextAfter(front);
            && (d != op.parent && d != next ==>
                  EntriesOf(ops, d) == EntriesOf(front, d) && SlotsOf(ops, d) == SlotsOf(front, d))
            && (d == op.parent ==> SlotsOf(ops, d) == EntriesOf(front, d) + [EntryOf(op, next)])
            && (d == op.parent ==>
                  EntriesOf(ops, d) == EntriesOf(front, d) + if LooksDeleted(op.name) then [] else [EntryOf(op, next)])
            && (d == next && op.DirOp? ==> EntriesOf(ops, d) == EntriesOf(front, d) + DotEntries(d, op.parent))
            && (d == next ==> Leftover(ops, d) == Leftover(front, d))
  {
    hide EntryOf, DotEntries, LooksDeleted, NextAfter;
  }

  /** Nothing is listed in a directory that does not exist yet. */
  lemma {:induction false} NoEntriesYet(ops: seq<Op>, clusters: nat, d: nat)
    requires Legal(ops, clusters) && d >= NextAfter(ops)
    ensures EntriesOf(ops, d) == [] && Leftover(ops, d) == []
  {
    if ops != [] {
      var front, op := ops[..|ops| - 1], ops[|ops| - 1];
      NoEntriesYet(front, clusters, d);
      DirBelow(front, op.parent);
    }
  }

  lemma {:induction false} ListedStep(v: Volume, w: Volume, ops: seq<Op>)
    requires ops != [] && WellSized(v) && WellSized(w) && Legal(ops, |v.clus|) && Listed(v, ops[..|ops| - 1])
    requires 2 <= ops[|ops| - 1].parent < NextAfter(ops[..|ops| - 1])
    requires Effect(v, w, NextAfter(ops[..|ops| - 1]), ops[|ops| - 1])
    ensures Listed(w, ops)
  {
    forall d: nat | IsDir(ops, d) && 2 <= d < |w.clus| + 2
      ensures Visible(EntriesOf(ops, d)) && w.clus[d - 2] == Render(SlotsOf(ops, d))
    {
      if d == NextAfter(ops[..|ops| - 1]) {
        NewDirListed(v, w, ops, d);
      } else {
        OldDirListed(v, w, ops, d);
      }
    }
  }

  lemma {:induction false} NewDirListed(v: Volume, w: Volume, ops: seq<Op>, d: nat)
    requires ops != [] && WellSized(v) && WellSized(w) && Legal(ops, |v.clus|)
    requires 2 <= ops[|ops| - 1].parent < NextAfter(ops[..|ops| - 1])
    requires Effect(v, w, NextAfter(ops[..|ops| - 1]), ops[|ops| - 1])
    requires IsDir(ops, d) && d == NextAfter(ops[..|ops| - 1])
    ensures Visible(EntriesOf(ops, d)) && w.clus[d - 2] == Render(SlotsOf(ops, d))
  {
    hide Render, EntriesOf, Leftover, Visible, BuilderName, AddEntry, Effect, DotEntries;
    var m := |ops| - 1;
    var front, op := ops[..m], ops[m];
    LastNext(ops);
    EntriesStep(ops, d);
    NoEntriesYet(front, |v.clus|, d);
    assert op.DirOp? by {
      if IsDir(front, d) { DirBelow(front, d); }
    }
    DotsRendered(d, op.parent);
    assert SlotsOf(ops, d) == EntriesOf(ops, d) == DotEntries(d, op.parent);
    EffectOnNew(v, w, d, op, 0);
  }

  lemma EntryAdded(es: seq<Entry>, left: seq<Entry>, op: Op, first: nat)
    requires Visible(es) && IsLeftover(left)
    ensures Visible(es + if LooksDeleted(op.name) then [] else [EntryOf(op, first)])
    ensures var e := EntryOf(op, first);
            AddEntry(Render(es + left), e.name, e.attr, e.first, e.size) == Render(es + [e])
  {
    hide AddEntry, Render, BuilderName;
    NameStart(op.name);
    AddToRendered(es, left, EntryOf(op, first));
  }

  lemma {:induction false} OldDirListed(v: Volume, w: Volume, ops: seq<Op>, d: nat)
    requires ops != [] && WellSized(v) && WellSized(w) && Legal(ops, |v.clus|) && Listed(v, ops[..|ops| - 1])
    requires 2 <= ops[|ops| - 1].parent < NextAfter(ops[..|ops| - 1])
    requires Effect(v, w, NextAfter(ops[..|ops| - 1]), ops[|ops| - 1])
    requires IsDir(ops, d) && d != NextAfter(ops[..|ops| - 1])
    ensures 2 <= d < |v.clus| + 2 && Visible(EntriesOf(ops, d)) && w.clus[d - 2] == Render(SlotsOf(ops, d))
  {
    hide Render, EntriesOf, Leftover, AddEntry, Visible, BuilderName, LooksDeleted, EntryOf, NextAfter, Effect;
    var m := |ops| - 1;
    var front, op, next := ops[..m], ops[m], NextAfter(ops[..m]);
    LastNext(ops);
    DirBelow(front, d);
    EntriesStep(ops, d);
    assert Visible(EntriesOf(front, d)) && v.clus[d - 2] == Render(SlotsOf(front, d));
    if d == op.parent {
      EntryAdded(EntriesOf(front, d), Leftover(front, d), op, next);
      EffectOnParent(v, w, next, op);
    } else {
      EffectElsewhere(v, w, next, op, d);
    }
  }

  /** The invariant holds after every run from a formatted volume. */
  lemma {:induction false} RunInvariant(v: Volume, ops: seq<Op>)
    requires Fresh(v) && Legal(ops, |v.clus|)
    ensures var r := Run(v, ops);
            && Chained(r, ops) && Stored(r, ops) && Listed(r, ops)
            && r.reserved == v.reserved && r.tail == v.tail
  {
    if ops == [] {
      assert Render([]) == Zeros(2048);
    } else {
      var front := ops[..|ops| - 1];
      DirBelow(front, ops[|ops| - 1].parent);
      RunInvariant(v, front);
      var w := Run(v, front);
      ApplyEffect(w, NextAfter(front), ops[|ops| - 1]);
      hide Apply, Chained, Stored, Listed;
      ChainedStep(w, Run(v, ops), ops);
      StoredStep(w, Run(v, ops), ops);
      ListedStep(w, Run(v, ops), ops);
    }
  }

  // ---------------------------------------------------------------------
  // The same in terms of chains, as a FAT reader follows them.
  // ---------------------------------------------------------------------

  /** The clusters met by following the FAT from cs[0] on are exactly `cs`, and the chain ends there. */
  predicate IsChain(fat: seq<nat>, cs: seq<nat>) {
    && cs != []
    && (forall k :: 0 <= k < |cs| ==> cs[k] < |fat|)
    && (forall k :: 0 <= k < |cs| - 1 ==> fat[cs[k]] == cs[k + 1])
    && fat[cs[|cs| - 1]] == 0x0FFF_FFFF
    && (forall a, b :: 0 <= a < b < |cs| ==> cs[a] != cs[b])
  }

  function ChainOf(ops: seq<Op>, j: nat): (cs: seq<nat>)
    requires j < |ops|
    ensures |cs| == ops[j].Need()
    ensures forall k :: 0 <= k < |cs| ==> cs[k] == FirstOf(ops, j) + k
  {
    RunOfClusters(FirstOf(ops, j), ops[j].Need())
  }

  function RunOfClusters(first: nat, n: nat): (cs: seq<nat>)
    ensures |cs| == n
    ensures forall k :: 0 <= k < n ==> cs[k] == first + k
  {
    if n == 0 then [] else RunOfClusters(first, n - 1) + [first + n - 1]
  }

  /**
   * After any run, every file and directory has a chain of its own: acyclic,
   * ended by 0x0FFFFFFF, within [2, next free cluster), disjoint from all the
   * others and from the root's; both FAT copies say so, and every entry from
   * the next free cluster on is still zero.
   */
  lemma {:induction false} ChainsOfARun(v: Volume, ops: seq<Op>)
    requires Fresh(v) && Legal(ops, |v.clus|)
    ensures var r := Run(v, ops);
            && r.fat1 == r.fat2 && IsChain(r.fat1, [2])
            && (forall j :: 0 <= j < |ops| ==> IsChain(r.fat1, ChainOf(ops, j)))
            && (forall j, k :: 0 <= j < |ops| && 0 <= k < |ChainOf(ops, j)| ==> 3 <= ChainOf(ops, j)[k] < NextAfter(ops))
            && (forall i, j, a, b :: 0 <= i < j < |ops| && 0 <= a < |ChainOf(ops, i)| && 0 <= b < |ChainOf(ops, j)| ==>
                  ChainOf(ops, i)[a] != ChainOf(ops, j)[b])
            && (forall c :: NextAfter(ops) <= c < |r.fat1| ==> r.fat1[c] == 0)
  {
    hide ChainOf, Stored, Listed, NextAfter;
    RunInvariant(v, ops);
    var r := Run(v, ops);
    forall j | 0 <= j < |ops| ensures IsChain(r.fat1, ChainOf(ops, j)) {
      LinkedIsChain(r.fat1, ops, j);
    }
    forall j, k | 0 <= j < |ops| && 0 <= k < |ChainOf(ops, j)| ensures 3 <= ChainOf(ops, j)[k] < NextAfter(ops) {
      assert ops[..|ops|] == ops;
      NextGrows(ops, j, |ops|);
    }
    forall i, j, a, b | 0 <= i < j < |ops| && 0 <= a < |ChainOf(ops, i)| && 0 <= b < |ChainOf(ops, j)|
      ensures ChainOf(ops, i)[a] != ChainOf(ops, j)[b]
    {
      NextGrows(ops, i, j);
    }
  }

  lemma LinkedIsChain(fat: seq<nat>, ops: seq<Op>, j: nat)
    requires j < |ops| && RunLinked(fat, FirstOf(ops, j), ops[j].Need())
    ensures IsChain(fat, ChainOf(ops, j))
  {
    hide ChainOf, FirstOf;
    var cs, first := ChainOf(ops, j), FirstOf(ops, j);
    forall k | 0 <= k < |cs| - 1 ensures fat[cs[k]] == cs[k + 1] {
      assert fat[first + k] == first + k + 1;
    }
  }

  lemma EffectBelow(v: Volume, r: Volume, next: nat, op: Op)
    requires WellSized(v) && 3 <= next && next + op.Need() <= |v.clus| + 2 && 2 <= op.parent < next
    requires Effect(v, r, next, op)
    ensures |r.clus| == |v.clus| && |r.fat1| == |r.fat2| == |v.fat1|
    ensures forall c :: 0 <= c < next ==> r.fat1[c] == v.fat1[c] && r.fat2[c] == v.fat2[c]
    ensures forall i :: 0 <= i < next - 2 && i != op.parent - 2 ==> r.clus[i] == v.clus[i]
  {
  }

  /** Another call leaves every earlier file, its chain, and every directory but the parent as they were. */
  lemma {:induction false} NonInterference(v: Volume, ops: seq<Op>)
    requires Fresh(v) && Legal(ops, |v.clus|) && ops != []
    ensures Legal(ops[..|ops| - 1], |v.clus|)
    ensures var front, op := ops[..|ops| - 1], ops[|ops| - 1];
            var before, after := Run(v, front), Run(v, ops);
            && (forall c :: 0 <= c < NextAfter(front) ==> after.fat1[c] == before.fat1[c] && after.fat2[c] == before.fat2[c])
            && (forall i :: 0 <= i < NextAfter(front) - 2 && i != op.parent - 2 ==> after.clus[i] == before.clus[i])
            && (forall j :: 0 <= j < |front| && front[j].FileOp? ==>
                  FileStored(before, FirstOf(front, j), front[j].data) && FileStored(after, FirstOf(front, j), front[j].data))
  {
    var m := |ops| - 1;
    var front, op := ops[..m], ops[m];
    var before, after := Run(v, front), Run(v, ops);
    hide Run, Effect, Chained, Stored, Listed, FileStored, NextAfter, IsDir, Fresh;
    LastStep(v, ops);
    EffectBelow(before, after, NextAfter(front), op);
    RunInvariant(v, front);
    RunInvariant(v, ops);
    FilesStay(before, after, ops);
  }

  lemma LastStep(v: Volume, ops: seq<Op>)
    requires WellSized(v) && Legal(ops, |v.clus|) && ops != []
    ensures var front, op := ops[..|ops| - 1], ops[|ops| - 1];
            && Legal(front, |v.clus|) && NextAfter(front) + op.Need() <= |v.clus| + 2 && 2 <= op.parent < NextAfter(front)
            && Effect(Run(v, front), Run(v, ops), NextAfter(front), op)
  {
    hide Effect;
    var front, op := ops[..|ops| - 1], ops[|ops| - 1];
    DirBelow(front, op.parent);
    LastNext(ops);
    ApplyEffect(Run(v, front), NextAfter(front), op);
  }

  lemma FilesStay(before: Volume, after: Volume, ops: seq<Op>)
    requires WellSized(before) && WellSized(after) && ops != [] && Stored(before, ops[..|ops| - 1]) && Stored(after, ops)
    ensures var front := ops[..|ops| - 1];
            forall j :: 0 <= j < |front| && front[j].FileOp? ==>
              FileStored(before, FirstOf(front, j), front[j].data) && FileStored(after, FirstOf(front, j), front[j].data)
  {
    hide FileStored, NextAfter;
    var m := |ops| - 1;
    var front := ops[..m];
    forall j | 0 <= j < |front| && front[j].FileOp?
      ensures FileStored(before, FirstOf(front, j), front[j].data) && FileStored(after, FirstOf(front, j), front[j].data)
    {
      PrefixFirst(ops, m, j);
      assert ops[j] == front[j];
    }
  }
}
