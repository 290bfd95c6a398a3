/** What the remapping guarantees, over every device population. */
module PciWindows {
  import opened Arithmetic
  import opened Bytes
  import opened Pci

  // ---------------------------------------------------------------------
  // The windows handed out.
  // ---------------------------------------------------------------------

  function Total(log: seq<Window>): (t: nat) {
    if log == [] then 0 else Total(log[..|log| - 1]) + log[|log| - 1].len
  }

  function Floor(log: seq<Window>): nat {
    if log == [] then TOP else log[|log| - 1].base
  }

  /** Each window is aligned to its size and lies below the one before, the first one below 0xE0000000. */
  predicate Stacked(log: seq<Window>) {
    log == [] ||
    var front, w := log[..|log| - 1], log[|log| - 1];
    Stacked(front) && w.len > 0 && w.base % w.len == 0 && w.base + w.len <= Floor(front)
  }

  /** Where the framebuffer is after the moves so far: the last moved BAR that contained it decides. */
  function Followed(log: seq<Window>, fb: nat): (r: nat) {
    if log == [] then fb
    else
      var w := log[|log| - 1];
      if w.before <= fb < w.before + w.len then w.base + (fb - w.before) else Followed(log[..|log| - 1], fb)
  }

  predicate Moved(log: seq<Window>, a: nat) {
    log != [] && (log[|log| - 1].addr == a || Moved(log[..|log| - 1], a))
  }

  /** The device behind `w` decodes the window `w` and nothing else. */
  ghost predicate Placed(size: Sizes, regs0: Regs, regs: Regs, w: Window) {
    && w.addr in size && w.addr in regs0 && w.addr in regs && w.addr + 4 in regs
    && w.len == BarLen(size, regs0, w.addr) && w.before == BarAddress(regs0, w.addr)
    && regs[w.addr + 4] == 0
    && (size[w.addr] <= MAX_WINDOW ==> regs[w.addr] == w.base + regs0[w.addr] % 16)
  }

  ghost predicate AllPlaced(size: Sizes, regs0: Regs, regs: Regs, log: seq<Window>) {
    log == [] ||
    var front, w := log[..|log| - 1], log[|log| - 1];
    AllPlaced(size, regs0, regs, front) && Placed(size, regs0, regs, w) && !Moved(front, w.addr)
  }

  /** Neither a command dword nor half of a 64-bit BAR. */
  predicate Unrelated(size: Sizes, x: nat) {
    x % 256 != 4 && x !in size && (x >= 4 ==> x - 4 !in size)
  }

  /** What a walk in progress has left alone: everything but the BARs it moved and the command dwords. */
  ghost predicate Framed(size: Sizes, regs0: Regs, regs: Regs, log: seq<Window>) {
    && regs.Keys == regs0.Keys
    && (forall x :: x in regs0 && Unrelated(size, x) ==> regs[x] == regs0[x])
    && (forall a :: a in size && a in regs0 ==> regs[a] % 16 == regs0[a] % 16)
    && (forall a :: a in size && a in regs0 && a + 4 in regs0 && !Moved(log, a) ==>
          regs[a] == regs0[a] && regs[a + 4] == regs0[a + 4])
  }

  /** A function of which some BAR was moved. */
  predicate Touched(log: seq<Window>, key: nat) {
    log != [] && (log[|log| - 1].addr / 256 == key || Touched(log[..|log| - 1], key))
  }

  /** Command dwords: memory decoding and bus mastering are on where a BAR was moved; nothing else has changed. */
  ghost predicate Commanded(regs0: Regs, regs: Regs, log: seq<Window>) {
    && regs.Keys == regs0.Keys
    && (forall x :: x in regs0 && x % 256 == 4 ==>
          regs[x] == if Touched(log, x / 256) then WithMemoryAndMaster(regs0[x]) else regs0[x])
  }

  /** The functions the walk gets to: all of a multifunction device, otherwise function 0. */
  predicate Reached(regs: Regs, key: nat, func: nat) {
    && Present(regs, key + func)
    && (func == 0 || (Present(regs, key) && Multifunction(regs, key)))
  }

  predicate ReachedAt(regs: Regs, key: nat) {
    Reached(regs, key - key % 8, key % 8)
  }

  /** Only BARs above 4 GB, and only of functions the walk gets to, are moved. */
  ghost predicate Rightly(size: Sizes, regs0: Regs, log: seq<Window>) {
    forall a: nat :: Moved(log, a) ==> a in size && Read(regs0, a + 4) != 0 && ReachedAt(regs0, a / 256)
  }

  /** The invariant of the walk, against the configuration space `regs0` it started from. */
  ghost predicate Inv(size: Sizes, regs0: Regs, fb: nat, st: State) {
    && Framed(size, regs0, st.regs, st.log)
    && AllPlaced(size, regs0, st.regs, st.log)
    && Commanded(regs0, st.regs, st.log)
    && Rightly(size, regs0, st.log)
    && st.newFb == Followed(st.log, fb)
    && Allocated(st.log, st.next)
  }

  /** High halves that are zero stay zero. */
  ghost predicate Later(size: Sizes, regs: Regs, regs': Regs) {
    forall b :: b in size && Read(regs, b + 4) == 0 ==> Read(regs', b + 4) == 0
  }

  // ---------------------------------------------------------------------
  // One move.
  // ---------------------------------------------------------------------

  lemma BarFacts(size: Sizes, regs0: Regs, a: nat)
    requires Populated(size, regs0) && a in size
    ensures a in regs0 && a + 4 in regs0 && a + 4 !in size && 0x10 <= a % 256 <= 0x20 && (a + 4) % 256 == a % 256 + 4
    ensures a % 4 == 0 && Is64(regs0[a])
    ensures PowerOfTwo(size[a]) && 16 <= size[a] <= TWO32 && size[a] % 16 == 0
  {
    hide PowerOfTwo, Is64;
    SizeFacts(size, a);
    NextDword(a);
  }

  lemma NextDword(a: nat)
    requires a % 256 <= 0x20
    ensures (a + 4) % 256 == a % 256 + 4
  {
    assert a + 4 == 256 * (a / 256) + (a % 256 + 4);
  }

  lemma SizeFacts(size: Sizes, a: nat)
    requires a in size
    ensures PowerOfTwo(size[a]) && 16 <= size[a] <= TWO32 && size[a] % 16 == 0
  {
    Power32();
    PowersDivide(16, size[a]);
  }

  /** One BAR and the command dword change: the new halves, flag bits kept, and the enabled command. */
  ghost predicate Step(size: Sizes, regs: Regs, regs': Regs, c: nat, a: nat, base: nat) {
    && regs'.Keys == regs.Keys && a in size && a in regs && a + 4 in regs
    && regs'[a] == AlignDown(base + regs[a] % 16, size[a]) + regs[a] % 16 && regs'[a] % 16 == regs[a] % 16
    && regs'[a + 4] == 0
    && (c in regs ==> regs'[c] == WithMemoryAndMaster(regs[c]))
    && (forall x :: x in regs && x != a && x != a + 4 && x != c ==> regs'[x] == regs[x])
  }

  /** That is what the five writes come down to. */
  lemma RewriteEffect(size: Sizes, regs: Regs, c: nat, a: nat, base: nat)
    requires a in size && a in regs && a + 4 in regs && a + 4 !in size && c !in size && c != a && c != a + 4
    requires size[a] % 16 == 0
    ensures Step(size, regs, Rewrite(size, regs, c, a, base), c, a, base)
  {
    RewriteValue(size, regs, c, a, base);
    RewriteCommand(size, regs, c, a, base);
    FlagsStay(base + regs[a] % 16, size[a], regs[a] % 16);
    hide Rewrite, AlignDown, WithMemoryAndMaster;
    forall x | x in regs && x != a && x != a + 4 && x != c ensures Rewrite(size, regs, c, a, base)[x] == regs[x] {
      RewriteElsewhere(size, regs, c, a, base, x);
    }
  }

  lemma RewriteCommand(size: Sizes, regs: Regs, c: nat, a: nat, base: nat)
    requires c !in size
    ensures c in regs ==> Rewrite(size, regs, c, a, base)[c] == WithMemoryAndMaster(regs[c])
  {
    hide WithoutMemory, WithMemoryAndMaster, AlignDown;
  }

  /** Memory decoding (bit 1) and bus mastering (bit 2) are on, the other bits as before; doing it twice is doing it once. */
  lemma CommandBits(cmd: nat)
    ensures var r := WithMemoryAndMaster(cmd);
            r / 2 % 2 == 1 && r / 4 % 2 == 1 && r % 2 == cmd % 2 && r / 8 == cmd / 8 && WithMemoryAndMaster(r) == r
  {
    var q, k := cmd / 8, cmd % 8;
    var k' := k + (1 - k / 2 % 2) * 2 + (1 - k / 4 % 2) * 4;
    LowBits(q, k);
    LowBits(q, k');
    Enabled(k);
    Enabled(k');
  }

  /** In numbers: bits 1 and 2 of the lowest three are on, bit 0 and everything above stay. */
  lemma CommandInNumbers(cmd: nat)
    ensures WithMemoryAndMaster(cmd) == 8 * (cmd / 8) + 6 + cmd % 2
  {
    var q, k := cmd / 8, cmd % 8;
    LowBits(q, k);
    EightCases(k);
  }

  lemma EightCases(k: nat)
    requires k < 8
    ensures k + (1 - k / 2 % 2) * 2 + (1 - k / 4 % 2) * 4 == 6 + k % 2
  {
  }

  lemma Enabled(k: nat)
    requires k < 8
    ensures var r := k + (1 - k / 2 % 2) * 2 + (1 - k / 4 % 2) * 4;
            && r < 8 && r / 2 % 2 == 1 && r / 4 % 2 == 1 && r % 2 == k % 2
            && (k / 2 % 2 == 1 && k / 4 % 2 == 1 ==> r == k)
  {
  }

  lemma LowBits(q: nat, k: nat)
    requires k < 8
    ensures var x := 8 * q + k; x % 2 == k % 2 && x / 2 % 2 == k / 2 % 2 && x / 4 % 2 == k / 4 % 2 && x / 8 == q
  {
    var x := 8 * q + k;
    DivUnique(x, 2, 4 * q + k / 2, k % 2);
    DivUnique(x / 2, 2, 2 * q + k / 4, k / 2 % 2);
    DivUnique(x, 4, 2 * q + k / 4, k % 4);
    DivUnique(x / 4, 2, q, k / 4);
    DivUnique(x, 8, q, k);
  }

  lemma RewriteValue(size: Sizes, regs: Regs, c: nat, a: nat, base: nat)
    requires a in size && a in regs && a + 4 in regs && a + 4 !in size && c !in size && c != a && c != a + 4
    requires size[a] % 16 == 0
    ensures var r, f := Rewrite(size, regs, c, a, base), regs[a] % 16;
            r[a] == AlignDown(base + f, size[a]) + f && r[a + 4] == 0
  {
    hide AlignDown, WithoutMemory, WithMemoryAndMaster, Store;
    var n, f := size[a], regs[a] % 16;
    var r1 := Store(size, regs, c, WithoutMemory(Read(regs, c)));
    StoreElsewhere(size, regs, c, WithoutMemory(Read(regs, c)), a);
    var r2 := Store(size, r1, a, 0xFFFF_FFFF);
    StoreThere(size, r1, a, 0xFFFF_FFFF);
    FlagsStay(0xFFFF_FFFF, n, f);
    var r3 := Store(size, r2, a, base + f);
    StoreThere(size, r2, a, base + f);
    var r4 := Store(size, r3, a + 4, 0);
    StoreThere(size, r3, a + 4, 0);
    StoreElsewhere(size, r3, a + 4, 0, a);
    StoreElsewhere(size, r4, c, WithMemoryAndMaster(Read(regs, c)), a);
    StoreElsewhere(size, r4, c, WithMemoryAndMaster(Read(regs, c)), a + 4);
  }

  lemma RewriteElsewhere(size: Sizes, regs: Regs, c: nat, a: nat, base: nat, x: nat)
    requires x in regs && x != a && x != a + 4 && x != c
    ensures Rewrite(size, regs, c, a, base)[x] == regs[x]
  {
    hide WithoutMemory, WithMemoryAndMaster, Store;
    var r1 := Store(size, regs, c, WithoutMemory(Read(regs, c)));
    StoreElsewhere(size, regs, c, WithoutMemory(Read(regs, c)), x);
    var r2 := Store(size, r1, a, 0xFFFF_FFFF);
    StoreElsewhere(size, r1, a, 0xFFFF_FFFF, x);
    var r3 := Store(size, r2, a, base + Read(regs, a) % 16);
    StoreElsewhere(size, r2, a, base + Read(regs, a) % 16, x);
    StoreElsewhere(size, r3, a + 4, 0, x);
    StoreElsewhere(size, Store(size, r3, a + 4, 0), c, WithMemoryAndMaster(Read(regs, c)), x);
  }

  lemma StoreThere(size: Sizes, regs: Regs, a: nat, v: nat)
    requires a in regs
    ensures Store(size, regs, a, v)[a] == if a in size then AlignDown(v, size[a]) + regs[a] % 16 else v
  {
  }

  lemma StoreElsewhere(size: Sizes, regs: Regs, a: nat, v: nat, x: nat)
    requires x in regs && x != a
    ensures Store(size, regs, a, v)[x] == regs[x]
  {
    hide AlignDown;
  }

  lemma FlagsStay(v: nat, n: nat, f: nat)
    requires n > 0 && n % 16 == 0 && f < 16
    ensures (AlignDown(v, n) + f) % 16 == f
  {
    hide AlignDown;
    MultipleOf16(AlignDown(v, n), n);
  }

  lemma MultipleOf16(x: nat, n: nat)
    requires n > 0 && n % 16 == 0 && x % n == 0
    ensures x % 16 == 0
  {
    var q, k := x / n, n / 16;
    assert x == q * n == q * (16 * k);
    Assoc(q, k);
    DivUnique(x, 16, q * k, 0);
  }

  lemma Assoc(q: int, k: int)
    ensures q * (16 * k) == q * k * 16
  {
  }

  /** A BAR of at most 512 MB stores the base it is given. */
  lemma StoresBase(n: nat, base: nat, f: nat)
    requires n >= 16 && base % n == 0 && f < 16
    ensures AlignDown(base + f, n) == base
  {
    AlignUnique(base + f, n, base);
  }

  lemma {:induction false} StillPlaced(size: Sizes, regs0: Regs, regs: Regs, regs': Regs, log: seq<Window>,
                                       c: nat, a: nat, base: nat)
    requires Populated(size, regs0) && AllPlaced(size, regs0, regs, log) && !Moved(log, a)
    requires c % 256 == 4 && Step(size, regs, regs', c, a, base)
    ensures AllPlaced(size, regs0, regs', log)
  {
    hide Populated, Step, Placed;
    if log != [] {
      var w := log[|log| - 1];
      StillPlaced(size, regs0, regs, regs', log[..|log| - 1], c, a, base);
      WindowStays(size, regs0, regs, regs', w, c, a, base);
    }
  }

  lemma WindowStays(size: Sizes, regs0: Regs, regs: Regs, regs': Regs, w: Window, c: nat, a: nat, base: nat)
    requires Populated(size, regs0) && Placed(size, regs0, regs, w) && w.addr != a
    requires c % 256 == 4 && Step(size, regs, regs', c, a, base)
    ensures Placed(size, regs0, regs', w)
  {
    hide Populated, BarLen, BarAddress, AlignDown;
    Apart(size, regs0, a, c);
    Apart(size, regs0, w.addr, c);
  }

  lemma {:induction false} MovedIsZero(size: Sizes, regs0: Regs, regs: Regs, log: seq<Window>, a: nat)
    requires AllPlaced(size, regs0, regs, log) && Moved(log, a)
    ensures a + 4 in regs && regs[a + 4] == 0
  {
    if log[|log| - 1].addr != a { MovedIsZero(size, regs0, regs, log[..|log| - 1], a); }
  }

  /** The allocator goes down by less than twice the size. */
  lemma NextWindow(next: nat, len: nat)
    requires 0 < len <= next < TWO32
    ensures var base := NextBase(next, len); base + len <= next < base + 2 * len && base % len == 0
  {
  }

  lemma Apart(size: Sizes, regs0: Regs, a: nat, c: nat)
    requires Populated(size, regs0) && a in size && c % 256 == 4
    ensures a in regs0 && a + 4 in regs0 && a != c && a + 4 != c && c !in size
    ensures forall b :: b in size ==> b in regs0 && b + 4 in regs0 && b != c && b + 4 != c && b + 4 != a && b != a + 4
  {
    hide Populated, PowerOfTwo;
    if c in size { BarFacts(size, regs0, c); }
    BarFacts(size, regs0, a);
    forall b | b in size ensures b in regs0 && b + 4 in regs0 && b != c && b + 4 != c && b + 4 != a && b != a + 4 {
      BarFacts(size, regs0, b);
    }
  }

  /** A move touches only its own BAR and the command dword. */
  lemma MoveFrames(size: Sizes, regs0: Regs, regs: Regs, regs': Regs, log: seq<Window>, w: Window, c: nat)
    requires Populated(size, regs0) && Framed(size, regs0, regs, log)
    requires c % 256 == 4 && Step(size, regs, regs', c, w.addr, w.base)
    ensures Framed(size, regs0, regs', log + [w])
  {
    hide Populated, PowerOfTwo, Unrelated, AlignDown, Moved;
    var a, all := w.addr, log + [w];
    MovedToo(log, w);
    Apart(size, regs0, a, c);
    forall x | x in regs0 && Unrelated(size, x) ensures regs'[x] == regs0[x] {
      NotUnrelated(size, x, a, c);
    }
    FlagsKept(size, regs0, regs, regs', log, c, a, w.base);
  }

  lemma {:induction false} MovedToo(log: seq<Window>, w: Window)
    ensures forall a :: Moved(log + [w], a) <==> w.addr == a || Moved(log, a)
  {
    var all := log + [w];
    assert all[..|log|] == log && all[|log|] == w;
  }

  lemma FlagsKept(size: Sizes, regs0: Regs, regs: Regs, regs': Regs, log: seq<Window>, c: nat, a: nat, base: nat)
    requires Populated(size, regs0) && Framed(size, regs0, regs, log)
    requires c % 256 == 4 && Step(size, regs, regs', c, a, base)
    ensures forall b :: b in size && b in regs0 ==> regs'[b] % 16 == regs0[b] % 16
  {
    hide Populated, PowerOfTwo, Unrelated, AlignDown, Moved;
    Apart(size, regs0, a, c);
    forall b | b in size && b in regs0 ensures regs'[b] % 16 == regs0[b] % 16 {
      assert b != c && b != a + 4;
    }
  }

  /** The command dword of the function is enabled, however often that has been done before. */
  lemma MoveCommands(size: Sizes, regs0: Regs, regs: Regs, regs': Regs, log: seq<Window>, w: Window, key: nat)
    requires Populated(size, regs0) && Commanded(regs0, regs, log)
    requires w.addr / 256 == key && Step(size, regs, regs', Reg(key, 4), w.addr, w.base)
    ensures Commanded(regs0, regs', log + [w])
  {
    hide Populated, AlignDown, WithMemoryAndMaster;
    var a, c, all := w.addr, Reg(key, 4), log + [w];
    assert all[..|log|] == log && all[|log|] == w;
    RegParts(key, 4);
    BarFacts(size, regs0, a);
    forall x | x in regs0 && x % 256 == 4
      ensures regs'[x] == if Touched(all, x / 256) then WithMemoryAndMaster(regs0[x]) else regs0[x]
    {
      if x == c {
        CommandBits(regs0[x]);
      } else {
        assert x / 256 != key;
      }
    }
  }

  lemma NotUnrelated(size: Sizes, x: nat, a: nat, c: nat)
    requires Unrelated(size, x) && a in size && c % 256 == 4
    ensures x != a && x != c && x != a + 4
  {
  }

  predicate Allocated(log: seq<Window>, next: nat) {
    2 * Total(log) <= TOP ==> Stacked(log) && next == Floor(log) && Floor(log) + 2 * Total(log) >= TOP
  }

  lemma MoveAllocates(log: seq<Window>, next: nat, w: Window)
    requires Allocated(log, next) && w.len > 0 && w.base == NextBase(next, w.len)
    ensures Allocated(log + [w], w.base)
  {
    hide NextBase;
    var all := log + [w];
    assert all[..|log|] == log && all[|log|] == w;
    if 2 * Total(all) <= TOP {
      FloorBelow(log);
      NextWindow(next, w.len);
    }
  }

  lemma {:induction false} FloorBelow(log: seq<Window>)
    requires Stacked(log)
    ensures Floor(log) <= TOP
  {
    if log != [] { FloorBelow(log[..|log| - 1]); }
  }

  /** The BAR of the new window was not moved before, and holds the window now. */
  lemma {:induction false} MovePlaces(size: Sizes, regs0: Regs, st: State, r: State, w: Window, c: nat)
    requires Populated(size, regs0) && Framed(size, regs0, st.regs, st.log) && AllPlaced(size, regs0, st.regs, st.log)
    requires w.addr in size && c % 256 == 4 && !Moved(st.log, w.addr)
    requires Step(size, st.regs, r.regs, c, w.addr, w.base) && r.log == st.log + [w]
    requires w.len == BarLen(size, st.regs, w.addr) && w.before == BarAddress(st.regs, w.addr) && w.base % w.len == 0
    ensures AllPlaced(size, regs0, r.regs, r.log)
  {
    hide Populated, BarLen, BarAddress, Placed, Step;
    assert r.log[..|st.log|] == st.log && r.log[|r.log| - 1] == w;
    NewPlaced(size, regs0, st, r, w, c);
    StillPlaced(size, regs0, st.regs, r.regs, st.log, c, w.addr, w.base);
  }

  lemma ZerosStay(size: Sizes, regs0: Regs, regs: Regs, regs': Regs, c: nat, a: nat, base: nat)
    requires Populated(size, regs0) && c % 256 == 4 && regs.Keys == regs0.Keys && Step(size, regs, regs', c, a, base)
    ensures Read(regs', a + 4) == 0 && Later(size, regs, regs')
  {
    hide Populated, AlignDown;
    Apart(size, regs0, a, c);
    forall b | b in size && Read(regs, b + 4) == 0 ensures Read(regs', b + 4) == 0 {
      assert b + 4 != a && b + 4 != c;
    }
  }

  /** A BAR with a high half has not been moved yet, and is as it was at the start. */
  lemma NotYetMoved(size: Sizes, regs0: Regs, fb: nat, st: State, a: nat)
    requires Populated(size, regs0) && Inv(size, regs0, fb, st) && a in size && Read(st.regs, a + 4) != 0
    ensures !Moved(st.log, a) && a in regs0 && a + 4 in regs0 && st.regs.Keys == regs0.Keys
    ensures st.regs[a] == regs0[a] && st.regs[a + 4] == regs0[a + 4] && Read(regs0, a + 4) != 0
  {
    hide Populated, Commanded, Rightly, Allocated, Followed;
    BarFacts(size, regs0, a);
    if Moved(st.log, a) { MovedIsZero(size, regs0, st.regs, st.log, a); }
  }

  lemma MoveRewrites(size: Sizes, regs0: Regs, fb: nat, st: State, c: nat, a: nat)
    requires Populated(size, regs0) && a in size && c % 256 == 4 && st.regs.Keys == regs0.Keys
    ensures var r := Move(size, st, fb, c, a);
            |r.log| == |st.log| + 1 && Step(size, st.regs, r.regs, c, a, r.log[|st.log|].base)
  {
    hide Rewrite, Populated, PowerOfTwo, NextBase, BarLen, BarAddress, Step, Read;
    BarFacts(size, regs0, a);
    Apart(size, regs0, a, c);
    RewriteEffect(size, st.regs, c, a, NextBase(st.next, BarLen(size, st.regs, a)));
  }

  lemma MoveRightly(size: Sizes, regs0: Regs, log: seq<Window>, w: Window)
    requires Rightly(size, regs0, log) && w.addr in size && Read(regs0, w.addr + 4) != 0 && ReachedAt(regs0, w.addr / 256)
    ensures Rightly(size, regs0, log + [w])
  {
    hide Read, ReachedAt;
    var all := log + [w];
    assert all[..|log|] == log && all[|log|] == w;
  }

  lemma MoveKeeps(size: Sizes, regs0: Regs, fb: nat, st: State, key: nat, a: nat)
    requires Populated(size, regs0) && Inv(size, regs0, fb, st)
    requires a in size && Read(st.regs, a + 4) != 0 && a / 256 == key && ReachedAt(regs0, key)
    ensures var r := Move(size, st, fb, Reg(key, 4), a);
            Inv(size, regs0, fb, r) && Later(size, st.regs, r.regs) && Read(r.regs, a + 4) == 0
  {
    hide Rewrite, Populated, NextBase, BarLen, Framed, AllPlaced, BarAddress, Commanded, Rightly, Allocated, Step, Later, Read, ReachedAt;
    NotYetMoved(size, regs0, fb, st, a);
    RegParts(key, 4);
    var c, r := Reg(key, 4), Move(size, st, fb, Reg(key, 4), a);
    hide Reg;
    MoveRewrites(size, regs0, fb, st, c, a);
    var w := r.log[|st.log|];
    assert r.log == st.log + [w] && r.log[..|st.log|] == st.log;
    MoveKeepsRegs(size, regs0, st, r, w, key);
    MoveRightly(size, regs0, st.log, w);
    MoveAllocates(st.log, st.next, w);
    ZerosStay(size, regs0, st.regs, r.regs, c, a, w.base);
  }

  lemma {:induction false} MoveKeepsRegs(size: Sizes, regs0: Regs, st: State, r: State, w: Window, key: nat)
    requires Populated(size, regs0) && Framed(size, regs0, st.regs, st.log) && AllPlaced(size, regs0, st.regs, st.log)
    requires Commanded(regs0, st.regs, st.log) && w.addr in size && w.addr / 256 == key && !Moved(st.log, w.addr)
    requires Step(size, st.regs, r.regs, Reg(key, 4), w.addr, w.base) && r.log == st.log + [w]
    requires w.len == BarLen(size, st.regs, w.addr) && w.before == BarAddress(st.regs, w.addr) && w.base % w.len == 0
    ensures Framed(size, regs0, r.regs, r.log) && AllPlaced(size, regs0, r.regs, r.log) && Commanded(regs0, r.regs, r.log)
  {
    hide Populated, BarLen, BarAddress, Framed, AllPlaced, Commanded, Step, Moved;
    RegParts(key, 4);
    MoveFrames(size, regs0, st.regs, r.regs, st.log, w, Reg(key, 4));
    MovePlaces(size, regs0, st, r, w, Reg(key, 4));
    MoveCommands(size, regs0, st.regs, r.regs, st.log, w, key);
  }

  lemma NewPlaced(size: Sizes, regs0: Regs, st: State, r: State, w: Window, c: nat)
    requires Populated(size, regs0) && Framed(size, regs0, st.regs, st.log) && !Moved(st.log, w.addr)
    requires Step(size, st.regs, r.regs, c, w.addr, w.base)
    requires w.len == BarLen(size, st.regs, w.addr) && w.before == BarAddress(st.regs, w.addr) && w.base % w.len == 0
    ensures Placed(size, regs0, r.regs, w)
  {
    hide AlignDown, Populated, BarLen, BarAddress, PowerOfTwo, Unrelated, Is64;
    BarFacts(size, regs0, w.addr);
    SameLength(size, st.regs, regs0, w.addr);
    SameAddress(st.regs, regs0, w.addr);
    WindowHeld(size, regs0, r.regs, w);
  }

  lemma SameAddress(regs: Regs, regs0: Regs, a: nat)
    requires Read(regs, a) == Read(regs0, a) && Read(regs, a + 4) == Read(regs0, a + 4)
    ensures BarAddress(regs, a) == BarAddress(regs0, a)
  {
  }

  lemma WindowHeld(size: Sizes, regs0: Regs, regs: Regs, w: Window)
    requires w.addr in size && w.addr in regs0 && w.addr in regs && w.addr + 4 in regs && regs[w.addr + 4] == 0
    requires w.len == BarLen(size, regs0, w.addr) && w.before == BarAddress(regs0, w.addr) && w.base % w.len == 0
    requires regs[w.addr] == AlignDown(w.base + regs0[w.addr] % 16, size[w.addr]) + regs0[w.addr] % 16
    ensures Placed(size, regs0, regs, w)
  {
    hide AlignDown, BarAddress;
    if size[w.addr] <= MAX_WINDOW { StoresBase(size[w.addr], w.base, regs0[w.addr] % 16); }
  }

  // ---------------------------------------------------------------------
  // The walk.
  // ---------------------------------------------------------------------

  /** The BARs of a function, from index `bar` on, have no high half left. */
  ghost predicate Cleared(size: Sizes, regs: Regs, key: nat, bar: nat) {
    forall a :: a in size && a / 256 == key && a % 256 >= 0x10 + 4 * bar ==> Read(regs, a + 4) == 0
  }

  lemma FlagsDecide(x: nat, y: nat)
    requires x % 16 == y % 16
    ensures Is64(x) == Is64(y)
  {
    FlagBits(x / 16, x % 16);
    FlagBits(y / 16, y % 16);
  }

  lemma FlagBits(q: nat, f: nat)
    requires f < 16
    ensures (16 * q + f) % 2 == f % 2 && (16 * q + f) / 2 % 4 == f / 2 % 4
  {
    assert (16 * q + f) / 2 == 4 * (2 * q) + f / 2;
  }

  /** At a position that is no high half, the walk sees a 64-bit BAR exactly where there is one. */
  lemma SeesBar(size: Sizes, regs0: Regs, st: State, key: nat, bar: nat)
    requires Populated(size, regs0) && Framed(size, regs0, st.regs, st.log) && bar < 5
    requires bar > 0 ==> Reg(key, 0x10 + 4 * (bar - 1)) !in size
    ensures Is64(Read(st.regs, Reg(key, 0x10 + 4 * bar))) <==> Reg(key, 0x10 + 4 * bar) in size
  {
    hide Is64, Populated, Unrelated, Moved, PowerOfTwo;
    var a := Reg(key, 0x10 + 4 * bar);
    RegParts(key, 0x10 + 4 * bar);
    RegParts(key, 0x0C + 4 * bar);
    assert Reg(key, 0x0C + 4 * bar) == a - 4 && (bar > 0 ==> Reg(key, 0x10 + 4 * (bar - 1)) == a - 4);
    hide Reg;
    if a in size {
      BarFacts(size, regs0, a);
      FlagsDecide(st.regs[a], regs0[a]);
    } else if a in regs0 {
      assert a - 4 !in size by {
        if a - 4 in size { BarFacts(size, regs0, a - 4); }
      }
      NotWide(size, regs0, a);
    } else {
      Wide(0xFFFF_FFFF);
    }
  }

  lemma RegParts(key: nat, off: nat)
    requires off < 256
    ensures Reg(key, off) % 256 == off && Reg(key, off) / 256 == key && Reg(key, off) % 4 == off % 4
  {
    assert Reg(key, off) == 4 * (64 * key) + off;
  }

  lemma Wide(x: nat)
    requires x % 2 == 1
    ensures !Is64(x)
  {
  }

  lemma NotWide(size: Sizes, regs0: Regs, a: nat)
    requires Populated(size, regs0) && a in regs0 && a % 4 == 0 && 0x10 <= a % 256 <= 0x20 && a !in size && a - 4 !in size
    ensures !Is64(regs0[a]) && Unrelated(size, a)
  {
    hide Is64;
  }

  lemma {:induction false} BarsScanned(size: Sizes, regs0: Regs, fb: nat, st: State, key: nat, bar: nat)
    requires Populated(size, regs0) && Inv(size, regs0, fb, st) && ReachedAt(regs0, key)
    requires bar <= 6 && (bar > 0 ==> Reg(key, 0x10 + 4 * (bar - 1)) !in size)
    ensures var r := ScanBars(size, st, fb, key, bar);
            Inv(size, regs0, fb, r) && Later(size, st.regs, r.regs) && Cleared(size, r.regs, key, bar)
    decreases 6 - bar
  {
    hide Populated, Move, Is64, Inv, ScanBars, Read, Cleared, Reg, ReachedAt;
    if bar >= 6 {
      ScanEnd(size, st, fb, key);
      NoBarsThere(size, regs0, st.regs, key, bar);
    } else {
      WalkStep(size, regs0, fb, st, key, bar);
      var a := Reg(key, 0x10 + 4 * bar);
      if a in size {
        var next := if Read(st.regs, a + 4) != 0 then Move(size, st, fb, Reg(key, 4), a) else st;
        BarMoved(size, regs0, fb, st, key, bar);
        AfterBar(size, regs0, key, bar);
        BarsScanned(size, regs0, fb, next, key, bar + 2);
        ClearedTwo(size, regs0, ScanBars(size, next, fb, key, bar + 2).regs, key, bar);
      } else {
        BarsScanned(size, regs0, fb, st, key, bar + 1);
        ClearedOne(size, regs0, ScanBars(size, st, fb, key, bar + 1).regs, key, bar);
      }
    }
  }

  /** One step of the walk, in terms of the BARs there are. */
  lemma WalkStep(size: Sizes, regs0: Regs, fb: nat, st: State, key: nat, bar: nat)
    requires Populated(size, regs0) && Inv(size, regs0, fb, st) && bar < 6
    requires bar > 0 ==> Reg(key, 0x10 + 4 * (bar - 1)) !in size
    ensures var a := Reg(key, 0x10 + 4 * bar);
            && (a in size ==> bar < 5)
            && ScanBars(size, st, fb, key, bar) ==
               if a in size then
                 ScanBars(size, if Read(st.regs, a + 4) != 0 then Move(size, st, fb, Reg(key, 4), a) else st, fb, key, bar + 2)
               else ScanBars(size, st, fb, key, bar + 1)
  {
    hide Populated, Move, Is64, Inv, ScanBars, Read, Framed, Reg;
    ScanStep(size, st, fb, key, bar);
    if bar < 5 {
      InvFrames(size, regs0, fb, st);
      SeesBar(size, regs0, st, key, bar);
    } else {
      NotThere(size, regs0, key, bar);
    }
  }

  /** What the walk does at a BAR keeps the invariant and leaves no high half there. */
  lemma BarMoved(size: Sizes, regs0: Regs, fb: nat, st: State, key: nat, bar: nat)
    requires Populated(size, regs0) && Inv(size, regs0, fb, st) && ReachedAt(regs0, key)
    requires bar < 5 && Reg(key, 0x10 + 4 * bar) in size
    ensures var a := Reg(key, 0x10 + 4 * bar);
            var next := if Read(st.regs, a + 4) != 0 then Move(size, st, fb, Reg(key, 4), a) else st;
            Inv(size, regs0, fb, next) && Later(size, st.regs, next.regs) && Read(next.regs, a + 4) == 0
  {
    hide Populated, Inv, Move, ReachedAt;
    var a := Reg(key, 0x10 + 4 * bar);
    RegParts(key, 0x10 + 4 * bar);
    if Read(st.regs, a + 4) != 0 { MoveKeeps(size, regs0, fb, st, key, a); }
  }

  /** The high half of a BAR is no BAR. */
  lemma AfterBar(size: Sizes, regs0: Regs, key: nat, bar: nat)
    requires Populated(size, regs0) && Reg(key, 0x10 + 4 * bar) in size
    ensures Reg(key, 0x10 + 4 * (bar + 1)) !in size
  {
    hide Populated;
    BarFacts(size, regs0, Reg(key, 0x10 + 4 * bar));
  }

  /** The sixth dword holds no 64-bit BAR. */
  lemma NotThere(size: Sizes, regs0: Regs, key: nat, bar: nat)
    requires Populated(size, regs0) && bar == 5
    ensures Reg(key, 0x10 + 4 * bar) !in size
  {
    hide Populated;
    RegParts(key, 0x24);
    if Reg(key, 0x24) in size { BarFacts(size, regs0, Reg(key, 0x24)); }
  }

  lemma InvFrames(size: Sizes, regs0: Regs, fb: nat, st: State)
    requires Inv(size, regs0, fb, st)
    ensures Framed(size, regs0, st.regs, st.log)
  {
  }

  lemma NoBarsThere(size: Sizes, regs0: Regs, regs: Regs, key: nat, bar: nat)
    requires Populated(size, regs0) && bar >= 5
    ensures Cleared(size, regs, key, bar)
  {
    forall a | a in size ensures a % 256 < 0x24 { BarFacts(size, regs0, a); }
  }

  lemma ClearedOne(size: Sizes, regs0: Regs, regs: Regs, key: nat, bar: nat)
    requires Populated(size, regs0) && Cleared(size, regs, key, bar + 1)
    requires Reg(key, 0x10 + 4 * bar) !in size || Read(regs, Reg(key, 0x10 + 4 * bar) + 4) == 0
    ensures Cleared(size, regs, key, bar)
  {
    hide Populated, Read;
    forall a | a in size && a / 256 == key && a % 256 >= 0x10 + 4 * bar ensures Read(regs, a + 4) == 0 {
      BarFacts(size, regs0, a);
      if a % 256 < 0x10 + 4 * (bar + 1) { WhichReg(a, key, bar); }
    }
  }

  lemma WhichReg(a: nat, key: nat, bar: nat)
    requires a % 4 == 0 && a / 256 == key && 4 * bar <= a % 256 - 0x10 < 4 * bar + 4
    ensures a == Reg(key, 0x10 + 4 * bar)
  {
    assert a == 256 * key + a % 256;
    assert a % 256 % 4 == 0 by { assert a % 256 == 4 * (a / 4 - 64 * key); }
  }

  lemma ClearedTwo(size: Sizes, regs0: Regs, regs: Regs, key: nat, bar: nat)
    requires Populated(size, regs0) && Cleared(size, regs, key, bar + 2)
    requires Reg(key, 0x10 + 4 * bar) in size && Read(regs, Reg(key, 0x10 + 4 * bar) + 4) == 0
    ensures Cleared(size, regs, key, bar)
  {
    var a := Reg(key, 0x10 + 4 * bar);
    assert Reg(key, 0x10 + 4 * (bar + 1)) == a + 4;
    BarFacts(size, regs0, a);
    ClearedOne(size, regs0, regs, key, bar + 1);
    ClearedOne(size, regs0, regs, key, bar);
  }

  /** The identification and the header type are never written. */
  lemma HeaderStays(size: Sizes, regs0: Regs, regs: Regs, log: seq<Window>, key: nat)
    requires Populated(size, regs0) && Framed(size, regs0, regs, log)
    ensures Present(regs, key) == Present(regs0, key) && Multifunction(regs, key) == Multifunction(regs0, key)
  {
    hide Populated, Unrelated, Present, Multifunction;
    RegParts(key, 0);
    RegParts(key, 0x0C);
    NotABar(size, regs0, Reg(key, 0));
    NotABar(size, regs0, Reg(key, 0x0C));
    SameHeader(regs, regs0, key);
  }

  lemma SameHeader(regs: Regs, regs0: Regs, key: nat)
    requires Read(regs, Reg(key, 0)) == Read(regs0, Reg(key, 0)) && Read(regs, Reg(key, 0x0C)) == Read(regs0, Reg(key, 0x0C))
    ensures Present(regs, key) == Present(regs0, key) && Multifunction(regs, key) == Multifunction(regs0, key)
  {
  }

  lemma NotABar(size: Sizes, regs0: Regs, x: nat)
    requires Populated(size, regs0) && x % 256 < 0x10 && x % 256 != 4
    ensures Unrelated(size, x)
  {
    hide Populated;
    if x in size { BarFacts(size, regs0, x); }
    if x >= 4 && x - 4 in size { BarFacts(size, regs0, x - 4); }
  }

  ghost predicate ClearedFrom(size: Sizes, regs0: Regs, regs: Regs, key: nat, func: nat) {
    forall f :: func <= f < 8 && Reached(regs0, key, f) ==> Cleared(size, regs, key + f, 0)
  }

  lemma {:induction false} FunctionsScanned(size: Sizes, regs0: Regs, fb: nat, st: State, key: nat, func: nat)
    requires Populated(size, regs0) && Inv(size, regs0, fb, st) && key % 8 == 0
    requires func > 0 ==> Present(regs0, key) && Multifunction(regs0, key)
    ensures var r := ScanFunctions(size, st, fb, key, func);
            Inv(size, regs0, fb, r) && Later(size, st.regs, r.regs) && ClearedFrom(size, regs0, r.regs, key, func)
    decreases 8 - func
  {
    hide Populated, Inv, Framed, Present, Multifunction, ScanBars;
    if func < 8 {
      InvFrames(size, regs0, fb, st);
      HeaderStays(size, regs0, st.regs, st.log, key + func);
      if Present(st.regs, key + func) {
        FunctionOf(key, func);
        BarsScanned(size, regs0, fb, st, key + func, 0);
        var done := ScanBars(size, st, fb, key + func, 0);
        InvFrames(size, regs0, fb, done);
        HeaderStays(size, regs0, done.regs, done.log, key);
        if !(func == 0 && !Multifunction(done.regs, key)) {
          FunctionsScanned(size, regs0, fb, done, key, func + 1);
          ClearedMore(size, regs0, done.regs, ScanFunctions(size, done, fb, key, func + 1).regs, key, func);
        }
      } else if func > 0 {
        FunctionsScanned(size, regs0, fb, st, key, func + 1);
        ClearedMore(size, regs0, st.regs, ScanFunctions(size, st, fb, key, func + 1).regs, key, func);
      }
    }
  }

  lemma FunctionZero(bus: nat, slot: nat)
    ensures Key(bus, slot, 0) % 8 == 0
  {
    assert Key(bus, slot, 0) == 8 * (0x10_0000 + 32 * bus + slot);
  }

  lemma FunctionOf(key: nat, func: nat)
    requires key % 8 == 0 && func < 8
    ensures (key + func) % 8 == func && key + func - (key + func) % 8 == key
  {
  }

  lemma ClearedMore(size: Sizes, regs0: Regs, regs: Regs, regs': Regs, key: nat, func: nat)
    requires Reached(regs0, key, func) ==> Cleared(size, regs, key + func, 0)
    requires Later(size, regs, regs') && ClearedFrom(size, regs0, regs', key, func + 1)
    ensures ClearedFrom(size, regs0, regs', key, func)
  {
    hide Reached;
  }

  lemma ClearedLater(size: Sizes, regs0: Regs, regs: Regs, regs': Regs, key: nat)
    requires ClearedFrom(size, regs0, regs, key, 0) && Later(size, regs, regs')
    ensures ClearedFrom(size, regs0, regs', key, 0)
  {
    hide Reached;
  }

  function Start(regs0: Regs, fb: nat): State {
    State(regs0, TOP, fb, [])
  }

  ghost predicate AllCleared(size: Sizes, regs0: Regs, regs: Regs, n: nat) {
    forall m: nat :: m < n ==> ClearedFrom(size, regs0, regs, Key(0, m, 0), 0)
  }

  lemma {:induction false} SlotsScanned(size: Sizes, regs0: Regs, fb: nat, n: nat)
    requires Populated(size, regs0)
    ensures var r := ScanSlots(size, Start(regs0, fb), fb, n);
            Inv(size, regs0, fb, r) && AllCleared(size, regs0, r.regs, n)
  {
    hide Populated, ClearedFrom, ScanFunctions, Key, Inv, Later;
    if n == 0 {
      NothingMoved(size, regs0, fb);
    } else {
      SlotsScanned(size, regs0, fb, n - 1);
      var st := ScanSlots(size, Start(regs0, fb), fb, n - 1);
      FunctionZero(0, n - 1);
      FunctionsScanned(size, regs0, fb, st, Key(0, n - 1, 0), 0);
      OneMoreSlot(size, regs0, st.regs, ScanFunctions(size, st, fb, Key(0, n - 1, 0), 0).regs, n - 1);
    }
  }

  lemma NothingMoved(size: Sizes, regs0: Regs, fb: nat)
    ensures Inv(size, regs0, fb, Start(regs0, fb))
  {
  }

  lemma OneMoreSlot(size: Sizes, regs0: Regs, regs: Regs, regs': Regs, n: nat)
    requires AllCleared(size, regs0, regs, n) && Later(size, regs, regs')
    requires ClearedFrom(size, regs0, regs', Key(0, n, 0), 0)
    ensures AllCleared(size, regs0, regs', n + 1)
  {
    hide ClearedFrom, Later, Key;
    forall m: nat | m < n ensures ClearedFrom(size, regs0, regs', Key(0, m, 0), 0) {
      ClearedLater(size, regs0, regs, regs', Key(0, m, 0));
    }
  }

  // ---------------------------------------------------------------------
  // The results.
  // ---------------------------------------------------------------------

  /** The state after the walk over all 256 * 32 slots. */
  function End(size: Sizes, regs0: Regs, fb: nat): (r: State) {
    ScanSlots(size, Start(regs0, fb), fb, 256 * 32)
  }

  /**
   * The functions the walk gets to, in dwords of configuration space: `d` is
   * the address of the function, `d0` that of function 0 of its slot. Both
   * have a vendor, and for functions 1 to 7 bit 7 of byte 14 of function 0 is
   * set.
   */
  predicate Visited(regs: Regs, d0: nat, d: nat) {
    && Read(regs, d) % 0x1_0000 != 0 && Read(regs, d) % 0x1_0000 != 0xFFFF
    && (d != d0 ==>
          && Read(regs, d0) % 0x1_0000 != 0 && Read(regs, d0) % 0x1_0000 != 0xFFFF
          && Read(regs, d0 + 12) / 0x1_0000 % 256 >= 128)
  }

  lemma ReachedIffVisited(regs: Regs, bus: nat, slot: nat, func: nat)
    ensures Reached(regs, Key(bus, slot, 0), func) <==>
            Visited(regs, 0x8000_0000 + 0x1_0000 * bus + 0x800 * slot, 0x8000_0000 + 0x1_0000 * bus + 0x800 * slot + 0x100 * func)
  {
    var key := Key(bus, slot, 0);
    assert 256 * key == 0x8000_0000 + 0x1_0000 * bus + 0x800 * slot && Key(bus, slot, func) == key + func;
    HeaderInNumbers(regs, key);
    HeaderInNumbers(regs, key + func);
    hide Present, Multifunction, Read, Key;
  }

  lemma InFunction(bus: nat, slot: nat, func: nat, a: nat)
    ensures var d := 0x8000_0000 + 0x1_0000 * bus + 0x800 * slot + 0x100 * func;
            d <= a < d + 256 <==> a / 256 == Key(bus, slot, func)
  {
    assert 0x8000_0000 + 0x1_0000 * bus + 0x800 * slot + 0x100 * func == 256 * Key(bus, slot, func);
    hide Key;
  }

  /**
   * A 64-bit BAR is moved exactly if its high half was not zero and the walk
   * gets to its function: the function answers and is function 0 or belongs to
   * a multifunction device. Then the high half ends up zero; otherwise both
   * halves stay.
   */
  lemma {:induction false} MovedIff(size: Sizes, regs0: Regs, fb: nat, bus: nat, slot: nat, func: nat, a: nat)
    requires Populated(size, regs0) && bus < 256 && slot < 32 && func < 8 && a in size
    requires 0x8000_0000 + 0x1_0000 * bus + 0x800 * slot + 0x100 * func <= a
                < 0x8000_0000 + 0x1_0000 * bus + 0x800 * slot + 0x100 * func + 256
    ensures var d0 := 0x8000_0000 + 0x1_0000 * bus + 0x800 * slot;
            var d, r := d0 + 0x100 * func, End(size, regs0, fb);
            var answers := Read(regs0, d) % 0x1_0000 != 0 && Read(regs0, d) % 0x1_0000 != 0xFFFF;
            var several := Read(regs0, d0) % 0x1_0000 != 0 && Read(regs0, d0) % 0x1_0000 != 0xFFFF
                           && Read(regs0, d0 + 12) / 0x1_0000 % 256 >= 128;
            && (Moved(r.log, a) <==> answers && (func == 0 || several) && Read(regs0, a + 4) != 0)
            && (Moved(r.log, a) ==> Read(r.regs, a + 4) == 0)
            && (!Moved(r.log, a) ==> Read(r.regs, a) == Read(regs0, a) && Read(r.regs, a + 4) == Read(regs0, a + 4))
  {
    hide End, Populated, Reached, Key, Read, Moved;
    InFunction(bus, slot, func, a);
    ReachedIffVisited(regs0, bus, slot, func);
    MovedIffReached(size, regs0, fb, bus, slot, func, a);
    UnmovedStays(size, regs0, fb, a);
  }

  lemma {:induction false} UnmovedStays(size: Sizes, regs0: Regs, fb: nat, a: nat)
    requires Populated(size, regs0) && a in size
    ensures var r := End(size, regs0, fb);
            !Moved(r.log, a) ==> Read(r.regs, a) == Read(regs0, a) && Read(r.regs, a + 4) == Read(regs0, a + 4)
    ensures var r := End(size, regs0, fb);
            Moved(r.log, a) ==> Read(r.regs, a + 4) == 0
  {
    EndInv(size, regs0, fb);
    hide End, Inv, Populated, Moved, AllCleared;
    var r := End(size, regs0, fb);
    BarFacts(size, regs0, a);
    InvFrames(size, regs0, fb, r);
    if Moved(r.log, a) {
      InvPlaces(size, regs0, fb, r);
      MovedIsZero(size, regs0, r.regs, r.log, a);
    }
  }

  lemma {:induction false} EndInv(size: Sizes, regs0: Regs, fb: nat)
    requires Populated(size, regs0)
    ensures Inv(size, regs0, fb, End(size, regs0, fb))
  {
    SlotsScanned(size, regs0, fb, 256 * 32);
    hide Inv, Populated, AllCleared, ScanSlots, Start;
  }

  lemma {:induction false} InvPlaces(size: Sizes, regs0: Regs, fb: nat, st: State)
    requires Inv(size, regs0, fb, st)
    ensures AllPlaced(size, regs0, st.regs, st.log)
  {
  }

  /** A BAR of the function whose dwords are 256 * key to 256 * key + 255 was moved. */
  ghost predicate MovedIn(log: seq<Window>, key: nat) {
    exists a: nat :: Moved(log, a) && a / 256 == key
  }

  lemma {:induction false} TouchedIff(log: seq<Window>, key: nat)
    ensures Touched(log, key) <==> MovedIn(log, key)
  {
    if log != [] {
      var front, w := log[..|log| - 1], log[|log| - 1];
      TouchedIff(front, key);
      assert Moved(log, w.addr);
      if MovedIn(front, key) {
        var a: nat :| Moved(front, a) && a / 256 == key;
        assert Moved(log, a);
      }
      if MovedIn(log, key) {
        var a: nat :| Moved(log, a) && a / 256 == key;
        if a != w.addr { assert Moved(front, a); }
      }
    }
  }

  /**
   * When the walk is over: BARs are moved as MovedIff says, and no BAR of a
   * function the walk got to has a high half. BARs that were below 4 GB, the
   * flag bits of all BARs, and all other dwords are as they were, except that
   * memory decoding and bus mastering are on in the functions of which a BAR
   * was moved.
   */
  lemma {:induction false} EndState(size: Sizes, regs0: Regs, fb: nat, bus: nat, slot: nat, func: nat)
    requires Populated(size, regs0) && bus < 256 && slot < 32 && func < 8
    ensures var r, d0 := End(size, regs0, fb), 0x8000_0000 + 0x1_0000 * bus + 0x800 * slot;
            var d := d0 + 0x100 * func;
            && r.regs.Keys == regs0.Keys
            && (forall a :: a in size && d <= a < d + 256 ==>
                  && (Moved(r.log, a) <==> Visited(regs0, d0, d) && Read(regs0, a + 4) != 0)
                  && (Visited(regs0, d0, d) ==> Read(r.regs, a + 4) == 0))
            && (forall a :: a in size && Read(regs0, a + 4) == 0 ==>
                  Read(r.regs, a) == Read(regs0, a) && Read(r.regs, a + 4) == 0)
            && (forall a :: a in size ==> Read(r.regs, a) % 16 == Read(regs0, a) % 16)
            && (forall x :: x in regs0 && x % 256 != 4 && x !in size && (x < 4 || x - 4 !in size) ==> r.regs[x] == regs0[x])
            && (forall x :: x in regs0 && x % 256 == 4 ==>
                  r.regs[x] == if MovedIn(r.log, x / 256) then 8 * (regs0[x] / 8) + 6 + regs0[x] % 2
                               else regs0[x])
  {
    hide End, Inv, Populated, Commanded, Visited, MovedIn, Key, Read, Moved, AllCleared, Touched;
    var r := End(size, regs0, fb);
    EndInv(size, regs0, fb);
    EndFrame(size, regs0, fb, r);
    InvCommands(size, regs0, fb, r);
    EndOfFunction(size, regs0, fb, bus, slot, func);
    CommandsInNumbers(regs0, r.regs, r.log);
  }

  lemma {:induction false} EndOfFunction(size: Sizes, regs0: Regs, fb: nat, bus: nat, slot: nat, func: nat)
    requires Populated(size, regs0) && bus < 256 && slot < 32 && func < 8
    ensures var r, d0 := End(size, regs0, fb), 0x8000_0000 + 0x1_0000 * bus + 0x800 * slot;
            var d := d0 + 0x100 * func;
            forall a :: a in size && d <= a < d + 256 ==>
              && (Moved(r.log, a) <==> Visited(regs0, d0, d) && Read(regs0, a + 4) != 0)
              && (Visited(regs0, d0, d) ==> Read(r.regs, a + 4) == 0)
  {
    hide End, Populated, Reached, Visited, Key, Read, Moved;
    ReachedIffVisited(regs0, bus, slot, func);
    var r, d0 := End(size, regs0, fb), 0x8000_0000 + 0x1_0000 * bus + 0x800 * slot;
    var d := d0 + 0x100 * func;
    forall a | a in size && d <= a < d + 256
      ensures Moved(r.log, a) <==> Visited(regs0, d0, d) && Read(regs0, a + 4) != 0
      ensures Visited(regs0, d0, d) ==> Read(r.regs, a + 4) == 0
    {
      InFunction(bus, slot, func, a);
      MovedIffReached(size, regs0, fb, bus, slot, func, a);
    }
  }

  lemma InvCommands(size: Sizes, regs0: Regs, fb: nat, st: State)
    requires Inv(size, regs0, fb, st)
    ensures Commanded(regs0, st.regs, st.log)
  {
  }

  lemma CommandsInNumbers(regs0: Regs, regs: Regs, log: seq<Window>)
    requires Commanded(regs0, regs, log)
    ensures regs.Keys == regs0.Keys
    ensures forall x :: x in regs0 && x % 256 == 4 ==>
              regs[x] == if MovedIn(log, x / 256) then 8 * (regs0[x] / 8) + 6 + regs0[x] % 2
                         else regs0[x]
  {
    hide Touched, Moved, MovedIn, WithMemoryAndMaster;
    forall x | x in regs0 && x % 256 == 4
      ensures regs[x] == if MovedIn(log, x / 256) then 8 * (regs0[x] / 8) + 6 + regs0[x] % 2
                         else regs0[x]
    {
      TouchedIff(log, x / 256);
      CommandInNumbers(regs0[x]);
    }
  }

  lemma ReachedAreCleared(size: Sizes, regs0: Regs, regs: Regs, bus: nat, slot: nat, func: nat, a: nat)
    requires bus < 256 && slot < 32 && func < 8 && AllCleared(size, regs0, regs, 256 * 32)
    requires a in size && a % 256 >= 0x10 && a / 256 == Key(bus, slot, func) && Reached(regs0, Key(bus, slot, 0), func)
    ensures Read(regs, a + 4) == 0
  {
    hide Reached, Read;
    var n := 32 * bus + slot;
    assert Key(bus, slot, 0) == Key(0, n, 0) && Key(bus, slot, func) == Key(0, n, 0) + func;
    assert ClearedFrom(size, regs0, regs, Key(0, n, 0), 0);
    assert Cleared(size, regs, Key(0, n, 0) + func, 0);
  }

  /** What the invariant says of BARs below 4 GB, flag bits and all dwords but command registers. */
  lemma EndFrame(size: Sizes, regs0: Regs, fb: nat, r: State)
    requires Populated(size, regs0) && Inv(size, regs0, fb, r)
    ensures r.regs.Keys == regs0.Keys
    ensures forall a :: a in size && Read(regs0, a + 4) == 0 ==> Read(r.regs, a) == Read(regs0, a) && Read(r.regs, a + 4) == 0
    ensures forall a :: a in size ==> Read(r.regs, a) % 16 == Read(regs0, a) % 16
    ensures forall x :: x in regs0 && Unrelated(size, x) ==> r.regs[x] == regs0[x]
  {
    hide Populated, Unrelated, Commanded, AllPlaced, Allocated, Followed, Reached;
    forall a | a in size
      ensures Read(r.regs, a) % 16 == Read(regs0, a) % 16
      ensures Read(regs0, a + 4) == 0 ==> Read(r.regs, a) == Read(regs0, a) && Read(r.regs, a + 4) == 0
    {
      BarFacts(size, regs0, a);
    }
  }

  lemma {:induction false} MovedIffReached(size: Sizes, regs0: Regs, fb: nat, bus: nat, slot: nat, func: nat, a: nat)
    requires Populated(size, regs0) && bus < 256 && slot < 32 && func < 8 && a in size && a / 256 == Key(bus, slot, func)
    ensures var r := End(size, regs0, fb);
            && (Moved(r.log, a) <==> Reached(regs0, Key(bus, slot, 0), func) && Read(regs0, a + 4) != 0)
            && (Reached(regs0, Key(bus, slot, 0), func) ==> Read(r.regs, a + 4) == 0)
  {
    SlotsScanned(size, regs0, fb, 256 * 32);
    hide End, Inv, Populated, Reached, ReachedAt, AllCleared, Moved, Key, Read, Is64, PowerOfTwo;
    BarFacts(size, regs0, a);
    if Reached(regs0, Key(bus, slot, 0), func) {
      ReachedAreCleared(size, regs0, End(size, regs0, fb).regs, bus, slot, func, a);
    }
    ReachedAtKey(regs0, bus, slot, func);
    InvMoved(size, regs0, fb, End(size, regs0, fb), a);
  }

  lemma ReachedAtKey(regs: Regs, bus: nat, slot: nat, func: nat)
    requires func < 8
    ensures ReachedAt(regs, Key(bus, slot, func)) == Reached(regs, Key(bus, slot, 0), func)
  {
    hide Reached;
    FunctionZero(bus, slot);
    assert Key(bus, slot, func) == Key(bus, slot, 0) + func;
    FunctionOf(Key(bus, slot, 0), func);
  }

  lemma InvMoved(size: Sizes, regs0: Regs, fb: nat, r: State, a: nat)
    requires Inv(size, regs0, fb, r) && a in size && a in regs0 && a + 4 in regs0
    ensures Moved(r.log, a) ==> Read(regs0, a + 4) != 0 && ReachedAt(regs0, a / 256)
    ensures !Moved(r.log, a) ==> Read(r.regs, a + 4) == Read(regs0, a + 4)
  {
    hide AllPlaced, Allocated, Followed, Commanded, Moved, ReachedAt;
  }

  lemma {:induction false} StackedApart(log: seq<Window>, i: nat, j: nat)
    requires Stacked(log) && i < j < |log|
    ensures log[j].base + log[j].len <= log[i].base
  {
    var front := log[..|log| - 1];
    if j < |log| - 1 {
      StackedApart(front, i, j);
    } else if i < j - 1 {
      StackedApart(front, i, j - 1);
    }
  }

  lemma {:induction false} StackedBelow(log: seq<Window>, i: nat)
    requires Stacked(log) && i < |log|
    ensures log[i].len > 0 && log[i].base % log[i].len == 0 && log[i].base + log[i].len <= TOP
  {
    FloorBelow(log[..|log| - 1]);
    if i < |log| - 1 { StackedBelow(log[..|log| - 1], i); }
  }

  lemma {:induction false} PlacedEach(size: Sizes, regs0: Regs, regs: Regs, log: seq<Window>, i: nat)
    requires AllPlaced(size, regs0, regs, log) && i < |log|
    ensures Placed(size, regs0, regs, log[i])
  {
    if i < |log| - 1 { PlacedEach(size, regs0, regs, log[..|log| - 1], i); }
  }

  lemma {:induction false} StackedAbove(log: seq<Window>, i: nat)
    requires Stacked(log) && i < |log|
    ensures Floor(log) <= log[i].base
  {
    if i < |log| - 1 { StackedApart(log, i, |log| - 1); }
  }

  ghost predicate PlacedInNumbers(size: Sizes, regs0: Regs, regs: Regs, w: Window) {
    && w.addr in size && w.len == (if size[w.addr] <= 0x2000_0000 then size[w.addr] else 0x1000_0000)
    && w.before == 0x1_0000_0000 * Read(regs0, w.addr + 4) + Read(regs0, w.addr) - Read(regs0, w.addr) % 16
    && Read(regs, w.addr + 4) == 0
    && (size[w.addr] <= 0x2000_0000 ==> Read(regs, w.addr) == w.base + Read(regs0, w.addr) % 16)
  }

  lemma PlacedNumbers(size: Sizes, regs0: Regs, regs: Regs, w: Window)
    requires Placed(size, regs0, regs, w)
    ensures PlacedInNumbers(size, regs0, regs, w)
  {
  }

  /** The sums in the conditions: of the windows handed out, and of what the BARs of a list would ask for. */
  lemma {:induction false} SumsInNumbers(size: Sizes, regs0: Regs, log: seq<Window>, w: Window, bars: seq<nat>, a: nat)
    requires Populated(size, regs0) && a in size
    ensures Total([]) == 0 && Total(log + [w]) == Total(log) + w.len
    ensures Demand(size, regs0, []) == 0
    ensures Demand(size, regs0, [a] + bars) == (if size[a] <= 0x2000_0000 then size[a] else 0x1000_0000) + Demand(size, regs0, bars)
  {
    assert (log + [w])[..|log|] == log && ([a] + bars)[1..] == bars;
    BarFacts(size, regs0, a);
    hide Populated;
  }

  /**
   * Over any population whose windows fit twice into the space below
   * 0xE0000000: the windows are aligned, pairwise disjoint, below that address
   * and no further below it than twice their sum, and each device of at most
   * 512 MB decodes exactly its window.
   */
  lemma {:induction false} WindowsAreSound(size: Sizes, regs0: Regs, fb: nat)
    requires Populated(size, regs0)
    ensures var r := End(size, regs0, fb);
            2 * Total(r.log) <= 0xE000_0000 ==>
              && (forall i :: 0 <= i < |r.log| ==>
                    var w := r.log[i];
                    && w.addr in size && w.len == (if size[w.addr] <= 0x2000_0000 then size[w.addr] else 0x1000_0000)
                    && w.before == 0x1_0000_0000 * Read(regs0, w.addr + 4) + Read(regs0, w.addr) - Read(regs0, w.addr) % 16
                    && Read(r.regs, w.addr + 4) == 0
                    && (size[w.addr] <= 0x2000_0000 ==> Read(r.regs, w.addr) == w.base + Read(regs0, w.addr) % 16)
                    && w.len > 0 && w.base % w.len == 0
                    && 0xE000_0000 - 2 * Total(r.log) <= w.base && w.base + w.len <= 0xE000_0000)
              && (forall i, j :: 0 <= i < j < |r.log| ==> r.log[j].base + r.log[j].len <= r.log[i].base)
  {
    SlotsScanned(size, regs0, fb, 256 * 32);
    var r := End(size, regs0, fb);
    hide End, Placed, Framed, Commanded, Rightly, Total, Populated;
    if 2 * Total(r.log) <= TOP {
      forall i | 0 <= i < |r.log|
        ensures PlacedInNumbers(size, regs0, r.regs, r.log[i])
        ensures r.log[i].len > 0 && r.log[i].base % r.log[i].len == 0
        ensures TOP - 2 * Total(r.log) <= r.log[i].base && r.log[i].base + r.log[i].len <= TOP
      {
        PlacedEach(size, regs0, r.regs, r.log, i);
        PlacedNumbers(size, regs0, r.regs, r.log[i]);
        StackedBelow(r.log, i);
        StackedAbove(r.log, i);
      }
      forall i, j | 0 <= i < j < |r.log| ensures r.log[j].base + r.log[j].len <= r.log[i].base {
        StackedApart(r.log, i, j);
      }
    }
  }

  /** A BAR below 4 GB that ends below that stretch keeps its place, and no window overlaps it. */
  lemma {:induction false} LowBarsKeepTheirPlace(size: Sizes, regs0: Regs, fb: nat, a: nat, i: nat)
    requires Populated(size, regs0) && a in size && Read(regs0, a + 4) == 0
    requires var log := End(size, regs0, fb).log;
             && 2 * Total(log) <= 0xE000_0000 && i < |log|
             && Read(regs0, a) - Read(regs0, a) % 16 + size[a] <= 0xE000_0000 - 2 * Total(log)
    ensures var r := End(size, regs0, fb);
            && Read(r.regs, a) == Read(regs0, a) && Read(r.regs, a + 4) == 0
            && Read(r.regs, a) - Read(r.regs, a) % 16 + size[a] <= r.log[i].base
  {
    SlotsScanned(size, regs0, fb, 256 * 32);
    var r := End(size, regs0, fb);
    hide End, Inv, Total, Stacked, Populated, AllCleared, Read;
    EndFrame(size, regs0, fb, r);
    SameAddress(r.regs, regs0, a);
    InvStacked(size, regs0, fb, r);
    StackedAbove(r.log, i);
  }

  lemma InvStacked(size: Sizes, regs0: Regs, fb: nat, r: State)
    requires Inv(size, regs0, fb, r) && 2 * Total(r.log) <= TOP
    ensures Stacked(r.log) && TOP - 2 * Total(r.log) <= Floor(r.log)
  {
    hide AllPlaced, Rightly, Framed, Commanded, Followed, Total, Stacked;
  }

  /** The lengths the BARs in `bars` would ask for. */
  function Demand(size: Sizes, regs0: Regs, bars: seq<nat>): (t: nat) {
    if bars == [] then 0 else BarLen(size, regs0, bars[0]) + Demand(size, regs0, bars[1..])
  }

  lemma {:induction false} DemandWithout(size: Sizes, regs0: Regs, bars: seq<nat>, i: nat)
    requires i < |bars|
    ensures Demand(size, regs0, bars) == BarLen(size, regs0, bars[i]) + Demand(size, regs0, bars[..i] + bars[i + 1..])
  {
    hide BarLen;
    var rest := bars[..i] + bars[i + 1..];
    if i == 0 {
      assert rest == bars[1..];
    } else {
      DemandWithout(size, regs0, bars[1..], i - 1);
      assert rest[1..] == bars[1..][..i - 1] + bars[1..][i..];
    }
  }

  /** `bars` lists all BARs above 4 GB. */
  ghost predicate Lists(size: Sizes, regs0: Regs, bars: seq<nat>) {
    forall a: nat :: a in size && Read(regs0, a + 4) != 0 ==> a in bars
  }

  /** No BAR gets a second window, so together the windows ask for no more than the BARs do. */
  lemma {:induction false} TotalWithinDemand(size: Sizes, regs0: Regs, regs: Regs, log: seq<Window>, bars: seq<nat>)
    requires AllPlaced(size, regs0, regs, log) && forall a :: Moved(log, a) ==> a in bars
    ensures Total(log) <= Demand(size, regs0, bars)
  {
    hide BarLen;
    if log != [] {
      var front, w := log[..|log| - 1], log[|log| - 1];
      assert Moved(log, w.addr);
      var i :| 0 <= i < |bars| && bars[i] == w.addr;
      var rest := bars[..i] + bars[i + 1..];
      DemandWithout(size, regs0, bars, i);
      forall a | Moved(front, a) ensures a in rest {
        assert Moved(log, a);
        var k :| 0 <= k < |bars| && bars[k] == a;
        assert k != i;
        assert a == rest[if k < i then k else k - 1];
      }
      TotalWithinDemand(size, regs0, regs, front, rest);
    }
  }

  /** The condition of WindowsAreSound, checkable before the walk: twice what the BARs above 4 GB ask for fits. */
  lemma {:induction false} SpaceSuffices(size: Sizes, regs0: Regs, fb: nat, bars: seq<nat>)
    requires Populated(size, regs0) && Lists(size, regs0, bars)
    requires 2 * Demand(size, regs0, bars) <= 0xE000_0000
    ensures 2 * Total(End(size, regs0, fb).log) <= 0xE000_0000
  {
    SlotsScanned(size, regs0, fb, 256 * 32);
    hide End, Inv, Populated, AllCleared, Read, Demand, Total, Lists;
    AsksForLess(size, regs0, fb, End(size, regs0, fb), bars);
  }

  lemma {:induction false} AsksForLess(size: Sizes, regs0: Regs, fb: nat, r: State, bars: seq<nat>)
    requires Inv(size, regs0, fb, r) && Lists(size, regs0, bars)
    ensures Total(r.log) <= Demand(size, regs0, bars)
  {
    hide AllPlaced, Rightly, Framed, Commanded, Allocated, Followed, Read, Demand, Total, Lists;
    RightlyListed(size, regs0, r.log, bars);
    TotalWithinDemand(size, regs0, r.regs, r.log, bars);
  }

  lemma {:induction false} RightlyListed(size: Sizes, regs0: Regs, log: seq<Window>, bars: seq<nat>)
    requires Rightly(size, regs0, log) && Lists(size, regs0, bars)
    ensures forall a :: Moved(log, a) ==> a in bars
  {
    hide Read, Moved, ReachedAt;
  }

  /** Before the walk, no address was claimed by two BARs above 4 GB. */
  ghost predicate Disjoint(size: Sizes, regs0: Regs) {
    forall a, b :: a in size && b in size && a != b && Read(regs0, a + 4) != 0 && Read(regs0, b + 4) != 0 ==>
      || BarAddress(regs0, a) + BarLen(size, regs0, a) <= BarAddress(regs0, b)
      || BarAddress(regs0, b) + BarLen(size, regs0, b) <= BarAddress(regs0, a)
  }

  predicate Within(size: Sizes, regs0: Regs, a: nat, fb: nat) {
    BarAddress(regs0, a) <= fb < BarAddress(regs0, a) + BarLen(size, regs0, a)
  }

  lemma {:induction false} MovedAt(log: seq<Window>, i: nat)
    requires i < |log|
    ensures Moved(log, log[i].addr)
  {
    if i < |log| - 1 { MovedAt(log[..|log| - 1], i); }
  }

  lemma {:induction false} MoveOf(log: seq<Window>, a: nat) returns (i: nat)
    requires Moved(log, a)
    ensures i < |log| && log[i].addr == a
  {
    i := |log| - 1;
    if log[i].addr != a { i := MoveOf(log[..i], a); }
  }

  lemma {:induction false} FollowsItsBar(size: Sizes, regs0: Regs, regs: Regs, log: seq<Window>, fb: nat, i: nat)
    requires Disjoint(size, regs0) && AllPlaced(size, regs0, regs, log) && i < |log|
    requires Rightly(size, regs0, log) && Within(size, regs0, log[i].addr, fb)
    ensures Followed(log, fb) == log[i].base + (fb - BarAddress(regs0, log[i].addr))
  {
    hide Read, BarAddress, BarLen, ReachedAt;
    var m := |log| - 1;
    MovedAt(log, i);
    if i < m {
      var front := log[..m];
      PlacedEach(size, regs0, regs, front, i);
      MovedAt(front, i);
      assert Moved(log, log[m].addr);
      assert Rightly(size, regs0, front) by {
        forall a: nat | Moved(front, a) ensures Moved(log, a) {}
      }
      FollowsItsBar(size, regs0, regs, front, fb, i);
    }
  }

  /** BAR `a` has a window, and the framebuffer is in it at offset `o`. */
  ghost predicate Carried(r: State, a: nat, o: int) {
    exists i :: 0 <= i < |r.log| && r.log[i].addr == a && r.newFb - r.log[i].base == o && 0 <= o < r.log[i].len
  }

  lemma {:induction false} KeepsOffset(size: Sizes, regs0: Regs, fb: nat, r: State, a: nat)
    requires Inv(size, regs0, fb, r) && Disjoint(size, regs0) && Moved(r.log, a) && Within(size, regs0, a, fb)
    ensures Carried(r, a, fb - BarAddress(regs0, a))
  {
    hide Disjoint, Framed, Commanded, Rightly, Allocated, Moved, Followed, BarLen, BarAddress, AllPlaced;
    var i := MoveOf(r.log, a);
    PlacedEach(size, regs0, r.regs, r.log, i);
    FollowsItsBar(size, regs0, r.regs, r.log, fb, i);
  }

  lemma {:induction false} FramebufferCarried(size: Sizes, regs0: Regs, fb: nat, bus: nat, slot: nat, func: nat, a: nat)
    requires Populated(size, regs0) && Disjoint(size, regs0) && bus < 256 && slot < 32 && func < 8
    requires Reached(regs0, Key(bus, slot, 0), func) && a in size && a / 256 == Key(bus, slot, func)
    requires Read(regs0, a + 4) != 0 && Within(size, regs0, a, fb)
    ensures Carried(End(size, regs0, fb), a, fb - BarAddress(regs0, a))
  {
    SlotsScanned(size, regs0, fb, 256 * 32);
    hide Disjoint, Populated, Reached, Inv, AllCleared, End, Key, Moved, Within, Read, Carried, BarAddress;
    MovedIffReached(size, regs0, fb, bus, slot, func, a);
    KeepsOffset(size, regs0, fb, End(size, regs0, fb), a);
  }

  /**
   * A framebuffer inside a BAR above 4 GB of a function the walk gets to: that
   * BAR gets a window, and the framebuffer keeps its offset in it.
   */
  lemma {:induction false} FramebufferFollows(size: Sizes, regs0: Regs, fb: nat, bus: nat, slot: nat, func: nat, a: nat, len: nat)
    requires Populated(size, regs0) && Disjoint(size, regs0) && bus < 256 && slot < 32 && func < 8 && a in size
    requires var d0 := 0x8000_0000 + 0x1_0000 * bus + 0x800 * slot;
             var d := d0 + 0x100 * func;
             Visited(regs0, d0, d) && d <= a < d + 256
    requires Read(regs0, a + 4) != 0 && len == if size[a] <= 0x2000_0000 then size[a] else 0x1000_0000
    requires var before := 0x1_0000_0000 * Read(regs0, a + 4) + Read(regs0, a) - Read(regs0, a) % 16; before <= fb < before + len
    ensures var r, before := End(size, regs0, fb), 0x1_0000_0000 * Read(regs0, a + 4) + Read(regs0, a) - Read(regs0, a) % 16;
            exists i :: 0 <= i < |r.log| && r.log[i].addr == a && r.newFb - r.log[i].base == fb - before < r.log[i].len
  {
    hide Disjoint, Populated, Reached, Visited, End, Key, Read;
    InFunction(bus, slot, func, a);
    ReachedIffVisited(regs0, bus, slot, func);
    BarFacts(size, regs0, a);
    FramebufferCarried(size, regs0, fb, bus, slot, func, a);
    var i :| 0 <= i < |End(size, regs0, fb).log| && End(size, regs0, fb).log[i].addr == a
             && End(size, regs0, fb).newFb - End(size, regs0, fb).log[i].base == fb - BarAddress(regs0, a)
             && 0 <= fb - BarAddress(regs0, a) < End(size, regs0, fb).log[i].len;
  }

  lemma {:induction false} FollowsNothing(log: seq<Window>, fb: nat)
    requires forall i :: 0 <= i < |log| ==> !(log[i].before <= fb < log[i].before + log[i].len)
    ensures Followed(log, fb) == fb
  {
    if log != [] { FollowsNothing(log[..|log| - 1], fb); }
  }

  /** A framebuffer outside all BARs above 4 GB stays where it is. */
  lemma {:induction false} FramebufferStays(size: Sizes, regs0: Regs, fb: nat)
    requires Populated(size, regs0)
    requires forall a :: a in size && Read(regs0, a + 4) != 0 ==> !Within(size, regs0, a, fb)
    ensures End(size, regs0, fb).newFb == fb
  {
    SlotsScanned(size, regs0, fb, 256 * 32);
    hide End, Inv, Populated, AllCleared, Within, Read;
    FollowsNone(size, regs0, fb, End(size, regs0, fb));
  }

  lemma {:induction false} FollowsNone(size: Sizes, regs0: Regs, fb: nat, r: State)
    requires Inv(size, regs0, fb, r)
    requires forall a :: a in size && Read(regs0, a + 4) != 0 ==> !Within(size, regs0, a, fb)
    ensures r.newFb == fb
  {
    hide AllPlaced, Followed, Framed, Commanded, Allocated, BarLen, BarAddress, Read, Moved, ReachedAt;
    forall i | 0 <= i < |r.log| ensures !(r.log[i].before <= fb < r.log[i].before + r.log[i].len) {
      PlacedEach(size, regs0, r.regs, r.log, i);
      MovedAt(r.log, i);
    }
    FollowsNothing(r.log, fb);
  }
}
