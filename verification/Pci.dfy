/** pci_remap_above_4g_bars: 64-bit BARs placed above 4 GB are moved into 32-bit windows. */
module Pci {
  import opened Arithmetic
  import opened Bytes

  const TOP := 0xE000_0000            // the first window ends here
  const MAX_WINDOW := 0x2000_0000     // 512 MB
  const DEFAULT_WINDOW := 0x1000_0000 // 256 MB

  // ---------------------------------------------------------------------
  // Configuration space behind ports 0xCF8 and 0xCFC.
  // ---------------------------------------------------------------------

  /** `x & ~(n - 1)` for a power of two `n`. */
  function AlignDown(x: nat, n: nat): (r: nat)
    requires n > 0
    ensures r <= x < r + n && r % n == 0
  {
    DivUnique(x / n * n, n, x / n, 0);
    x / n * n
  }

  lemma AlignUnique(x: nat, n: nat, r: nat)
    requires n > 0 && r % n == 0 && r <= x < r + n
    ensures AlignDown(x, n) == r
  {
    DivUnique(x, n, r / n, x - r);
  }

  predicate PowerOfTwo(n: nat) {
    n == 1 || (n > 1 && n % 2 == 0 && PowerOfTwo(n / 2))
  }

  lemma {:induction false} PowersDivide(n: nat, t: nat)
    requires PowerOfTwo(n) && PowerOfTwo(t) && n <= t
    ensures t % n == 0
  {
    if n > 1 {
      PowersDivide(n / 2, t / 2);
      var q := t / 2 / (n / 2);
      assert t / 2 == q * (n / 2);
      assert t == q * n by { MulHalf(q, n / 2); }
      DivUnique(t, n, q, 0);
    }
  }

  lemma MulHalf(q: nat, h: nat)
    ensures 2 * (q * h) == q * (2 * h)
  {
  }

  lemma {:induction false} Twofold(n: nat)
    requires PowerOfTwo(n)
    ensures PowerOfTwo(2 * n)
  {
  }

  lemma {:induction false} Sixteenfold(n: nat)
    requires PowerOfTwo(n)
    ensures PowerOfTwo(16 * n)
  {
    hide PowerOfTwo;
    Twofold(n);
    Twofold(2 * n);
    Twofold(4 * n);
    Twofold(8 * n);
  }

  lemma Power32()
    ensures PowerOfTwo(16) && PowerOfTwo(TWO32) && PowerOfTwo(DEFAULT_WINDOW)
  {
    Sixteenfold(1);
    hide PowerOfTwo;
    Sixteenfold(0x10);
    Sixteenfold(0x100);
    Sixteenfold(0x1000);
    Sixteenfold(0x1_0000);
    Sixteenfold(0x10_0000);
    Sixteenfold(0x100_0000);
    Sixteenfold(0x1000_0000);
  }

  /** The address dword written to 0xCF8. */
  function Address(bus: nat, slot: nat, func: nat, offset: nat): (a: nat) {
    0x8000_0000 + bus * 0x1_0000 + slot * 0x800 + func * 0x100 + (offset - offset % 4)
  }

  /** The bus, slot and function part of an address. */
  function Key(bus: nat, slot: nat, func: nat): (k: nat) {
    0x80_0000 + bus * 0x100 + slot * 8 + func
  }

  lemma AddressParts(bus: nat, slot: nat, func: nat, off: nat)
    requires bus < 256 && slot < 32 && func < 8 && off < 256
    ensures Address(bus, slot, func, off) < TWO32
    ensures Address(bus, slot, func, off) / 256 == Key(bus, slot, func)
    ensures Address(bus, slot, func, off) % 256 == off - off % 4
  {
    assert Address(bus, slot, func, off) == 256 * Key(bus, slot, func) + (off - off % 4);
  }

  lemma KeyIsInjective(bus: nat, slot: nat, func: nat, bus': nat, slot': nat, func': nat)
    requires bus < 256 && slot < 32 && func < 8 && bus' < 256 && slot' < 32 && func' < 8
    ensures Key(bus, slot, func) == Key(bus', slot', func') <==> bus == bus' && slot == slot' && func == func'
  {
  }

  /** The packing loses nothing: no two dwords of two functions share an address. */
  lemma AddressIsInjective(bus: nat, slot: nat, func: nat, off: nat, bus': nat, slot': nat, func': nat, off': nat)
    requires bus < 256 && slot < 32 && func < 8 && off < 256 && bus' < 256 && slot' < 32 && func' < 8 && off' < 256
    ensures Address(bus, slot, func, off) == Address(bus', slot', func', off')
       <==> bus == bus' && slot == slot' && func == func' && off / 4 == off' / 4
  {
    hide Address, Key;
    AddressParts(bus, slot, func, off);
    AddressParts(bus', slot', func', off');
    KeyIsInjective(bus, slot, func, bus', slot', func');
    if bus == bus' && slot == slot' && func == func' && off / 4 == off' / 4 {
      assert Address(bus, slot, func, off) == 256 * Key(bus, slot, func) + (off - off % 4);
      assert off - off % 4 == off' - off' % 4;
    }
  }

  type Regs = map<nat, nat>

  function Read(regs: Regs, a: nat): (v: nat) {
    if a in regs then regs[a] else 0xFFFF_FFFF
  }

  /**
   * The devices: `size` gives, for the low dword of every 64-bit memory BAR,
   * the granularity of its address bits, which is the size of the BAR up to
   * 4 GB (section 6.2.5.1 of PCI Local Bus Specification 3.0). The low four
   * bits are read-only, everything else stores what is written.
   */
  type Sizes = m: map<nat, nat> | forall a :: a in m ==> PowerOfTwo(m[a]) && 16 <= m[a] <= TWO32 witness map[]

  function Store(size: Sizes, regs: Regs, a: nat, v: nat): (r: Regs)
    ensures r.Keys == regs.Keys
  {
    if a !in regs then regs
    else if a in size then regs[a := AlignDown(v, size[a]) + regs[a] % 16]
    else regs[a := v]
  }

  /** Memory BAR of the 64-bit kind, by its flag bits. */
  predicate Is64(low: nat) {
    low % 2 == 0 && low / 2 % 4 == 2
  }

  /** Bits 0 to 2 of such a BAR are 100. */
  lemma Is64InNumbers(low: nat)
    ensures Is64(low) <==> low % 8 == 4
  {
    var q, k := low / 8, low % 8;
    DivUnique(low, 2, 4 * q + k / 2, k % 2);
    DivUnique(low / 2, 4, q, k / 2);
  }

  /** `size` lists exactly the 64-bit memory BARs that a walk over the six BARs of a function meets. */
  ghost predicate Populated(size: Sizes, regs: Regs) {
    && (forall a :: a in size ==>
          && a in regs && a + 4 in regs && a + 4 !in size
          && a % 4 == 0 && 0x10 <= a % 256 <= 0x20 && Is64(regs[a]))
    && (forall a :: a in regs && a % 4 == 0 && 0x10 <= a % 256 <= 0x20 && Is64(regs[a]) && (a % 256 > 0x10 ==> a - 4 !in size)
          ==> a in size)
  }

  // ---------------------------------------------------------------------
  // What the walk does.
  // ---------------------------------------------------------------------

  /** One BAR that was moved: its low dword, its old address, and its new window. */
  datatype Window = Window(addr: nat, before: nat, base: nat, len: nat)

  datatype State = State(regs: Regs, next: nat, newFb: nat, log: seq<Window>)

  /** The length that the size probe yields; a register that gives back what is written reads as 16 bytes. */
  function BarLen(size: Sizes, regs: Regs, a: nat): (len: nat)
    ensures len > 0
  {
    if a !in size || a !in regs then 16 else if size[a] > MAX_WINDOW then DEFAULT_WINDOW else size[a]
  }

  /** A BAR of at most 512 MB gets a window of its size, a larger one 256 MB. */
  lemma BarLenInNumbers(size: Sizes, regs: Regs, a: nat)
    ensures a in size && a in regs ==> BarLen(size, regs, a) == if size[a] <= 0x2000_0000 then size[a] else 0x1000_0000
    ensures a !in size || a !in regs ==> BarLen(size, regs, a) == 16
  {
  }

  /** Bits 1 and 2 of the command register: memory decoding and bus mastering. */
  function WithoutMemory(cmd: nat): (r: nat) { cmd - cmd / 2 % 2 * 2 }
  function WithMemoryAndMaster(cmd: nat): (r: nat) { cmd + (1 - cmd / 2 % 2) * 2 + (1 - cmd / 4 % 2) * 4 }

  lemma WithoutInNumbers(cmd: nat)
    ensures var r := WithoutMemory(cmd); r / 4 == cmd / 4 && r % 2 == cmd % 2 && r / 2 % 2 == 0
  {
    var q, b := cmd / 4, cmd % 2;
    DivUnique(cmd / 2, 2, q, cmd / 2 % 2);
    var r := 4 * q + b;
    DivUnique(r, 4, q, b);
    DivUnique(r, 2, 2 * q, b);
  }

  function NextBase(next: nat, len: nat): (base: nat)
    requires len > 0
    ensures base % len == 0
  {
    AlignDown(U32(next - len), len)
  }

  /** The 64-bit address in a pair of BAR dwords. */
  function BarAddress(regs: Regs, a: nat): (r: nat) {
    Read(regs, a + 4) * TWO32 + (Read(regs, a) - Read(regs, a) % 16)
  }

  /** The five register writes of the innermost `if`, in order. */
  function Rewrite(size: Sizes, regs: Regs, c: nat, a: nat, base: nat): (r: Regs)
    ensures r.Keys == regs.Keys
  {
    var r2 := Store(size, Store(size, regs, c, WithoutMemory(Read(regs, c))), a, 0xFFFF_FFFF);
    var r4 := Store(size, Store(size, r2, a, base + Read(regs, a) % 16), a + 4, 0);
    Store(size, r4, c, WithMemoryAndMaster(Read(regs, c)))
  }

  /** BAR `a` of the function whose command dword is at `c` gets the next window. */
  function Move(size: Sizes, st: State, fb: nat, c: nat, a: nat): (r: State) {
    var before, len := BarAddress(st.regs, a), BarLen(size, st.regs, a);
    var base := NextBase(st.next, len);
    State(Rewrite(size, st.regs, c, a, base), base,
          if before <= fb < before + len then base + (fb - before) else st.newFb,
          st.log + [Window(a, before, base, len)])
  }

  function Reg(key: nat, offset: nat): (a: nat) {
    256 * key + offset
  }

  /** The BARs of one function from index `bar` on; the high half of a 64-bit BAR is skipped. */
  function ScanBars(size: Sizes, st: State, fb: nat, key: nat, bar: nat): (r: State)
    decreases 6 - bar
  {
    if bar >= 6 then st
    else
      var a := Reg(key, 0x10 + 4 * bar);
      if Is64(Read(st.regs, a)) && bar + 1 < 6 then
        ScanBars(size, if Read(st.regs, a + 4) != 0 then Move(size, st, fb, Reg(key, 4), a) else st, fb, key, bar + 2)
      else ScanBars(size, st, fb, key, bar + 1)
  }

  predicate Present(regs: Regs, key: nat) {
    var id := Read(regs, Reg(key, 0)) % TWO16;
    id != 0xFFFF && id != 0
  }

  predicate Multifunction(regs: Regs, key: nat) {
    Read(regs, Reg(key, 0x0C)) / TWO16 / 128 % 2 == 1
  }

  /** Identification and header type in numbers: bit 7 of byte 14 is the multifunction flag. */
  lemma HeaderInNumbers(regs: Regs, key: nat)
    ensures Present(regs, key) <==> Read(regs, 256 * key) % 0x1_0000 != 0 && Read(regs, 256 * key) % 0x1_0000 != 0xFFFF
    ensures Multifunction(regs, key) <==> Read(regs, 256 * key + 12) / 0x1_0000 % 256 >= 128
  {
    var d := Read(regs, 256 * key + 12) / 0x1_0000;
    assert d / 128 == 2 * (d / 256) + d % 256 / 128;
  }

  /** The functions of one slot from `func` on; `key` is that of function 0. */
  function ScanFunctions(size: Sizes, st: State, fb: nat, key: nat, func: nat): (r: State)
    decreases 8 - func
  {
    if func >= 8 then st
    else if !Present(st.regs, key + func) then
      if func == 0 then st else ScanFunctions(size, st, fb, key, func + 1)
    else
      var done := ScanBars(size, st, fb, key + func, 0);
      if func == 0 && !Multifunction(done.regs, key) then done else ScanFunctions(size, done, fb, key, func + 1)
  }

  /** The first `n` of the 256 * 32 slots. */
  function ScanSlots(size: Sizes, st: State, fb: nat, n: nat): (r: State) {
    if n == 0 then st
    else ScanFunctions(size, ScanSlots(size, st, fb, n - 1), fb, Key(0, n - 1, 0), 0)
  }

  // ---------------------------------------------------------------------
  // The code.
  // ---------------------------------------------------------------------

  class PciBus {
    const size: Sizes
    var regs: Regs

    constructor (s: Sizes, r: Regs)
      ensures size == s && regs == r
    {
      size, regs := s, r;
    }

    method Read32(bus: nat, slot: nat, func: nat, offset: nat) returns (v: nat)
      ensures v == Read(regs, Address(bus, slot, func, offset))
    {
      v := Read(regs, Address(bus, slot, func, offset));
    }

    method Write32(bus: nat, slot: nat, func: nat, offset: nat, val: nat)
      modifies this
      ensures regs == Store(size, old(regs), Address(bus, slot, func, offset), val)
    {
      regs := Store(size, regs, Address(bus, slot, func, offset), val);
    }

    /** Memory decoding of the function is off, as far as its command register exists. */
    ghost predicate Disabled(bus: nat, slot: nat, func: nat)
      reads this
    {
      var c := 0x8000_0000 + 0x1_0000 * bus + 0x800 * slot + 0x100 * func + 4;
      c in regs && c !in size ==> regs[c] / 2 % 2 == 0
    }

    /** A BAR is written only while its function does not decode memory. */
    method WriteBar(bus: nat, slot: nat, func: nat, barOff: nat, val: nat)
      requires bus < 256 && slot < 32 && func < 8 && 0x10 <= barOff <= 0x24 && barOff % 4 == 0
      requires Disabled(bus, slot, func)
      modifies this
      ensures regs == Store(size, old(regs), Address(bus, slot, func, barOff), val) && Disabled(bus, slot, func)
    {
      CommandApart(bus, slot, func, barOff);
      hide AlignDown;
      Write32(bus, slot, func, barOff, val);
    }

    /** `cmd & ~0x02` into the command register. */
    method DisableMemory(bus: nat, slot: nat, func: nat, cmd: nat)
      requires bus < 256 && slot < 32 && func < 8
      modifies this
      ensures regs == Store(size, old(regs), Address(bus, slot, func, 4), WithoutMemory(cmd)) && Disabled(bus, slot, func)
    {
      hide AlignDown;
      WithoutInNumbers(cmd);
      hide WithoutMemory;
      Write32(bus, slot, func, 0x04, WithoutMemory(cmd));
    }

    /** The innermost `if` of the walk: a 64-bit BAR whose high half is not zero. */
    method MoveBar(bus: nat, slot: nat, func: nat, barOff: nat, barLow: nat, barHigh: nat, next: nat, fb: nat, newFb: nat,
                   ghost st: State)
      returns (base: nat, fb': nat, ghost r: State)
      requires bus < 256 && slot < 32 && func < 8 && 0x10 <= barOff <= 0x20 && barOff % 4 == 0
      requires st.regs == regs && st.next == next && st.newFb == newFb
      requires barLow == Read(regs, Address(bus, slot, func, barOff)) && barHigh == Read(regs, Address(bus, slot, func, barOff + 4))
      modifies this
      ensures r == Move(size, st, fb, Address(bus, slot, func, 4), Address(bus, slot, func, barOff))
      ensures r.regs == regs && r.next == base && r.newFb == fb'
    {
      hide Address, Rewrite, NextBase, BarLen;
      ghost var c, a := Address(bus, slot, func, 4), Address(bus, slot, func, barOff);
      HighHalf(bus, slot, func, barOff);
      var barAddr := barHigh * TWO32 + (barLow - barLow % 16);
      var barLen;
      base, barLen := ProgramBar(bus, slot, func, barOff, barLow, next);
      fb' := if barAddr <= fb < barAddr + barLen then base + (fb - barAddr) else newFb;
      r := Move(size, st, fb, c, a);
    }

    /** The size probe, with the default for lengths that do not fit. */
    method ProbeSize(bus: nat, slot: nat, func: nat, barOff: nat) returns (barLen: nat)
      requires bus < 256 && slot < 32 && func < 8 && 0x10 <= barOff <= 0x20 && barOff % 4 == 0
      requires Disabled(bus, slot, func)
      modifies this
      ensures Disabled(bus, slot, func)
      ensures barLen == BarLen(size, old(regs), Address(bus, slot, func, barOff))
      ensures regs == Store(size, old(regs), Address(bus, slot, func, barOff), 0xFFFF_FFFF)
    {
      hide AlignDown, Address, Store, BarLen, PciBus.Disabled;
      ProbeLength(size, regs, Address(bus, slot, func, barOff));
      WriteBar(bus, slot, func, barOff, 0xFFFF_FFFF);
      var probed := Read32(bus, slot, func, barOff);
      barLen := U32(TWO32 - (probed - probed % 16));
      if barLen == 0 || barLen > MAX_WINDOW {
        barLen := DEFAULT_WINDOW;
      }
    }

    /** Probe the size, take the next window below, and write it. */
    method ProgramBar(bus: nat, slot: nat, func: nat, barOff: nat, barLow: nat, next: nat) returns (base: nat, barLen: nat)
      requires bus < 256 && slot < 32 && func < 8 && 0x10 <= barOff <= 0x20 && barOff % 4 == 0
      requires barLow == Read(regs, Address(bus, slot, func, barOff))
      modifies this
      ensures barLen == BarLen(size, old(regs), Address(bus, slot, func, barOff)) && base == NextBase(next, barLen)
      ensures regs == Rewrite(size, old(regs), Address(bus, slot, func, 4), Address(bus, slot, func, barOff), base)
    {
      hide AlignDown, Address, WithoutMemory, WithMemoryAndMaster, Store, BarLen, PciBus.Disabled;
      HighHalf(bus, slot, func, barOff);
      var cmd := Read32(bus, slot, func, 0x04);
      DisableMemory(bus, slot, func, cmd);
      SameLength(size, regs, old(regs), Address(bus, slot, func, barOff));
      barLen := ProbeSize(bus, slot, func, barOff);
      base := AlignDown(U32(next - barLen), barLen);
      WriteBar(bus, slot, func, barOff, base + barLow % 16);
      WriteBar(bus, slot, func, barOff + 4, 0);
      Write32(bus, slot, func, 0x04, WithMemoryAndMaster(cmd));
    }

    /** The walk over the BARs of one function. */
    method WalkBars(bus: nat, slot: nat, func: nat, next: nat, fb: nat, newFb: nat, ghost st: State)
      returns (next': nat, fb': nat, ghost r: State)
      requires bus < 256 && slot < 32 && func < 8
      requires st.regs == regs && st.next == next && st.newFb == newFb
      modifies this
      ensures r == ScanBars(size, st, fb, Key(bus, slot, func), 0)
      ensures r.regs == regs && r.next == next' && r.newFb == fb'
    {
      hide Move, Address, Key;
      hide ScanBars;
      next', fb', r := next, newFb, st;
      ghost var key := Key(bus, slot, func);
      var bar := 0;
      while bar < 6
        invariant 0 <= bar <= 6 && r.regs == regs && r.next == next' && r.newFb == fb'
        invariant ScanBars(size, st, fb, key, 0) == ScanBars(size, r, fb, key, bar)
      {
        var barOff := 0x10 + bar * 4;
        RegAddress(bus, slot, func, barOff);
        ScanStep(size, r, fb, key, bar);
        var barLow := Read32(bus, slot, func, barOff);
        if barLow % 2 == 0 {
          var barType := barLow / 2 % 4;
          if barType == 2 && bar + 1 < 6 {
            RegAddress(bus, slot, func, barOff + 4);
            RegAddress(bus, slot, func, 4);
            var barHigh := Read32(bus, slot, func, barOff + 4);
            if barHigh != 0 {
              next', fb', r := MoveBar(bus, slot, func, barOff, barLow, barHigh, next', fb, fb', r);
            }
            bar := bar + 1;
          }
        }
        bar := bar + 1;
      }
      ScanEnd(size, r, fb, key);
    }

    /** The walk over the functions of one slot. */
    method WalkFunctions(bus: nat, slot: nat, next: nat, fb: nat, newFb: nat, ghost st: State)
      returns (next': nat, fb': nat, ghost r: State)
      requires bus < 256 && slot < 32
      requires st.regs == regs && st.next == next && st.newFb == newFb
      modifies this
      ensures r == ScanFunctions(size, st, fb, Key(bus, slot, 0), 0)
      ensures r.regs == regs && r.next == next' && r.newFb == fb'
      ensures var d, key := 0x8000_0000 + 0x1_0000 * bus + 0x800 * slot, Key(bus, slot, 0);
              var one := ScanBars(size, st, fb, key, 0);
              if Read(old(regs), d) % 0x1_0000 == 0 || Read(old(regs), d) % 0x1_0000 == 0xFFFF then r == st
              else if Read(one.regs, d + 12) / 0x1_0000 % 256 < 128 then r == one
              else r == ScanFunctions(size, one, fb, key, 1)
    {
      hide ScanFunctions, ScanBars, Key, Read;
      SlotInNumbers(size, st, fb, bus, slot);
      next', fb', r := VisitFunctions(bus, slot, next, fb, newFb, st);
    }

    /** Its loop. */
    method VisitFunctions(bus: nat, slot: nat, next: nat, fb: nat, newFb: nat, ghost st: State)
      returns (next': nat, fb': nat, ghost r: State)
      requires bus < 256 && slot < 32
      requires st.regs == regs && st.next == next && st.newFb == newFb
      modifies this
      ensures r == ScanFunctions(size, st, fb, Key(bus, slot, 0), 0)
      ensures r.regs == regs && r.next == next' && r.newFb == fb'
    {
      hide ScanBars, Address;
      next', fb', r := next, newFb, st;
      ghost var key := Key(bus, slot, 0);
      for func := 0 to 8
        invariant r.regs == regs && r.next == next' && r.newFb == fb'
        invariant ScanFunctions(size, st, fb, key, 0) == ScanFunctions(size, r, fb, key, func)
      {
        assert Key(bus, slot, func) == key + func;
        RegAddress(bus, slot, func, 0);
        RegAddress(bus, slot, func, 0x0C);
        var vendorDev := Read32(bus, slot, func, 0x00);
        if vendorDev % TWO16 == 0xFFFF || vendorDev % TWO16 == 0x0000 {
          if func == 0 {
            return;
          }
          continue;
        }
        next', fb', r := WalkBars(bus, slot, func, next', fb, fb', r);
        if func == 0 {
          var hdrType := Read32(bus, slot, func, 0x0C);
          if hdrType / TWO16 / 128 % 2 == 0 {
            return;
          }
        }
      }
    }

    method RemapAbove4G(fb: nat) returns (newFb: nat, ghost final: State)
      modifies this
      ensures final == ScanSlots(size, State(old(regs), 0xE000_0000, fb, []), fb, 256 * 32)
      ensures regs == final.regs && newFb == final.newFb
    {
      hide ScanSlots, ScanFunctions, ScanBars, Read, Key;
      var next := TOP;
      newFb := fb;
      ghost var st := State(regs, TOP, fb, []);
      final := st;
      NoSlots(size, st, fb);
      for bus := 0 to 256
        invariant final == ScanSlots(size, st, fb, 32 * bus)
        invariant final.regs == regs && final.next == next && final.newFb == newFb
      {
        for slot := 0 to 32
          invariant final == ScanSlots(size, st, fb, 32 * bus + slot)
          invariant final.regs == regs && final.next == next && final.newFb == newFb
        {
          SlotStep(size, st, fb, bus, slot);
          next, newFb, final := WalkFunctions(bus, slot, next, fb, newFb, final);
        }
      }
    }
  }

  lemma {:induction false} NoSlots(size: Sizes, st: State, fb: nat)
    ensures ScanSlots(size, st, fb, 0) == st
  {
  }

  lemma {:induction false} SlotStep(size: Sizes, st: State, fb: nat, bus: nat, slot: nat)
    ensures ScanSlots(size, st, fb, 32 * bus + (slot + 1))
         == ScanFunctions(size, ScanSlots(size, st, fb, 32 * bus + slot), fb, Key(bus, slot, 0), 0)
  {
    hide ScanFunctions;
    assert Key(bus, slot, 0) == Key(0, 32 * bus + slot, 0);
  }

  lemma CommandApart(bus: nat, slot: nat, func: nat, barOff: nat)
    requires barOff >= 0x10 && barOff % 4 == 0
    ensures Address(bus, slot, func, barOff) != 0x8000_0000 + 0x1_0000 * bus + 0x800 * slot + 0x100 * func + 4
  {
  }

  /** The walk over a slot at function 0: nothing there, a single function, or seven more to look at. */
  lemma {:induction false} SlotInNumbers(size: Sizes, st: State, fb: nat, bus: nat, slot: nat)
    ensures var d, key := 0x8000_0000 + 0x1_0000 * bus + 0x800 * slot, Key(bus, slot, 0);
            var r, one := ScanFunctions(size, st, fb, key, 0), ScanBars(size, st, fb, key, 0);
            if Read(st.regs, d) % 0x1_0000 == 0 || Read(st.regs, d) % 0x1_0000 == 0xFFFF then r == st
            else if Read(one.regs, d + 12) / 0x1_0000 % 256 < 128 then r == one
            else r == ScanFunctions(size, one, fb, key, 1)
  {
    hide ScanBars;
    var key := Key(bus, slot, 0);
    assert 256 * key == 0x8000_0000 + 0x1_0000 * bus + 0x800 * slot;
    HeaderInNumbers(st.regs, key);
    HeaderInNumbers(ScanBars(size, st, fb, key, 0).regs, key);
    hide Present, Multifunction, Read;
    assert ScanFunctions(size, st, fb, key, 0) ==
           if !Present(st.regs, key + 0) then st
           else if !Multifunction(ScanBars(size, st, fb, key + 0, 0).regs, key) then ScanBars(size, st, fb, key + 0, 0)
           else ScanFunctions(size, ScanBars(size, st, fb, key + 0, 0), fb, key, 1);
  }

  /** The functions 1 to 7: those that answer are scanned, the others passed over. */
  lemma {:induction false} FunctionInNumbers(size: Sizes, st: State, fb: nat, bus: nat, slot: nat, func: nat)
    requires 1 <= func < 8
    ensures var d, key := 0x8000_0000 + 0x1_0000 * bus + 0x800 * slot + 0x100 * func, Key(bus, slot, 0);
            ScanFunctions(size, st, fb, key, func) ==
            ScanFunctions(size, if Read(st.regs, d) % 0x1_0000 == 0 || Read(st.regs, d) % 0x1_0000 == 0xFFFF then st
                                else ScanBars(size, st, fb, Key(bus, slot, func), 0), fb, key, func + 1)
    ensures ScanFunctions(size, st, fb, Key(bus, slot, 0), 8) == st
  {
    hide ScanBars;
    assert 256 * Key(bus, slot, func) == 0x8000_0000 + 0x1_0000 * bus + 0x800 * slot + 0x100 * func;
    assert Key(bus, slot, func) == Key(bus, slot, 0) + func;
    HeaderInNumbers(st.regs, Key(bus, slot, func));
    hide Present, Read;
  }

  lemma {:induction false} ScanEnd(size: Sizes, st: State, fb: nat, key: nat)
    ensures ScanBars(size, st, fb, key, 6) == st
  {
  }

  lemma ScanStep(size: Sizes, st: State, fb: nat, key: nat, bar: nat)
    requires bar < 6
    ensures var a := Reg(key, 0x10 + bar * 4);
            ScanBars(size, st, fb, key, bar) ==
            if Is64(Read(st.regs, a)) && bar + 1 < 6 then
              ScanBars(size, if Read(st.regs, a + 4) != 0 then Move(size, st, fb, Reg(key, 4), a) else st, fb, key, bar + 2)
            else ScanBars(size, st, fb, key, bar + 1)
  {
    hide Move, Is64, Read;
    assert Reg(key, 0x10 + bar * 4) == Reg(key, 0x10 + 4 * bar);
  }

  lemma RegAddress(bus: nat, slot: nat, func: nat, offset: nat)
    requires bus < 256 && slot < 32 && func < 8 && offset < 256 && offset % 4 == 0
    ensures Address(bus, slot, func, offset) == Reg(Key(bus, slot, func), offset)
  {
  }

  lemma HighHalf(bus: nat, slot: nat, func: nat, offset: nat)
    requires offset % 4 == 0
    ensures Address(bus, slot, func, offset + 4) == Address(bus, slot, func, offset) + 4
  {
  }

  /** Writing all ones and reading back tells the size: all address bits the device implements read as ones. */
  lemma ProbeLength(size: Sizes, regs: Regs, a: nat)
    ensures var v := Read(Store(size, regs, a, 0xFFFF_FFFF), a);
            var len := U32(TWO32 - (v - v % 16));
            (if len == 0 || len > MAX_WINDOW then DEFAULT_WINDOW else len) == BarLen(size, regs, a)
  {
    hide AlignDown;
    var v := Read(Store(size, regs, a, 0xFFFF_FFFF), a);
    if a in regs && a in size {
      ReadBackBits(size[a], regs[a] % 16);
    } else {
      assert v == 0xFFFF_FFFF;
    }
  }

  lemma {:induction false} ReadBackBits(n: nat, f: nat)
    requires PowerOfTwo(n) && 16 <= n <= TWO32 && f < 16
    ensures var v := AlignDown(0xFFFF_FFFF, n) + f;
            v - v % 16 == TWO32 - n && U32(TWO32 - (v - v % 16)) == if n == TWO32 then 0 else n
  {
    hide AlignDown, PowerOfTwo;
    AllOnes(n);
    Power32();
    PowersDivide(16, n);
    FlagsOff(n, f);
  }

  lemma FlagsOff(n: nat, f: nat)
    requires n % 16 == 0 && 16 <= n <= TWO32 && f < 16
    ensures (TWO32 - n + f) % 16 == f && U32(n) == if n == TWO32 then 0 else n
  {
  }

  lemma SameLength(size: Sizes, regs: Regs, regs': Regs, a: nat)
    requires regs.Keys == regs'.Keys
    ensures BarLen(size, regs, a) == BarLen(size, regs', a)
  {
  }

  lemma {:induction false} AllOnes(n: nat)
    requires PowerOfTwo(n) && 16 <= n <= TWO32
    ensures AlignDown(0xFFFF_FFFF, n) == TWO32 - n
  {
    Power32();
    PowersDivide(n, TWO32);
    var q := TWO32 / n;
    MulSub(q, 1, n);
    DivUnique(TWO32 - n, n, q - 1, 0);
    AlignUnique(0xFFFF_FFFF, n, TWO32 - n);
  }
}
