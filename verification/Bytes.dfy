/** Bytes, little-endian fields and in-place patches of byte buffers. */
module Bytes {

  type Byte = x: int | 0 <= x < 256

  datatype Option<T> = None | Some(value: T)

  /** A C string: no character is NUL. */
  type CString = s: seq<Byte> | 0 !in s witness []

  const TWO16 := 0x1_0000
  const TWO28 := 0x1000_0000
  const TWO32 := 0x1_0000_0000

  /** Truncation of an arithmetic result to uint32_t. */
  function U32(x: int): (r: nat)
    ensures r < TWO32
  {
    x % TWO32
  }

  function LE16(v: nat): (s: seq<Byte>)
    ensures |s| == 2
  {
    [v % 256, v / 256 % 256]
  }

  function LE32(v: nat): (s: seq<Byte>)
    ensures |s| == 4
  {
    [v % 256, v / 256 % 256, v / 65536 % 256, v / 16777216 % 256]
  }

  function Get16(s: seq<Byte>, o: nat): (v: nat)
    requires o + 2 <= |s|
    ensures v < TWO16
  {
    (s[o] as int) + 256 * (s[o + 1] as int)
  }

  function Get32(s: seq<Byte>, o: nat): (v: nat)
    requires o + 4 <= |s|
    ensures v < TWO32
  {
    (s[o] as int) + 256 * (s[o + 1] as int) + 65536 * (s[o + 2] as int) + 16777216 * (s[o + 3] as int)
  }

  lemma GetLE16(v: nat)
    requires v < TWO16
    ensures Get16(LE16(v), 0) == v
  {
  }

  lemma GetLE32(v: nat)
    requires v < TWO32
    ensures Get32(LE32(v), 0) == v
  {
    var h1, h2, h3 := v / 256, v / 65536, v / 16777216;
    assert h1 == 256 * h2 + h1 % 256;
    assert h2 == 256 * h3 + h2 % 256;
    assert h3 % 256 == h3;
  }

  /** Least significant byte first, in both directions. */
  lemma LittleEndian(b0: Byte, b1: Byte, b2: Byte, b3: Byte)
    ensures LE16(b0 as int + 256 * b1 as int) == [b0, b1] && Get16([b0, b1], 0) == b0 as int + 256 * b1 as int
    ensures var v := b0 as int + 256 * b1 as int + 65536 * b2 as int + 16777216 * b3 as int;
            LE32(v) == [b0, b1, b2, b3] && Get32([b0, b1, b2, b3], 0) == v
  {
    var v := b0 as int + 256 * b1 as int + 65536 * b2 as int + 16777216 * b3 as int;
    assert v / 256 == b1 as int + 256 * b2 as int + 65536 * b3 as int;
    assert v / 65536 == b2 as int + 256 * b3 as int;
    assert v / 16777216 == b3 as int;
  }

  function Zeros(n: nat): (s: seq<Byte>)
    ensures |s| == n
    ensures forall i :: 0 <= i < n ==> s[i] == 0
  {
    seq(n, _ => 0)
  }

  /** `s` with the bytes from offset `o` overwritten by `b`. */
  function Patch(s: seq<Byte>, o: nat, b: seq<Byte>): (t: seq<Byte>)
    requires o + |b| <= |s|
    ensures |t| == |s|
    ensures forall i :: 0 <= i < |s| ==> t[i] == if o <= i < o + |b| then b[i - o] else s[i]
  {
    s[..o] + b + s[o + |b|..]
  }

  /** A window that the patch misses is unchanged. */
  lemma PatchOutside(s: seq<Byte>, o: nat, b: seq<Byte>, lo: nat, hi: nat)
    requires o + |b| <= |s| && lo <= hi <= |s|
    requires hi <= o || o + |b| <= lo
    ensures Patch(s, o, b)[lo..hi] == s[lo..hi]
  {
  }

  /** A window that contains the patch sees it as a patch of its own. */
  lemma PatchInside(s: seq<Byte>, o: nat, b: seq<Byte>, lo: nat, hi: nat)
    requires lo <= o && o + |b| <= hi <= |s|
    ensures Patch(s, o, b)[lo..hi] == Patch(s[lo..hi], o - lo, b)
  {
  }

  /** A patch within a patch patches the patch. */
  lemma PatchNested(s: seq<Byte>, o: nat, b: seq<Byte>, k: nat, c: seq<Byte>)
    requires o + |b| <= |s| && k + |c| <= |b|
    ensures Patch(Patch(s, o, b), o + k, c) == Patch(s, o, Patch(b, k, c))
  {
  }

  lemma PatchAppend(s: seq<Byte>, o: nat, b: seq<Byte>, c: seq<Byte>)
    requires o + |b| + |c| <= |s|
    ensures Patch(Patch(s, o, b), o + |b|, c) == Patch(s, o, b + c)
  {
  }

  lemma SliceOfSlice(s: seq<Byte>, lo: nat, hi: nat, a: nat, b: nat)
    requires lo <= hi <= |s| && a <= b <= hi - lo
    ensures s[lo..hi][a..b] == s[lo + a..lo + b]
  {
    forall i | 0 <= i < b - a ensures s[lo..hi][a..b][i] == s[lo + a..lo + b][i] {
    }
  }

  lemma Get32InSlice(s: seq<Byte>, lo: nat, hi: nat, o: nat)
    requires lo <= hi <= |s| && o + 4 <= hi - lo
    ensures Get32(s[lo..hi], o) == Get32(s, lo + o)
  {
  }

  /** A field holds what was stored in it. */
  lemma Slice16(s: seq<Byte>, o: nat, v: nat)
    requires o + 2 <= |s| && v < TWO16 && s[o..o + 2] == LE16(v)
    ensures Get16(s, o) == v
  {
    assert s[o..o + 2][0] == s[o] && s[o..o + 2][1] == s[o + 1];
    GetLE16(v);
  }

  lemma Slice32(s: seq<Byte>, o: nat, v: nat)
    requires o + 4 <= |s| && v < TWO32 && s[o..o + 4] == LE32(v)
    ensures Get32(s, o) == v
  {
    var t := s[o..o + 4];
    assert t[0] == s[o] && t[1] == s[o + 1] && t[2] == s[o + 2] && t[3] == s[o + 3];
    GetLE32(v);
  }

  /** A buffer read as an array of 32-bit little-endian words. */
  function Words(region: seq<Byte>): (w: seq<nat>)
    ensures |w| == |region| / 4
    ensures forall i :: 0 <= i < |w| ==> w[i] == Get32(region, 4 * i)
  {
    seq(|region| / 4, i requires 0 <= i < |region| / 4 => Get32(region, 4 * i))
  }

  lemma PatchWord(region: seq<Byte>, i: nat, v: nat)
    requires 4 * i + 4 <= |region| && v < TWO32
    ensures Words(Patch(region, 4 * i, LE32(v))) == Words(region)[i := v]
  {
    var t := Patch(region, 4 * i, LE32(v));
    GetLE32(v);
    forall k | 0 <= k < |region| / 4
      ensures Words(t)[k] == Words(region)[i := v][k]
    {
      assert Get32(t, 4 * k) == if k == i then v else Get32(region, 4 * k);
    }
  }
}
