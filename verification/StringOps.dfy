/** src/common/string.c: the block operations used by the other components. */
module StringOps {
  import opened Bytes

  method MemCmp(s1: seq<Byte>, s2: seq<Byte>, n: nat) returns (r: int)
    requires n <= |s1| && n <= |s2|
    ensures r == 0 <==> s1[..n] == s2[..n]
    ensures r != 0 ==> exists i :: 0 <= i < n && s1[..i] == s2[..i] && r == (s1[i] as int) - (s2[i] as int)
  {
    for i := 0 to n
      invariant s1[..i] == s2[..i]
    {
      if s1[i] != s2[i] {
        assert s1[..n][i] != s2[..n][i];
        return (s1[i] as int) - (s2[i] as int);
      }
    }
    return 0;
  }

  method MemCpy(d: array<Byte>, o: nat, b: seq<Byte>)
    requires o + |b| <= d.Length
    modifies d
    ensures d[..] == Patch(old(d[..]), o, b)
  {
    for i := 0 to |b|
      invariant forall k :: 0 <= k < d.Length ==> d[k] == if o <= k < o + i then b[k - o] else old(d[k])
    {
      d[o + i] := b[i];
    }
  }

  method MemSet(d: array<Byte>, o: nat, c: Byte, n: nat)
    requires o + n <= d.Length
    modifies d
    ensures d[..] == Patch(old(d[..]), o, seq(n, _ => c))
  {
    for i := 0 to n
      invariant forall k :: 0 <= k < d.Length ==> d[k] == if o <= k < o + i then c else old(d[k])
    {
      d[o + i] := c;
    }
  }

  /** Source and destination lie in one buffer and may overlap: the bytes that arrive are the old ones. */
  method MemMove(d: array<Byte>, dest: nat, src: nat, n: nat)
    requires dest + n <= d.Length && src + n <= d.Length
    modifies d
    ensures d[..] == Patch(old(d[..]), dest, old(d[..])[src..src + n])
  {
    if dest < src {
      CopyUp(d, dest, src, n);
    } else if dest > src {
      CopyDown(d, dest, src, n);
    }
  }

  /** From the front, as long as the destination lies in front of the source. */
  method CopyUp(d: array<Byte>, dest: nat, src: nat, n: nat)
    requires dest < src && src + n <= d.Length
    modifies d
    ensures d[..] == Patch(old(d[..]), dest, old(d[..])[src..src + n])
  {
    hide Patch;
    for i := 0 to n
      invariant forall k :: 0 <= k < dest ==> d[k] == old(d[k])
      invariant forall k :: dest <= k < dest + i ==> d[k] == old(d[k - dest + src])
      invariant forall k :: dest + i <= k < d.Length ==> d[k] == old(d[k])
    {
      d[dest + i] := d[src + i];
    }
    Arrived(old(d[..]), d[..], dest, src, n);
  }

  /** From the back otherwise. */
  method CopyDown(d: array<Byte>, dest: nat, src: nat, n: nat)
    requires dest > src && dest + n <= d.Length
    modifies d
    ensures d[..] == Patch(old(d[..]), dest, old(d[..])[src..src + n])
  {
    hide Patch;
    for i := n downto 0
      invariant forall k :: 0 <= k < d.Length ==> d[k] == if dest + i <= k < dest + n then old(d[k - dest + src]) else old(d[k])
    {
      d[dest + i] := d[src + i];
    }
  }

  lemma Arrived(was: seq<Byte>, now: seq<Byte>, dest: nat, src: nat, n: nat)
    requires dest + n <= |was| == |now| && src + n <= |was|
    requires forall k :: 0 <= k < dest || dest + n <= k < |was| ==> now[k] == was[k]
    requires forall k :: dest <= k < dest + n ==> now[k] == was[k - dest + src]
    ensures now == Patch(was, dest, was[src..src + n])
  {
    forall k | 0 <= k < |was| ensures now[k] == Patch(was, dest, was[src..src + n])[k] {
      if dest <= k < dest + n { assert was[src..src + n][k - dest] == was[k - dest + src]; }
    }
  }
}
