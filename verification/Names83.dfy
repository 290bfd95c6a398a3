/** The 8.3 name encoders of the image builder and of the FAT reader. */
module Names83 {
  import opened Bytes

  const DOT: Byte := 46
  const SPACE: Byte := 32

  const DOT_NAME: CString := [DOT]
  const DOTDOT_NAME: CString := [DOT, DOT]

  function ToUpper(c: Byte): Byte {
    if 97 <= c <= 122 then c - 32 else c
  }

  /** The characters in front of the first dot. */
  function BaseOf(s: seq<Byte>): (r: seq<Byte>)
    ensures |r| <= |s|
  {
    if s == [] then []
    else
      var p, c := s[..|s| - 1], s[|s| - 1];
      if c == DOT || DOT in p then BaseOf(p) else BaseOf(p) + [c]
  }

  /** The characters after the first dot, without later dots. */
  function ExtOf(s: seq<Byte>): (r: seq<Byte>)
    ensures |r| <= |s|
  {
    if s == [] then []
    else
      var p, c := s[..|s| - 1], s[|s| - 1];
      if c == DOT || DOT !in p then ExtOf(p) else ExtOf(p) + [c]
  }

  /** A fixed-width field: upper-cased, cut to `n` characters, padded with blanks. */
  function Field(s: seq<Byte>, n: nat): (r: seq<Byte>)
    ensures |r| == n
    ensures forall i :: 0 <= i < n ==> r[i] == if i < |s| then ToUpper(s[i]) else SPACE
  {
    seq(n, i requires 0 <= i < n => if i < |s| then ToUpper(s[i]) else SPACE)
  }

  /** The parts of a prefix that is one character longer. */
  lemma PartsStep(s: seq<Byte>, i: nat)
    requires i < |s|
    ensures BaseOf(s[..i + 1]) == BaseOf(s[..i]) + if s[i] == DOT || DOT in s[..i] then [] else [s[i]]
    ensures ExtOf(s[..i + 1]) == ExtOf(s[..i]) + if s[i] == DOT || DOT !in s[..i] then [] else [s[i]]
    ensures DOT in s[..i + 1] <==> DOT in s[..i] || s[i] == DOT
  {
    assert s[..i + 1][..i] == s[..i];
  }

  function Plain83(s: seq<Byte>): (r: seq<Byte>)
    ensures |r| == 11
  {
    Field(BaseOf(s), 8) + Field(ExtOf(s), 3)
  }

  /** What mkdisk's format_83 leaves in its two output fields. */
  function BuilderName(s: CString): (r: seq<Byte>)
    ensures |r| == 11
  {
    if s == DOT_NAME || s == DOTDOT_NAME then s + seq(11 - |s|, _ => SPACE) else Plain83(s)
  }

  function Min(a: nat, b: nat): nat { if a < b then a else b }

  /** What the reader's format_83_name leaves in its output: only 64 characters are looked at. */
  function ReaderName(s: CString): (r: seq<Byte>)
    ensures |r| == 11
  {
    Plain83(s[..Min(64, |s|)])
  }

  /** mkdisk's format_83: fills the two fields in place. */
  method Format83(name: CString, outName: array<Byte>, outExt: array<Byte>)
    requires outName.Length == 8 && outExt.Length == 3 && outName != outExt
    modifies outName, outExt
    ensures outName[..] + outExt[..] == BuilderName(name)
  {
    hide BaseOf, ExtOf;
    FillBlank(outName);
    FillBlank(outExt);
    if name == DOT_NAME {
      outName[0] := DOT;
      return;
    }
    if name == DOTDOT_NAME {
      outName[0] := DOT;
      outName[1] := DOT;
      return;
    }
    var ni, ei, inExt := 0, 0, false;
    for i := 0 to |name|
      invariant inExt == (DOT in name[..i])
      invariant ni == Min(8, |BaseOf(name[..i])|) && ei == Min(3, |ExtOf(name[..i])|)
      invariant outName[..] == Field(BaseOf(name[..i]), 8)
      invariant outExt[..] == Field(ExtOf(name[..i]), 3)
    {
      var c := name[i];
      PartsStep(name, i);
      if c == DOT {
        inExt := true;
        continue;
      }
      if 97 <= c <= 122 {
        c := c - 32;
      }
      if !inExt {
        if ni < 8 {
          outName[ni] := c;
          ni := ni + 1;
        }
      } else {
        if ei < 3 {
          outExt[ei] := c;
          ei := ei + 1;
        }
      }
    }
    assert name[..|name|] == name;
  }

  /** The reader's format_83_name: fills one 11-byte field in place. */
  method Format83Name(input: CString, output: array<Byte>)
    requires output.Length == 11
    modifies output
    ensures output[..] == ReaderName(input)
  {
    hide BaseOf, ExtOf;
    FillBlank(output);
    var nameIdx, extIdx, inExt := 0, 0, false;
    var i := 0;
    while i < |input| && i < 64
      invariant 0 <= i <= Min(64, |input|)
      invariant inExt == (DOT in input[..i])
      invariant nameIdx == Min(8, |BaseOf(input[..i])|) && extIdx == Min(3, |ExtOf(input[..i])|)
      invariant output[..8] == Field(BaseOf(input[..i]), 8)
      invariant output[8..] == Field(ExtOf(input[..i]), 3)
    {
      var c := input[i];
      PartsStep(input, i);
      if c == DOT {
        inExt := true;
      } else if !inExt {
        if nameIdx < 8 {
          output[nameIdx] := ToUpper(c);
          nameIdx := nameIdx + 1;
        }
      } else {
        if extIdx < 3 {
          output[8 + extIdx] := ToUpper(c);
          extIdx := extIdx + 1;
        }
      }
      i := i + 1;
    }
    assert output[..] == output[..8] + output[8..];
  }

  method FillBlank(a: array<Byte>)
    modifies a
    ensures a[..] == seq(a.Length, _ => SPACE)
  {
    for i := 0 to a.Length
      invariant forall k :: 0 <= k < i ==> a[k] == SPACE
    {
      a[i] := SPACE;
    }
  }

  // ---------------------------------------------------------------------
  // What the two encoders have in common.
  // ---------------------------------------------------------------------

  function WithoutDots(s: seq<Byte>): (r: seq<Byte>) {
    if s == [] then []
    else WithoutDots(s[..|s| - 1]) + if s[|s| - 1] == DOT then [] else [s[|s| - 1]]
  }

  lemma {:induction false} NoDot(s: seq<Byte>)
    requires DOT !in s
    ensures BaseOf(s) == s && ExtOf(s) == []
  {
    if s != [] {
      NoDot(s[..|s| - 1]);
      assert s == s[..|s| - 1] + [s[|s| - 1]];
    }
  }

  /** The two parts are what lies on either side of the first dot. */
  lemma {:induction false} SplitAtFirstDot(s: seq<Byte>, k: nat)
    requires k < |s| && s[k] == DOT && DOT !in s[..k]
    ensures BaseOf(s) == s[..k] && ExtOf(s) == WithoutDots(s[k + 1..])
  {
    BaseAtFirstDot(s, k);
    ExtAtFirstDot(s, k);
  }

  lemma {:induction false} BaseAtFirstDot(s: seq<Byte>, k: nat)
    requires k < |s| && s[k] == DOT && DOT !in s[..k]
    ensures BaseOf(s) == s[..k]
  {
    hide ExtOf;
    var p := s[..|s| - 1];
    assert p[..k] == s[..k];
    if k == |s| - 1 {
      NoDot(p);
    } else {
      assert p[k] == DOT;
      BaseAtFirstDot(p, k);
    }
  }

  lemma {:induction false} ExtAtFirstDot(s: seq<Byte>, k: nat)
    requires k < |s| && s[k] == DOT && DOT !in s[..k]
    ensures ExtOf(s) == WithoutDots(s[k + 1..])
  {
    hide BaseOf;
    var p := s[..|s| - 1];
    assert p[..k] == s[..k];
    if k == |s| - 1 {
      NoDot(p);
    } else {
      assert p[k] == DOT;
      ExtAtFirstDot(p, k);
      assert s[k + 1..][..|s| - k - 2] == p[k + 1..];
    }
  }

  /** Adding characters at the end only adds characters at the end of either part. */
  lemma {:induction false} PartsGrow(s: seq<Byte>, n: nat)
    requires n <= |s|
    ensures BaseOf(s[..n]) <= BaseOf(s) && ExtOf(s[..n]) <= ExtOf(s)
    ensures DOT !in s[..n] ==> |BaseOf(s[..n])| == n
    ensures DOT in s[..n] ==> BaseOf(s[..n]) == BaseOf(s)
  {
    if DOT !in s[..n] { NoDot(s[..n]); }
    if n == |s| {
      assert s[..n] == s;
    } else {
      var p := s[..|s| - 1];
      assert p[..n] == s[..n];
      PartsGrow(p, n);
      if DOT in s[..n] { var k :| 0 <= k < n && s[k] == DOT; assert p[k] == DOT; }
    }
  }

  /**
   * On names of at most 64 characters the two encoders agree except on the
   * two directory links, for which only the builder has a special case.
   */
  lemma EncodersAgree(s: CString)
    requires |s| <= 64
    ensures BuilderName(s) == ReaderName(s) <==> s != DOT_NAME && s != DOTDOT_NAME
  {
    assert s[..|s|] == s;
    if s == DOT_NAME || s == DOTDOT_NAME {
      SplitAtFirstDot(s, 0);
      assert ReaderName(s)[0] == SPACE;
      assert BuilderName(s)[0] == DOT;
    }
  }

  /**
   * A longer name is read back exactly when the extension characters that the
   * reader no longer looks at are blanks or beyond the third.
   */
  lemma {:induction false} EncodersAgreeOnLongNames(s: CString)
    requires |s| > 64
    ensures BuilderName(s) == ReaderName(s) <==>
            forall i :: |ExtOf(s[..64])| <= i < Min(3, |ExtOf(s)|) ==> ExtOf(s)[i] == SPACE
  {
    PartsGrow(s, 64);
    var e, f := ExtOf(s[..64]), ExtOf(s);
    assert Field(BaseOf(s[..64]), 8) == Field(BaseOf(s), 8);
    assert BuilderName(s) == Plain83(s);
    assert Plain83(s)[8..] == Field(f, 3) && ReaderName(s)[8..] == Field(e, 3);
    assert Plain83(s)[..8] == ReaderName(s)[..8];
    assert BuilderName(s) == ReaderName(s) <==> Field(f, 3) == Field(e, 3) by {
      assert Plain83(s) == Plain83(s)[..8] + Plain83(s)[8..];
      assert ReaderName(s) == ReaderName(s)[..8] + ReaderName(s)[8..];
    }
    if forall i :: |e| <= i < Min(3, |f|) ==> f[i] == SPACE {
      assert Field(f, 3) == Field(e, 3);
    } else {
      var i :| |e| <= i < Min(3, |f|) && f[i] != SPACE;
      assert Field(f, 3)[i] == ToUpper(f[i]) && Field(e, 3)[i] == SPACE;
    }
  }

  /**
   * A name with at most one dot, at position `k`: the characters in front of
   * it, then those behind it, lower-case letters moved from 97..122 to 65..90,
   * and blanks. The reader encodes it alike.
   */
  lemma NameInBytes(s: CString, k: nat)
    requires k <= |s| <= 64 && 46 !in s[..k] && (k < |s| ==> s[k] == 46 && 46 !in s[k + 1..]) && s != [46]
    ensures ReaderName(s) == BuilderName(s)
    ensures forall i {:trigger BuilderName(s)[i]} :: 0 <= i < 11 ==>
              BuilderName(s)[i] ==
              if i < 8 && i < k then (if 97 <= s[i] <= 122 then s[i] - 32 else s[i])
              else if i >= 8 && k + i - 7 < |s| then (if 97 <= s[k + i - 7] <= 122 then s[k + i - 7] - 32 else s[k + i - 7])
              else 32
  {
    OneDot(s, k);
    EncodersAgree(s);
    assert BaseOf(s) == s[..k] && ExtOf(s) == (if k < |s| then s[k + 1..] else []) by {
      if k < |s| {
        SplitAtFirstDot(s, k);
        NoDotsToDrop(s[k + 1..]);
      } else {
        assert s[..k] == s;
        NoDot(s);
      }
    }
    hide BaseOf, ExtOf;
  }

  lemma OneDot(s: seq<Byte>, k: nat)
    requires k <= |s| && DOT !in s[..k] && (k < |s| ==> DOT !in s[k + 1..])
    ensures s != DOTDOT_NAME
  {
    if |s| == 2 {
      if k == 0 { assert s[1..] == [s[1]]; } else { assert s[..k][0] == s[0]; }
    }
  }

  lemma {:induction false} NoDotsToDrop(s: seq<Byte>)
    requires DOT !in s
    ensures WithoutDots(s) == s
  {
    if s != [] {
      NoDotsToDrop(s[..|s| - 1]);
      assert s == s[..|s| - 1] + [s[|s| - 1]];
    }
  }

  /** The links keep their dots in the image, and are eleven blanks to the reader. */
  lemma LinksInBytes()
    ensures BuilderName([46]) == [46, 32, 32, 32, 32, 32, 32, 32, 32, 32, 32]
    ensures BuilderName([46, 46]) == [46, 46, 32, 32, 32, 32, 32, 32, 32, 32, 32]
    ensures ReaderName([46]) == ReaderName([46, 46]) == seq(11, _ => 32)
  {
    var one, two: CString := [46], [46, 46];
    assert one[..1] == one && two[..2] == two;
    SplitAtFirstDot(one, 0);
    SplitAtFirstDot(two, 0);
    assert WithoutDots(two[1..]) == [] && WithoutDots(one[1..]) == [] by {
      assert two[1..] == [46] && one[1..] == [];
      assert WithoutDots([46][..0]) == [];
    }
    hide BaseOf, ExtOf, WithoutDots;
  }

  /** Letter case is lost: names equal up to case are one name to the reader. */
  lemma CaseIsIgnored(s: CString, t: CString)
    requires |s| == |t| && forall i :: 0 <= i < |s| ==> ToUpper(s[i]) == ToUpper(t[i])
    ensures ReaderName(s) == ReaderName(t)
  {
    var n := Min(64, |s|);
    SameUpToCase(s[..n], t[..n]);
  }

  lemma {:induction false} SameUpToCase(s: seq<Byte>, t: seq<Byte>)
    requires |s| == |t| && forall i :: 0 <= i < |s| ==> ToUpper(s[i]) == ToUpper(t[i])
    ensures |BaseOf(s)| == |BaseOf(t)| && |ExtOf(s)| == |ExtOf(t)|
    ensures forall i :: 0 <= i < |BaseOf(s)| ==> ToUpper(BaseOf(s)[i]) == ToUpper(BaseOf(t)[i])
    ensures forall i :: 0 <= i < |ExtOf(s)| ==> ToUpper(ExtOf(s)[i]) == ToUpper(ExtOf(t)[i])
  {
    hide ToUpper;
    if s != [] {
      var p, q := s[..|s| - 1], t[..|t| - 1];
      SameUpToCase(p, q);
      SameDots(p, q);
      SameDots(q, p);
      SameDot(s[|p|], t[|p|]);
    }
  }

  lemma SameDot(c: Byte, d: Byte)
    requires ToUpper(c) == ToUpper(d)
    ensures c == DOT <==> d == DOT
  {
  }

  lemma SameDots(p: seq<Byte>, q: seq<Byte>)
    requires |p| == |q| && forall i :: 0 <= i < |p| ==> ToUpper(p[i]) == ToUpper(q[i])
    ensures DOT in p ==> DOT in q
  {
    if DOT in p {
      var i :| 0 <= i < |p| && p[i] == DOT;
      assert q[i] == DOT;
    }
  }
}
