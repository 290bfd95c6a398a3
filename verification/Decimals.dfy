/** Printing of unsigned numbers: uefi_put_dec and serial_put_dec. */
module Decimals {
  import opened Bytes

  const ZERO_CHAR: Byte := 48

  function Digit(d: nat): (c: Byte)
    requires d < 10
  {
    ZERO_CHAR + d
  }

  function Decimal(n: nat): (s: seq<Byte>)
    ensures |s| > 0
  {
    if n < 10 then [Digit(n)] else Decimal(n / 10) + [Digit(n % 10)]
  }

  /** The number a string of digits denotes. */
  function Value(s: seq<Byte>): (v: int) {
    if s == [] then 0 else 10 * Value(s[..|s| - 1]) + (s[|s| - 1] as int - 48)
  }

  /** The string denotes the number, in digits only, without a leading zero. */
  lemma {:induction false} DecimalDenotes(n: nat)
    ensures Value(Decimal(n)) == n
    ensures forall i :: 0 <= i < |Decimal(n)| ==> 48 <= Decimal(n)[i] <= 57
    ensures n > 0 ==> Decimal(n)[0] != ZERO_CHAR
    ensures n == 0 ==> Decimal(n) == [ZERO_CHAR]
  {
    if n >= 10 {
      DecimalDenotes(n / 10);
      assert Decimal(n)[..|Decimal(n)| - 1] == Decimal(n / 10);
    } else {
      assert Value([]) == 0;
      assert Decimal(n)[..0] == [];
    }
  }

  /** Spelled out: "0", "10" and "4096". */
  lemma SomeNumbers()
    ensures Decimal(0) == [48] && Decimal(10) == [49, 48] && Decimal(4096) == [52, 48, 57, 54]
  {
  }

  /** And the greatest 32-bit number. */
  lemma GreatestNumber()
    ensures Decimal(4294967295) == [52, 50, 57, 52, 57, 54, 55, 50, 57, 53]
  {
    hide Decimal;
    DecimalStep(4);
    DecimalStep(42);
    DecimalStep(429);
    DecimalStep(4294);
    DecimalStep(42949);
    DecimalStep(429496);
    DecimalStep(4294967);
    DecimalStep(42949672);
    DecimalStep(429496729);
    DecimalStep(4294967295);
  }

  lemma {:induction false} DecimalStep(n: nat)
    ensures Decimal(n) == (if n >= 10 then Decimal(n / 10) else []) + [48 + n % 10]
  {
  }

  function Pow10(k: nat): (p: nat)
    ensures p >= 1
  {
    if k == 0 then 1 else 10 * Pow10(k - 1)
  }

  lemma {:induction false} DecimalLength(n: nat, k: nat)
    requires k >= 1 && n < Pow10(k)
    ensures |Decimal(n)| <= k
  {
    if n >= 10 { DecimalLength(n / 10, k - 1); }
  }

  /** A 32-bit number has at most ten digits. */
  lemma {:induction false} TenDigits(n: nat)
    requires n < TWO32
    ensures |Decimal(n)| <= 10
  {
    assert Pow10(5) == 100000;
    assert Pow10(10) == 10000000000;
    DecimalLength(n, 10);
  }

  function Reversed(s: seq<Byte>): (r: seq<Byte>)
    ensures |r| == |s|
    ensures forall i :: 0 <= i < |s| ==> r[i] == s[|s| - 1 - i]
  {
    if s == [] then [] else [s[|s| - 1]] + Reversed(s[..|s| - 1])
  }

  /** The division loop of both printers: the digits, last one first. */
  method StoreDigits(val: nat, buf: array<Byte>) returns (i: nat)
    requires 0 < val && |Decimal(val)| < buf.Length
    modifies buf
    ensures i == |Decimal(val)| && Reversed(buf[..i]) == Decimal(val)
  {
    var v := val;
    i := 0;
    while v > 0
      invariant i + (if v > 0 then |Decimal(v)| else 0) == |Decimal(val)|
      invariant (if v > 0 then Decimal(v) else []) + Reversed(buf[..i]) == Decimal(val)
      decreases v
    {
      ghost var done := buf[..i];
      buf[i] := Digit(v % 10);
      assert buf[..i + 1][..i] == done;
      assert Reversed(buf[..i + 1]) == [Digit(v % 10)] + Reversed(done);
      v := v / 10;
      i := i + 1;
    }
  }

  /** The swap loop of uefi_put_dec. */
  method ReverseInPlace(buf: array<Byte>, n: nat)
    requires n <= buf.Length
    modifies buf
    ensures buf[..n] == Reversed(old(buf[..n]))
  {
    var start, end := 0, n - 1;
    while start < end
      invariant 0 <= start && end == n - 1 - start && start <= end + 2
      invariant forall k :: 0 <= k < start ==> buf[k] == old(buf[n - 1 - k]) && buf[n - 1 - k] == old(buf[k])
      invariant forall k :: start <= k <= end ==> buf[k] == old(buf[k])
    {
      var t := buf[start];
      buf[start] := buf[end];
      start := start + 1;
      buf[end] := t;
      end := end - 1;
    }
  }

  /** serial_put_dec: the characters sent to the port, in order. */
  method SerialPutDec(val: nat) returns (sent: seq<Byte>)
    requires val < TWO32
    ensures sent == Decimal(val)
  {
    if val == 0 {
      return [ZERO_CHAR];
    }
    TenDigits(val);
    var buf := new Byte[12];
    var i := StoreDigits(val, buf);
    sent := [];
    ghost var n := i;
    while i > 0
      invariant 0 <= i <= n
      invariant sent + Reversed(buf[..i]) == Decimal(val)
    {
      i := i - 1;
      assert buf[..i + 1][..i] == buf[..i];
      sent := sent + [buf[i]];
    }
  }
}
