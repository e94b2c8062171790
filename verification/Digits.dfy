/** Numbers as strings of digits. */
module Digits {
  import opened Bytes

  predicate IsDigit(c: byte, base: int) {
    48 <= c <= 57 || (base == 16 && (65 <= c <= 70 || 97 <= c <= 102))
  }

  function DigitValue(c: byte): (v: int)
    requires IsDigit(c, 16)
    ensures 0 <= v < 16 && (c <= 57 ==> v < 10)
  {
    if c <= 57 then c - 48 else if c <= 70 then c - 65 + 10 else c - 97 + 10
  }

  /** How many digits the string starts with. */
  function Run(s: bytes, base: int): (n: nat)
    ensures n <= |s| && (forall i :: 0 <= i < n ==> IsDigit(s[i], base)) && (n < |s| ==> !IsDigit(s[n], base))
  {
    if s == [] || !IsDigit(s[0], base) then 0 else 1 + Run(s[1..], base)
  }

  /** The number a string of digits denotes. */
  function Number(s: bytes, base: int): (v: nat)
    requires base > 0 && forall i :: 0 <= i < |s| ==> IsDigit(s[i], base)
  {
    if s == [] then 0
    else
      assert IsDigit(s[|s| - 1], base);
      base * Number(s[..|s| - 1], base) + DigitValue(s[|s| - 1])
  }

  lemma {:induction false} NumberNone(base: int)
    requires base > 0
    ensures Number([], base) == 0
  {
  }

  lemma {:induction false} RunUpTo(s: bytes, n: nat, base: int)
    requires n <= |s| && (forall i :: 0 <= i < n ==> IsDigit(s[i], base)) && (n < |s| ==> !IsDigit(s[n], base))
    ensures Run(s, base) == n
  {
    if n > 0 {
      assert IsDigit(s[0], base);
      RunUpTo(s[1..], n - 1, base);
    }
  }

  // ---------------------------------------------------------------- printing

  /** `%d` without a sign. */
  function Decimal(n: nat): (s: bytes)
    ensures s != [] && (forall i :: 0 <= i < |s| ==> 48 <= s[i] <= 57)
  {
    if n < 10 then [48 + n] else Decimal(n / 10) + [48 + n % 10]
  }

  /** Only zero starts with a zero. */
  lemma {:induction false} DecimalLead(n: nat)
    ensures Decimal(n)[0] == 48 <==> n == 0
    ensures n == 0 ==> Decimal(n) == [48]
  {
    if n >= 10 {
      DecimalLead(n / 10);
    }
  }

  lemma {:induction false} DecimalReads(n: nat)
    ensures Number(Decimal(n), 10) == n
  {
    var s := Decimal(n);
    if n < 10 {
      assert s[..0] == [];
    } else {
      DecimalReads(n / 10);
      assert s[..|s| - 1] == Decimal(n / 10);
    }
  }

  /** The digits of a number end where something else begins. */
  lemma {:induction false} DecimalRun(n: nat, rest: bytes)
    requires rest != [] ==> !IsDigit(rest[0], 10)
    ensures Run(Decimal(n) + rest, 10) == |Decimal(n)| && (Decimal(n) + rest)[..|Decimal(n)|] == Decimal(n)
    ensures (Decimal(n) + rest)[|Decimal(n)|..] == rest
  {
    var s := Decimal(n) + rest;
    assert forall i :: 0 <= i < |Decimal(n)| ==> s[i] == Decimal(n)[i];
    RunUpTo(s, |Decimal(n)|, 10);
  }

  function HexDigit(v: int): (c: byte)
    requires 0 <= v < 16
  {
    if v < 10 then 48 + v else 97 + v - 10
  }

  lemma {:induction false} HexBack(v: int)
    requires 0 <= v < 16
    ensures IsDigit(HexDigit(v), 16) && DigitValue(HexDigit(v)) == v
  {
  }

  // ---------------------------------------------------------------- prefixes

  predicate StartsWith(s: bytes, prefix: bytes) {
    |prefix| <= |s| && s[..|prefix|] == prefix
  }

  lemma {:induction false} StartsWithIndex(s: bytes, name: bytes)
    ensures StartsWith(s, name) <==> |name| <= |s| && forall i :: 0 <= i < |name| ==> s[i] == name[i]
  {
    if |name| <= |s| {
      assert forall i :: 0 <= i < |name| ==> s[..|name|][i] == s[i];
    }
  }
}
