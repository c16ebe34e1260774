/**
 Base-16 text: the digits `Number.prototype.toString(16)` writes, reading a
 hex string back as a number, and reading it as bytes, two digits per byte,
 most significant first. Also the powers used to state width bounds.
 */
module Hex {
  import opened JsString

  type Byte = x: int | 0 <= x < 256

  /** b to the k-th power. */
  function Pow(b: nat, k: nat): nat {
    if k == 0 then 1 else b * Pow(b, k - 1)
  }

  lemma {:induction false} PowAdd(b: nat, m: nat, n: nat)
    ensures Pow(b, m + n) == Pow(b, m) * Pow(b, n)
  {
    if n > 0 {
      PowAdd(b, m, n - 1);
      assert Pow(b, m + n) == b * Pow(b, m + n - 1);
    }
  }

  lemma MulAtLeastOne(b: nat, x: nat)
    requires b > 0
    ensures b * x >= x
  {
  }

  lemma {:induction false} PowMonotone(b: nat, k: nat, m: nat)
    requires b > 0 && k <= m
    ensures Pow(b, k) <= Pow(b, m)
  {
    if k < m {
      PowMonotone(b, k, m - 1);
      MulAtLeastOne(b, Pow(b, m - 1));
    }
  }

  /** Raising a power to a power multiplies the exponents. */
  lemma {:induction false} PowPow(b: nat, m: nat, k: nat)
    ensures Pow(Pow(b, m), k) == Pow(b, m * k)
  {
    if k > 0 {
      PowPow(b, m, k - 1);
      PowAdd(b, m, m * (k - 1));
      assert m + m * (k - 1) == m * k;
    }
  }

  predicate IsHexChar(c: char) {
    '0' <= c <= '9' || 'a' <= c <= 'f' || 'A' <= c <= 'F'
  }

  predicate IsLowerHexChar(c: char) {
    '0' <= c <= '9' || 'a' <= c <= 'f'
  }

  predicate IsUpperHexChar(c: char) {
    '0' <= c <= '9' || 'A' <= c <= 'F'
  }

  predicate AllHex(s: string) {
    forall i :: 0 <= i < |s| ==> IsHexChar(s[i])
  }

  /** The value of one hex digit, in either case. */
  function DigitValue(c: char): (v: nat)
    requires IsHexChar(c)
    ensures v < 16
    ensures '0' <= c <= '9' ==> v < 10
  {
    if '0' <= c <= '9' then c as int - '0' as int
    else if 'a' <= c <= 'f' then c as int - 'a' as int + 10
    else c as int - 'A' as int + 10
  }

  /** The digit `toString(16)` writes for d: `0-9`, then `a-f`. */
  function LowerDigit(d: nat): (c: char)
    requires d < 16
    ensures IsLowerHexChar(c) && DigitValue(c) == d
  {
    if d < 10 then ('0' as int + d) as char else ('a' as int + d - 10) as char
  }

  /** The digit for d with `A-F` for the letters. */
  function UpperDigit(d: nat): (c: char)
    requires d < 16
    ensures IsUpperHexChar(c) && DigitValue(c) == d
  {
    if d < 10 then ('0' as int + d) as char else ('A' as int + d - 10) as char
  }

  /** Upper-casing a digit `toString(16)` writes gives the capital digit
      of the same value. */
  lemma UpperOfLowerDigit(d: nat)
    requires d < 16
    ensures UpperChar(LowerDigit(d)) == UpperDigit(d)
  {
  }

  /** Upper-casing keeps a hex digit a hex digit of the same value. */
  lemma UpperCharKeepsDigit(c: char)
    requires IsHexChar(c)
    ensures IsUpperHexChar(UpperChar(c)) && DigitValue(UpperChar(c)) == DigitValue(c)
  {
  }

  /** `n.toString(16)` of a non-negative integer: its base-16 digits, most
      significant first, lower case, `"0"` for zero and no leading zero
      otherwise. */
  function ToString16(n: nat): (s: string)
    ensures |s| >= 1
    ensures forall i :: 0 <= i < |s| ==> IsLowerHexChar(s[i])
    ensures n > 0 ==> s[0] != '0'
    ensures n == 0 ==> s == "0"
    decreases n
  {
    if n < 16 then [LowerDigit(n)] else ToString16(n / 16) + [LowerDigit(n % 16)]
  }

  /** The number of digits `toString(16)` writes is the least k >= 1 with
      n < 16^k (zero is written with one digit, not none). */
  lemma {:induction false} ToString16Length(n: nat)
    ensures n < Pow(16, |ToString16(n)|)
    ensures n >= 16 ==> Pow(16, |ToString16(n)| - 1) <= n
    decreases n
  {
    if n >= 16 {
      var q := n / 16;
      ToString16Length(q);
      var k := |ToString16(q)|;
      assert |ToString16(n)| == k + 1;
      assert n < 16 * (q + 1);
      assert Pow(16, k + 1) == 16 * Pow(16, k);
      if q >= 16 {
        assert Pow(16, k) == 16 * Pow(16, k - 1);
      }
    }
  }

  /** For k >= 1: `toString(16)` writes at most k digits exactly when
      n < 16^k. */
  lemma ToString16FitsIn(n: nat, k: nat)
    requires k >= 1
    ensures |ToString16(n)| <= k <==> n < Pow(16, k)
  {
    ToString16Length(n);
    var len := |ToString16(n)|;
    if len <= k {
      PowMonotone(16, len, k);
    } else {
      assert n >= 16;
      PowMonotone(16, k, len - 1);
    }
  }

  /** Reading a hex string as a base-16 number, most significant digit
      first; either case is accepted. */
  function ParseHex(s: string): nat
    requires AllHex(s)
  {
    if s == [] then 0 else ParseHex(s[..|s| - 1]) * 16 + DigitValue(s[|s| - 1])
  }

  /** Reading back what `toString(16)` wrote gives the number. */
  lemma {:induction false} ParseToString16(n: nat)
    ensures AllHex(ToString16(n)) && ParseHex(ToString16(n)) == n
    decreases n
  {
    var s := ToString16(n);
    if n >= 16 {
      ParseToString16(n / 16);
      assert s[..|s| - 1] == ToString16(n / 16);
    } else {
      assert s[..|s| - 1] == [];
    }
  }

  /** What a hex string denotes does not depend on the case of its letters. */
  lemma {:induction false} ParseToUpperCase(s: string)
    requires AllHex(s)
    ensures AllHex(ToUpperCase(s)) && ParseHex(ToUpperCase(s)) == ParseHex(s)
  {
    var u := ToUpperCase(s);
    forall i | 0 <= i < |s| ensures IsHexChar(u[i]) {
      UpperCharKeepsDigit(s[i]);
    }
    if s != [] {
      ParseToUpperCase(s[..|s| - 1]);
      assert u[..|u| - 1] == ToUpperCase(s[..|s| - 1]);
      UpperCharKeepsDigit(s[|s| - 1]);
    }
  }

  /** A concatenation of hex strings is a hex string. */
  lemma AllHexAppend(a: string, b: string)
    requires AllHex(a) && AllHex(b)
    ensures AllHex(a + b)
  {
    forall i | 0 <= i < |a + b| ensures IsHexChar((a + b)[i]) {
      if i < |a| { assert (a + b)[i] == a[i]; } else { assert (a + b)[i] == b[i - |a|]; }
    }
  }

  /** One more digit on the right multiplies the shifted left part by 16. */
  lemma ShiftStep(pa: nat, p: nat, pb: nat, d: nat)
    ensures (pa * p + pb) * 16 + d == pa * (16 * p) + (pb * 16 + d)
  {
  }

  /** Reading a concatenation: the left part is shifted by one digit
      position per character of the right part. */
  lemma {:induction false} ParseAppend(a: string, b: string)
    requires AllHex(a) && AllHex(b)
    ensures AllHex(a + b) && ParseHex(a + b) == ParseHex(a) * Pow(16, |b|) + ParseHex(b)
  {
    AllHexAppend(a, b);
    if b == [] {
      assert a + b == a;
    } else {
      var b' := b[..|b| - 1];
      ParseAppend(a, b');
      assert (a + b)[..|a + b| - 1] == a + b';
      assert (a + b)[|a + b| - 1] == b[|b| - 1];
      ShiftStep(ParseHex(a), Pow(16, |b'|), ParseHex(b'), DigitValue(b[|b| - 1]));
    }
  }

  /** Leading zeros do not change the value. */
  lemma {:induction false} ParseZeros(z: string)
    requires forall i :: 0 <= i < |z| ==> z[i] == '0'
    ensures AllHex(z) && ParseHex(z) == 0
  {
    if z != [] {
      ParseZeros(z[..|z| - 1]);
    }
  }

  /** Hex text read as bytes, two digits per byte, most significant first. */
  function HexToBytes(s: string): (r: seq<Byte>)
    requires |s| % 2 == 0 && AllHex(s)
    ensures |r| == |s| / 2
  {
    if s == [] then []
    else HexToBytes(s[..|s| - 2]) + [DigitValue(s[|s| - 2]) * 16 + DigitValue(s[|s| - 1])]
  }

  /** Decoding two hex strings of even length one after the other decodes
      their concatenation. */
  lemma {:induction false} HexToBytesAppend(a: string, b: string)
    requires |a| % 2 == 0 && AllHex(a) && |b| % 2 == 0 && AllHex(b)
    ensures AllHex(a + b) && HexToBytes(a + b) == HexToBytes(a) + HexToBytes(b)
    decreases |b|
  {
    AllHexAppend(a, b);
    if b == [] {
      assert a + b == a;
    } else {
      var ab, b' := a + b, b[..|b| - 2];
      assert ab[..|ab| - 2] == a + b';
      assert ab[|ab| - 2] == b[|b| - 2] && ab[|ab| - 1] == b[|b| - 1];
      HexToBytesAppend(a, b');
      assert HexToBytes(b) == HexToBytes(b') + [DigitValue(b[|b| - 2]) * 16 + DigitValue(b[|b| - 1])];
    }
  }
}
