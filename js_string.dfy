/**
 The two JavaScript String methods the leaf encoding relies on:
 `String.prototype.toUpperCase` and `String.prototype.padStart`, written
 over Dafny strings (sequences of characters).
 */
module JsString {

  predicate IsAsciiLower(c: char) {
    'a' <= c <= 'z'
  }

  /** Upper-case form of one character: an ASCII lower-case letter becomes
      the matching capital, every other character is left alone. */
  function UpperChar(c: char): (u: char)
    ensures !IsAsciiLower(u)
    ensures IsAsciiLower(c) ==> 'A' <= u <= 'Z' && u as int + 32 == c as int
    ensures !IsAsciiLower(c) ==> u == c
  {
    if IsAsciiLower(c) then (c as int - 32) as char else c
  }

  /** `s.toUpperCase()`: maps every character, in place, keeping the length. */
  function ToUpperCase(s: string): (r: string)
    ensures |r| == |s|
    ensures forall i :: 0 <= i < |s| ==> r[i] == UpperChar(s[i])
  {
    if s == [] then [] else ToUpperCase(s[..|s| - 1]) + [UpperChar(s[|s| - 1])]
  }

  /** Upper-casing twice is upper-casing once. */
  lemma ToUpperCaseIdempotent(s: string)
    ensures ToUpperCase(ToUpperCase(s)) == ToUpperCase(s)
  {
    var u := ToUpperCase(s);
    assert forall i :: 0 <= i < |u| ==> ToUpperCase(u)[i] == u[i];
  }

  /** Upper-casing distributes over concatenation. */
  lemma ToUpperCaseAppend(a: string, b: string)
    ensures ToUpperCase(a + b) == ToUpperCase(a) + ToUpperCase(b)
  {
    var l, r := ToUpperCase(a + b), ToUpperCase(a) + ToUpperCase(b);
    assert |l| == |r|;
    forall i | 0 <= i < |l| ensures l[i] == r[i] {
      if i < |a| {
        assert (a + b)[i] == a[i];
      } else {
        assert (a + b)[i] == b[i - |a|];
      }
    }
  }

  /** A multiple of k strictly between -k and k is zero. */
  lemma MultipleInsidePeriod(d: int, k: int)
    requires k > 0 && -k < d * k < k
    ensures d == 0
  {
  }

  /** Stepping back one whole period keeps the position inside the period. */
  lemma ModPeriod(i: int, k: int)
    requires 0 < k <= i
    ensures (i - k) % k == i % k
  {
    var q, m := (i - k) / k, (i - k) % k;
    var q', m' := i / k, i % k;
    assert i - k == q * k + m;
    assert i == q' * k + m';
    assert (q + 1 - q') * k == m' - m;
    MultipleInsidePeriod(q + 1 - q', k);
  }

  /** A position inside the first period is its own remainder. */
  lemma ModInsidePeriod(i: int, k: int)
    requires 0 <= i < k
    ensures i % k == i
  {
    MultipleInsidePeriod(i / k, k);
  }

  /** One position of `fill + rest` past the first period. */
  lemma RepeatIndexAfterPeriod(fill: string, rest: string, i: int)
    requires fill != [] && |fill| <= i < |fill| + |rest|
    requires rest[i - |fill|] == fill[(i - |fill|) % |fill|]
    ensures (fill + rest)[i] == fill[i % |fill|]
  {
    var r, k := fill + rest, |fill|;
    assert r[i] == rest[i - k];
    ModPeriod(i, k);
  }

  /** One position of `fill + rest` inside the first period. */
  lemma RepeatIndexInPeriod(fill: string, rest: string, i: int)
    requires 0 <= i < |fill|
    ensures (fill + rest)[i] == fill[i % |fill|]
  {
    var r := fill + rest;
    assert r[i] == fill[i];
    ModInsidePeriod(i, |fill|);
  }

  /** One period of the fill in front of a repetition of the fill is again
      a repetition of the fill. */
  lemma RepeatOnePeriod(fill: string, rest: string)
    requires fill != []
    requires forall i :: 0 <= i < |rest| ==> rest[i] == fill[i % |fill|]
    ensures forall i :: 0 <= i < |fill + rest| ==> (fill + rest)[i] == fill[i % |fill|]
  {
    forall i | 0 <= i < |fill + rest| ensures (fill + rest)[i] == fill[i % |fill|] {
      if i < |fill| {
        RepeatIndexInPeriod(fill, rest, i);
      } else {
        RepeatIndexAfterPeriod(fill, rest, i);
      }
    }
  }

  /** The filler `padStart` builds: the fill string repeated and cut off
      after exactly `n` characters, so character i is the fill's character
      at i modulo the fill's length. It holds no character that is not in
      the fill string. */
  function RepeatFill(fill: string, n: nat): (r: string)
    requires fill != []
    ensures |r| == n
    ensures forall i :: 0 <= i < n ==> r[i] == fill[i % |fill|]
    ensures forall i :: 0 <= i < n ==> r[i] in fill
    decreases n
  {
    if n <= |fill| then
      assert forall i :: 0 <= i < n ==> fill[..n][i] == fill[i % |fill|] by {
        forall i | 0 <= i < n ensures fill[..n][i] == fill[i % |fill|] {
          ModInsidePeriod(i, |fill|);
        }
      }
      fill[..n]
    else
      var rest := RepeatFill(fill, n - |fill|);
      RepeatOnePeriod(fill, rest);
      fill + rest
  }

  /** `s.padStart(maxLength, fill)`: when `s` is shorter than `maxLength` and
      the fill is not empty, fill characters go in FRONT of `s` until the
      length is `maxLength`, repeating the fill in order; otherwise `s` comes
      back unchanged. The string is never truncated. */
  function PadStart(s: string, maxLength: nat, fill: string): (r: string)
    ensures fill == [] || maxLength <= |s| ==> r == s
    ensures |r| == if fill == [] || maxLength <= |s| then |s| else maxLength
    ensures |s| <= |r| && r[|r| - |s|..] == s
    ensures forall i :: 0 <= i < |r| - |s| ==> r[i] in fill
    ensures forall i :: 0 <= i < |r| - |s| ==> r[i] == fill[i % |fill|]
  {
    if fill == [] || maxLength <= |s| then s
    else RepeatFill(fill, maxLength - |s|) + s
  }
}
