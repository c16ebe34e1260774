/**
 The leaf encoding of scripts/deploy.js and test/tests.js, which rebuilds
 Solidity's `abi.encodePacked(address, uint256)` as hex text: each amount is
 written with `toString(16)`, upper-cased, left-padded with '0' to 64
 characters (32 bytes) and appended to the `0x`-prefixed address string.
 */
module LeafEncoding {
  import opened JsString
  import opened Hex

  /** Hex characters of a `uint256`: 32 bytes, two digits each. */
  const AMOUNT_HEX_WIDTH: nat := 64

  /** The fill the scripts pass to `padStart` is the number 0, which the
      method converts to the string "0". */
  const PAD_FILL: string := "0"

  /** One more than the largest `uint256`. */
  const UINT256_BOUND: nat := Pow(2, 256)

  /** `value.toString(16).toUpperCase()`. */
  function UpperHex(n: nat): string {
    ToUpperCase(ToString16(n))
  }

  /** `value.toString(16).toUpperCase().padStart(64, 0)`: the encoding of
      one amount (scripts/deploy.js:26, test/tests.js:21). */
  function EncodeAmount(n: nat): string {
    PadStart(UpperHex(n), AMOUNT_HEX_WIDTH, PAD_FILL)
  }

  /** `addr.concat(hexAmounts[i])`: the text that is hashed into a leaf
      (scripts/deploy.js:27, test/tests.js:22). */
  function HashInput(address: string, amount: nat): string {
    address + EncodeAmount(amount)
  }

  /** k zero digits. */
  function Zeros(k: nat): (z: string)
    ensures |z| == k && forall i :: 0 <= i < k ==> z[i] == '0'
  {
    seq(k, _ => '0')
  }

  // ---------------------------------------------------------------------
  // The digits before padding
  // ---------------------------------------------------------------------

  /** The upper-cased digits: as many as `toString(16)` writes, all in
      `0-9A-F`, no leading zero, and they read back as n. */
  lemma UpperHexDigits(n: nat)
    ensures |UpperHex(n)| == |ToString16(n)|
    ensures forall i :: 0 <= i < |UpperHex(n)| ==> IsUpperHexChar(UpperHex(n)[i])
    ensures n > 0 ==> UpperHex(n)[0] != '0'
    ensures AllHex(UpperHex(n)) && ParseHex(UpperHex(n)) == n
  {
    var s := ToString16(n);
    forall i | 0 <= i < |s| ensures IsUpperHexChar(UpperHex(n)[i]) {
      UpperCharKeepsDigit(s[i]);
    }
    ParseToString16(n);
    ParseToUpperCase(s);
  }

  /** Peeling off the last digit of the upper-cased digits. */
  lemma UpperHexLastDigit(n: nat)
    requires n >= 16
    ensures UpperHex(n) == UpperHex(n / 16) + [UpperDigit(n % 16)]
  {
    ToUpperCaseAppend(ToString16(n / 16), [LowerDigit(n % 16)]);
    UpperOfLowerDigit(n % 16);
  }

  // ---------------------------------------------------------------------
  // Properties of the encoded amount
  // ---------------------------------------------------------------------

  /** padStart with "0" on a string no longer than the width puts zeros in
      front of it, and only in front. */
  lemma PadStartWithZeros(u: string, width: nat)
    requires |u| <= width
    ensures PadStart(u, width, PAD_FILL) == Zeros(width - |u|) + u
  {
    var e, z := PadStart(u, width, PAD_FILL), Zeros(width - |u|);
    assert |e| == |z + u|;
    forall i | 0 <= i < |e| ensures e[i] == (z + u)[i] {
      if i < |z| {
        assert e[i] in PAD_FILL;
      } else {
        assert e[i] == e[|z|..][i - |z|];
      }
    }
  }

  /** The encoding is (64 - k) zeros followed by the k upper-case digits,
      so padding is on the left only; with 64 or more digits it is the
      digits alone. */
  lemma EncodeAmountShape(n: nat)
    ensures |ToString16(n)| <= AMOUNT_HEX_WIDTH ==>
              EncodeAmount(n) == Zeros(AMOUNT_HEX_WIDTH - |ToString16(n)|) + UpperHex(n)
    ensures |ToString16(n)| >= AMOUNT_HEX_WIDTH ==> EncodeAmount(n) == UpperHex(n)
  {
    UpperHexDigits(n);
    if |UpperHex(n)| <= AMOUNT_HEX_WIDTH {
      PadStartWithZeros(UpperHex(n), AMOUNT_HEX_WIDTH);
    }
  }

  /** 16^64 is 2^256, so "at most 64 hex digits" means "fits a uint256". */
  lemma HexWidthIsUint256()
    ensures Pow(16, AMOUNT_HEX_WIDTH) == UINT256_BOUND
  {
    PowPow(2, 4, 64);
    assert Pow(2, 4) == 16;
  }

  /** The encoding is exactly 64 characters long if and only if the amount
      fits in a uint256; in general its length is that of the digits or 64,
      whichever is larger. */
  lemma EncodeAmountLength(n: nat)
    ensures |EncodeAmount(n)| == if |ToString16(n)| <= AMOUNT_HEX_WIDTH then AMOUNT_HEX_WIDTH else |ToString16(n)|
    ensures |EncodeAmount(n)| == AMOUNT_HEX_WIDTH <==> n < UINT256_BOUND
  {
    UpperHexDigits(n);
    ToString16FitsIn(n, AMOUNT_HEX_WIDTH);
    HexWidthIsUint256();
  }

  /** padStart never truncates: an amount of 2^256 or more is written with
      all of its digits, more than 64 of them, and no padding. */
  lemma EncodeAmountNoTruncation(n: nat)
    requires n >= UINT256_BOUND
    ensures EncodeAmount(n) == UpperHex(n)
    ensures |EncodeAmount(n)| > AMOUNT_HEX_WIDTH
  {
    EncodeAmountLength(n);
    EncodeAmountShape(n);
  }

  /** After toUpperCase only `0-9` and `A-F` appear in an encoded amount. */
  lemma EncodeAmountAlphabet(n: nat)
    ensures forall i :: 0 <= i < |EncodeAmount(n)| ==> IsUpperHexChar(EncodeAmount(n)[i])
  {
    UpperHexDigits(n);
    var u := UpperHex(n);
    var e := PadStart(u, AMOUNT_HEX_WIDTH, PAD_FILL);
    assert e == EncodeAmount(n);
    forall i | 0 <= i < |e| ensures IsUpperHexChar(e[i]) {
      if i < |e| - |u| {
        assert e[i] in PAD_FILL;
      } else {
        assert e[i] == e[|e| - |u|..][i - (|e| - |u|)];
      }
    }
  }

  /** Round trip: reading the encoding in base 16 gives the amount back, for
      every amount (the leading zeros count for nothing). */
  lemma EncodeAmountRoundTrip(n: nat)
    ensures AllHex(EncodeAmount(n)) && ParseHex(EncodeAmount(n)) == n
  {
    UpperHexDigits(n);
    EncodeAmountShape(n);
    var u := UpperHex(n);
    if |u| < AMOUNT_HEX_WIDTH {
      var z := Zeros(AMOUNT_HEX_WIDTH - |u|);
      ParseZeros(z);
      ParseAppend(z, u);
    }
  }

  /** Distinct amounts give distinct encodings. */
  lemma EncodeAmountInjective(m: nat, n: nat)
    ensures EncodeAmount(m) == EncodeAmount(n) <==> m == n
  {
    EncodeAmountRoundTrip(m);
    EncodeAmountRoundTrip(n);
  }

  /** The amount 1000000 of both scripts is 0xF4240: 59 zeros, then
      `F4240`. */
  lemma EncodeAmountExample()
    ensures EncodeAmount(1000000) == Zeros(59) + "F4240"
  {
    assert ToString16(15) == "f";
    assert ToString16(244) == "f4";
    assert ToString16(3906) == "f42";
    assert ToString16(62500) == "f424";
    assert ToString16(1000000) == "f4240";
    assert ToUpperCase("f4240") == "F4240";
    EncodeAmountShape(1000000);
  }

  // ---------------------------------------------------------------------
  // Reading the encoding as big-endian bytes
  // ---------------------------------------------------------------------

  /** The w-byte big-endian form of n (its low 8w bits), most significant
      byte first. */
  function ToBytesBE(n: nat, w: nat): (r: seq<Byte>)
    ensures |r| == w
  {
    if w == 0 then [] else ToBytesBE(n / 256, w - 1) + [n % 256]
  }

  /** The unsigned number a big-endian byte string denotes. */
  function BEValue(bytes: seq<Byte>): nat {
    if bytes == [] then 0 else BEValue(bytes[..|bytes| - 1]) * 256 + bytes[|bytes| - 1]
  }

  /** The big-endian form of a number below 256^w reads back as that number. */
  lemma {:induction false} ToBytesBERoundTrip(n: nat, w: nat)
    requires n < Pow(256, w)
    ensures BEValue(ToBytesBE(n, w)) == n
  {
    if w > 0 {
      assert n / 256 < Pow(256, w - 1);
      ToBytesBERoundTrip(n / 256, w - 1);
      var r := ToBytesBE(n, w);
      assert r[..|r| - 1] == ToBytesBE(n / 256, w - 1);
    } else {
      assert n == 0;
    }
  }

  /** The k low hex digits of n, upper case, most significant first. */
  function FixedHex(n: nat, k: nat): (r: string)
    ensures |r| == k
    ensures forall i :: 0 <= i < k ==> IsUpperHexChar(r[i])
  {
    if k == 0 then [] else FixedHex(n / 16, k - 1) + [UpperDigit(n % 16)]
  }

  lemma {:induction false} FixedHexOfZero(k: nat)
    ensures FixedHex(0, k) == Zeros(k)
  {
    if k > 0 {
      FixedHexOfZero(k - 1);
    }
  }

  /** A one-digit n padded to k characters is its k low digits. */
  lemma PaddedOneDigit(n: nat, k: nat)
    requires n < 16 && k >= 1
    ensures Zeros(k - 1) + UpperHex(n) == FixedHex(n, k)
  {
    FixedHexOfZero(k - 1);
    UpperOfLowerDigit(n);
    assert UpperHex(n) == [UpperDigit(n)];
    assert n / 16 == 0 && n % 16 == n;
    assert FixedHex(n, k) == FixedHex(0, k - 1) + [UpperDigit(n)];
  }

  /** The step of the induction below: one more digit on the right of both
      sides keeps them equal. */
  lemma PaddedNextDigit(n: nat, k: nat, z: string)
    requires n >= 16 && k >= 2
    requires z + UpperHex(n / 16) == FixedHex(n / 16, k - 1)
    ensures z + UpperHex(n) == FixedHex(n, k)
  {
    UpperHexLastDigit(n);
    assert z + UpperHex(n) == (z + UpperHex(n / 16)) + [UpperDigit(n % 16)];
  }

  /** For an n of at most k digits, padding its digits with zeros to k
      characters writes its k low digits. */
  lemma {:induction false} PaddedIsFixedHex(n: nat, k: nat)
    requires k >= 1 && n < Pow(16, k)
    ensures |ToString16(n)| <= k
    ensures Zeros(k - |ToString16(n)|) + UpperHex(n) == FixedHex(n, k)
  {
    ToString16FitsIn(n, k);
    if n < 16 {
      PaddedOneDigit(n, k);
    } else {
      assert Pow(16, k) == 16 * Pow(16, k - 1);
      assert n / 16 < Pow(16, k - 1);
      PaddedIsFixedHex(n / 16, k - 1);
      assert |ToString16(n)| == |ToString16(n / 16)| + 1;
      PaddedNextDigit(n, k, Zeros(k - |ToString16(n)|));
    }
  }

  /** Two hex digits make one byte: the low byte of n is formed from its two
      low hex digits, and what is left is n / 256. */
  lemma ByteOfTwoDigits(n: nat)
    ensures (n / 16) / 16 == n / 256
    ensures (n / 16) % 16 * 16 + n % 16 == n % 256
  {
    var q, r := n / 16, n % 16;
    var q1, r1 := q / 16, q % 16;
    assert n == 256 * q1 + (16 * r1 + r);
  }

  /** 2w low hex digits, read two at a time, are the w-byte big-endian form. */
  lemma {:induction false} FixedHexBytes(n: nat, w: nat)
    ensures AllHex(FixedHex(n, 2 * w))
    ensures HexToBytes(FixedHex(n, 2 * w)) == ToBytesBE(n, w)
  {
    var s := FixedHex(n, 2 * w);
    if w > 0 {
      FixedHexBytes(n / 256, w - 1);
      ByteOfTwoDigits(n);
      assert s == FixedHex(n / 16, 2 * w - 1) + [UpperDigit(n % 16)];
      assert FixedHex(n / 16, 2 * w - 1) == FixedHex(n / 16 / 16, 2 * (w - 1)) + [UpperDigit(n / 16 % 16)];
      assert s[..|s| - 2] == FixedHex(n / 256, 2 * (w - 1));
    }
  }

  /** The 64 encoded characters of an amount below 2^256, read as 32 bytes,
      are its big-endian `uint256` encoding, which reads back as the amount. */
  lemma EncodeAmountBigEndian(n: nat)
    requires n < UINT256_BOUND
    ensures |EncodeAmount(n)| == AMOUNT_HEX_WIDTH && AllHex(EncodeAmount(n))
    ensures HexToBytes(EncodeAmount(n)) == ToBytesBE(n, 32)
    ensures BEValue(HexToBytes(EncodeAmount(n))) == n
  {
    EncodeAmountLength(n);
    EncodeAmountShape(n);
    HexWidthIsUint256();
    PaddedIsFixedHex(n, AMOUNT_HEX_WIDTH);
    FixedHexBytes(n, 32);
    PowPow(2, 8, 32);
    assert Pow(2, 8) == 256;
    ToBytesBERoundTrip(n, 32);
  }

  // ---------------------------------------------------------------------
  // The hash input: address followed by amount
  // ---------------------------------------------------------------------

  /** An address string as the scripts hold them: `0x` and 40 hex digits
      of either case. */
  predicate IsAddress(a: string) {
    |a| == 42 && a[..2] == "0x" && AllHex(a[2..])
  }

  /** `abi.encodePacked(address, uint256)`: the address' bytes followed by
      the amount as 32 big-endian bytes, with no padding in between. */
  function PackedAddressAmount(addressBytes: seq<Byte>, amount: nat): seq<Byte> {
    addressBytes + ToBytesBE(amount, 32)
  }

  /** The packed encoding starts with the address bytes, has 32 bytes more,
      and for an amount below 2^256 its last 32 bytes read back as that
      amount. */
  lemma PackedAddressAmountLayout(addressBytes: seq<Byte>, amount: nat)
    requires amount < UINT256_BOUND
    ensures var r := PackedAddressAmount(addressBytes, amount);
      |r| == |addressBytes| + 32 && r[..|addressBytes|] == addressBytes &&
      BEValue(r[|addressBytes|..]) == amount
  {
    var r := PackedAddressAmount(addressBytes, amount);
    assert r[|addressBytes|..] == ToBytesBE(amount, 32);
    PowPow(2, 8, 32);
    assert Pow(2, 8) == 256;
    ToBytesBERoundTrip(amount, 32);
  }

  /** For address byte strings of one length and amounts below 2^256, the
      packed encoding determines the pair. */
  lemma PackedAddressAmountInjective(a1: seq<Byte>, n1: nat, a2: seq<Byte>, n2: nat)
    requires |a1| == |a2| && n1 < UINT256_BOUND && n2 < UINT256_BOUND
    ensures PackedAddressAmount(a1, n1) == PackedAddressAmount(a2, n2) <==> a1 == a2 && n1 == n2
  {
    PackedAddressAmountLayout(a1, n1);
    PackedAddressAmountLayout(a2, n2);
  }

  /** The hash input starts with the address and ends with the encoded
      amount; for an amount below 2^256 it is 64 characters longer than the
      address. */
  lemma HashInputLayout(address: string, amount: nat)
    ensures HashInput(address, amount)[..|address|] == address
    ensures HashInput(address, amount)[|address|..] == EncodeAmount(amount)
    ensures amount < UINT256_BOUND <==> |HashInput(address, amount)| == |address| + AMOUNT_HEX_WIDTH
  {
    EncodeAmountLength(amount);
  }

  /** With addresses of equal length, the hash input determines the pair:
      different (address, amount) pairs give different hash inputs. */
  lemma HashInputInjective(a1: string, n1: nat, a2: string, n2: nat)
    requires |a1| == |a2|
    ensures HashInput(a1, n1) == HashInput(a2, n2) <==> a1 == a2 && n1 == n2
  {
    var h1, h2 := HashInput(a1, n1), HashInput(a2, n2);
    if h1 == h2 {
      assert a1 == h1[..|a1|] && a2 == h2[..|a2|];
      assert EncodeAmount(n1) == h1[|a1|..] && EncodeAmount(n2) == h2[|a2|..];
      EncodeAmountInjective(n1, n2);
    }
  }

  /** An address string followed by 64 hex digits that read as the
      big-endian form of an amount: `0x`, then 104 digits whose bytes are
      the address bytes packed with the amount. */
  lemma AddressThenAmountDigits(address: string, e: string, amount: nat)
    requires IsAddress(address) && |e| == AMOUNT_HEX_WIDTH && AllHex(e)
    requires HexToBytes(e) == ToBytesBE(amount, 32)
    ensures |address + e| == 106 && (address + e)[..2] == "0x"
    ensures AllHex((address + e)[2..])
    ensures |HexToBytes(address[2..])| == 20
    ensures HexToBytes((address + e)[2..]) == PackedAddressAmount(HexToBytes(address[2..]), amount)
  {
    var digits := address[2..];
    assert (address + e)[..2] == address[..2];
    assert (address + e)[2..] == digits + e;
    HexToBytesAppend(digits, e);
  }

  /** For a well-formed address and an amount below 2^256, the hash input is
      `0x` followed by 104 hex digits, and those digits read as bytes are
      exactly `abi.encodePacked(address, amount)`, 20 address bytes and 32
      amount bytes. */
  lemma HashInputIsPacked(address: string, amount: nat)
    requires IsAddress(address) && amount < UINT256_BOUND
    ensures |HashInput(address, amount)| == 106 && HashInput(address, amount)[..2] == "0x"
    ensures AllHex(HashInput(address, amount)[2..])
    ensures |HexToBytes(address[2..])| == 20
    ensures HexToBytes(HashInput(address, amount)[2..])
              == PackedAddressAmount(HexToBytes(address[2..]), amount)
  {
    EncodeAmountBigEndian(amount);
    AddressThenAmountDigits(address, EncodeAmount(amount), amount);
  }

  /** The 20 bytes a well-formed address string denotes. */
  function AddressBytes(a: string): (r: seq<Byte>)
    requires IsAddress(a)
    ensures |r| == 20
  {
    HexToBytes(a[2..])
  }

  /** The bytes the hash input denotes after its `0x`: for a well-formed
      address and an amount below 2^256, `abi.encodePacked(address, amount)`. */
  function HashInputBytes(a: string, n: nat): (r: seq<Byte>)
    requires IsAddress(a) && n < UINT256_BOUND
    ensures r == PackedAddressAmount(AddressBytes(a), n)
  {
    HashInputIsPacked(a, n);
    HexToBytes(HashInput(a, n)[2..])
  }

  /** Read as bytes, two hash inputs of well-formed addresses and amounts
      below 2^256 agree exactly when the addresses denote the same 20 bytes
      and the amounts are equal. Unlike the strings, the bytes do not see
      the case of the address' hex letters. */
  lemma HashInputBytesMatchIff(a1: string, n1: nat, a2: string, n2: nat)
    requires IsAddress(a1) && IsAddress(a2) && n1 < UINT256_BOUND && n2 < UINT256_BOUND
    ensures HashInputBytes(a1, n1) == HashInputBytes(a2, n2) <==> AddressBytes(a1) == AddressBytes(a2) && n1 == n2
  {
    PackedAddressAmountInjective(AddressBytes(a1), n1, AddressBytes(a2), n2);
  }
}
