# Airdrop leaf encoding, modelled in Dafny

The repository deploys a token contract whose claims are gated by a Merkle
proof. Its own algorithm is the leaf-encoding pipeline, written out twice
with the same steps: once in `scripts/deploy.js` (lines 26-35, over a literal
list of addresses) and once in `test/tests.js` (lines 21-30, over the test
signers' addresses). The two encoding lines (deploy.js:26-27,
tests.js:21-22) and the tree and root lines (deploy.js:31-32, tests.js:26-27)
are character for character the same. The hashing line differs only in the
callback's parameter name (`addr` at deploy.js:30, `hash` at tests.js:25).
The proof line differs only in its declaration: deploy.js:35 declares
`const hexProofs`, while tests.js:30 assigns an undeclared global
`hexProofs`.
The pipeline rebuilds Solidity's `abi.encodePacked(address, uint256)`
("non-standard packed mode" of the Solidity ABI specification) as hex text:

1. `value.toString(16)` writes each amount in base 16.
2. `.toUpperCase()` upper-cases the digits.
3. `.padStart(64, 0)` left-pads them with `'0'` to 64 characters, which is
   32 bytes.
4. `addr.concat(hexAmounts[i])` appends that to the `0x`-prefixed address.

It then hashes each hash input into a leaf, builds a sorted-pair Merkle tree
over all the leaves (`new MerkleTree`), takes its root (`getRoot`), and asks
the tree for one hex proof per leaf. The encoding, hashing and proof steps
are index-aligned `map`s; the tree and its root are built once from the
whole array of leaves.

The model is pure Dafny, one module per concern:

- `JsString` (`js_string.dfy`): `toUpperCase` and `padStart` with their
  JavaScript semantics. `padStart` never truncates and does nothing for an
  empty fill.
- `Hex` (`hex.dfy`) holds:
  - `toString(16)` over unbounded naturals;
  - reading hex text back as a number (`ParseHex`) or as bytes
    (`HexToBytes`), used as reference definitions;
  - powers.
- `LeafEncoding` (`leaf_encoding.dfy`) holds the amount encoding, the hash
  input, and the packed `address ‖ uint256` byte layout. It proves the
  shape, length, alphabet, round-trip, injectivity and big-endian
  properties.
- `LeafPipeline` (`leaf_pipeline.dfy`) holds the chain of `map` calls, up to
  leaves, root and proofs. keccak256 and the Merkle tree enter only as
  function parameters.
- `ClaimTests` (`claim_tests.dfy`) covers how `test/tests.js` pairs each
  signer's claim with an amount and a proof. It shows which record's
  hash-input string the same steps give for a claim call's caller and
  amount, and, for well-formed addresses, which record's packed bytes.

The steps are the same in both files, so one set of members models both.
The table cites whichever file a property is stated about.

Two things the scripts do that a fixed-width `uint256` encoding would not,
and that the model keeps:

- The scripts validate nothing. No amount is rejected, and an amount of
  2^256 or more is written with all its digits (65 or more), because
  `padStart` does not truncate. Address strings are not checked either.
- `addr.concat(hexAmounts[i])` with no amount at index i appends the text
  `undefined` (`ElementText`).

One observation about the tests, not executed: the test "should prevent
early claimer from claiming with a different users' amount and proof"
(`test/tests.js:72-77`) loops over `j` but never uses it, so it sends record
0's amount and proof four times from signer 4. `amounts[j], hexProofs[j]`
was probably meant. `ForeignClaimMatchesIff` holds for every pair of
records, so it covers both the calls as written (i = 4, j = 0) and the
evidently intended ones (i = 4, j < 4).

## Model

| member | source | states |
|---|---|---|
| `JsString.UpperChar` | scripts/deploy.js:26 | An ASCII lower-case letter becomes its capital, 32 code points lower; every other character is kept; the result is never an ASCII lower-case letter. |
| `JsString.ToUpperCase` | scripts/deploy.js:26 | The length is kept and every character is upper-cased at its position, so no ASCII lower-case letter remains. |
| `JsString.ToUpperCaseIdempotent` | scripts/deploy.js:26 | Upper-casing an already upper-cased string changes nothing. |
| `JsString.RepeatFill` | scripts/deploy.js:26 | The filler `padStart` builds has exactly the missing length, and character i is the fill's character at i modulo the fill's length, so the fill repeats in order and only fill characters appear. |
| `JsString.PadStart` | scripts/deploy.js:26 | The string is returned unchanged (never truncated) when it is already long enough or the fill is empty. Otherwise the result has the target length and ends with the original string; in front of it, position i holds the fill's character at i modulo the fill's length. |
| `Hex.ToString16` | scripts/deploy.js:26 | `toString(16)` writes at least one digit, all in `0-9a-f`. It writes `"0"` for zero and no leading zero otherwise. |
| `Hex.ToString16Length` | scripts/deploy.js:26 | With k the digit count, n < 16^k, and 16^(k-1) <= n when n >= 16. So k is the least k >= 1 with n < 16^k (zero has one digit). |
| `Hex.ToString16FitsIn` | scripts/deploy.js:26 | For k >= 1, `toString(16)` writes at most k digits exactly when n < 16^k. |
| `Hex.ParseToString16` | scripts/deploy.js:26 | Reading the digits of `toString(16)` back in base 16 gives the number. |
| `LeafEncoding.UpperHex` | scripts/deploy.js:26 | `value.toString(16).toUpperCase()`. No contract of its own: `UpperHexDigits` and `UpperHexLastDigit` state its properties. |
| `LeafEncoding.EncodeAmount` | scripts/deploy.js:26 | The whole amount encoding, `padStart(64, 0)` of the upper-cased digits. No contract of its own: `EncodeAmountShape`, `EncodeAmountLength`, `EncodeAmountNoTruncation`, `EncodeAmountAlphabet`, `EncodeAmountRoundTrip`, `EncodeAmountInjective` and `EncodeAmountBigEndian` state its properties. |
| `LeafEncoding.HashInput` | scripts/deploy.js:27 | `addr.concat(hexAmount)`. No contract of its own: `HashInputLayout`, `HashInputInjective`, `HashInputIsPacked` and `HashInputBytesMatchIff` state its properties. |
| `LeafEncoding.UpperHexDigits` | scripts/deploy.js:26 | The upper-cased digits keep their count and are all in `0-9A-F`. They have no leading zero and read back as the amount. |
| `LeafEncoding.EncodeAmountShape` | scripts/deploy.js:26 | With k digits and k <= 64, the encoding is (64 - k) zeros followed by the k upper-case digits, so padding is on the left only. With 64 or more digits it is the digits alone. |
| `LeafEncoding.EncodeAmountLength` | scripts/deploy.js:26 | The length is the larger of 64 and the digit count. It is exactly 64 if and only if the amount is below 2^256. |
| `LeafEncoding.EncodeAmountNoTruncation` | scripts/deploy.js:26 | An amount of 2^256 or more comes out as all its upper-case digits, with no padding and more than 64 characters. |
| `LeafEncoding.EncodeAmountAlphabet` | scripts/deploy.js:26 | Every character of an encoded amount is in `0-9` or `A-F`. |
| `LeafEncoding.EncodeAmountRoundTrip` | scripts/deploy.js:26 | Reading the encoding in base 16 gives the amount back, for every amount. |
| `LeafEncoding.EncodeAmountInjective` | scripts/deploy.js:26 | Two amounts have equal encodings if and only if they are equal. |
| `LeafEncoding.EncodeAmountExample` | scripts/deploy.js:16-26 | The listed amount 1000000 encodes as 59 zeros followed by `F4240`. |
| `LeafEncoding.HexWidthIsUint256` | scripts/deploy.js:25-26 | 16^64 = 2^256, so 64 hex characters are exactly the width of a `uint256`. |
| `LeafEncoding.ToBytesBERoundTrip` | scripts/deploy.js:25 | The w-byte big-endian form of a number below 256^w reads back as that number. |
| `LeafEncoding.EncodeAmountBigEndian` | scripts/deploy.js:25-26 | For an amount below 2^256, the 64 characters read two at a time are its 32-byte big-endian `uint256` form. That form reads back as the amount. |
| `LeafEncoding.PackedAddressAmountLayout` | scripts/deploy.js:25 | `abi.encodePacked(address, uint256)` is the address bytes followed by 32 more bytes, and those 32 bytes read back as the amount. |
| `LeafEncoding.PackedAddressAmountInjective` | scripts/deploy.js:25 | For address byte strings of one length and amounts below 2^256, two packed encodings are equal if and only if the addresses and the amounts are equal. |
| `LeafEncoding.HashInputLayout` | scripts/deploy.js:27 | The hash input starts with the address and ends with the encoded amount. Its length is the address length plus 64 exactly when the amount is below 2^256. |
| `LeafEncoding.HashInputIsPacked` | scripts/deploy.js:25-27 | For a `0x` + 40-hex-digit address and an amount below 2^256, the hash input is 106 characters. The 104 digits after `0x`, read as bytes, are exactly `abi.encodePacked(address, amount)`: 20 bytes, then 32. |
| `LeafEncoding.AddressBytes` | scripts/deploy.js:6-12 | A `0x` + 40-hex-digit address string denotes 20 bytes. |
| `LeafEncoding.HashInputBytes` | scripts/deploy.js:25-27 | The bytes the hash input's digits denote are `abi.encodePacked(address, amount)` of the address' 20 bytes and the amount. |
| `LeafEncoding.HashInputBytesMatchIff` | scripts/deploy.js:25-27 | For well-formed addresses and amounts below 2^256, two hash inputs denote the same bytes if and only if the addresses denote the same 20 bytes and the amounts are equal. |
| `LeafEncoding.HashInputInjective` | test/tests.js:21-22 | For addresses of equal length, two hash inputs are equal if and only if their addresses and their amounts are equal. |
| `LeafPipeline.MapWithIndex` | scripts/deploy.js:27 | `map` gives one result per element, and result i is the callback applied to element i and index i. |
| `LeafPipeline.ElementText` | scripts/deploy.js:27 | What `concat` appends for `hexAmounts[i]`: the element, or the text `undefined` past the end. No contract of its own: `BuildIsIndexAligned` and `BuildMissingAmount` state what it contributes. |
| `LeafPipeline.HexAmounts` | scripts/deploy.js:26 | The `map` over the amounts. No contract of its own: `BuildIsIndexAligned` states its length and entries. |
| `LeafPipeline.HashInputs` | scripts/deploy.js:27 | The `map` over the addresses that appends `hexAmounts[i]`. No contract of its own: `BuildIsIndexAligned`, `BuildEntryComesFromRecord` and `BuildMissingAmount` state its length and entries. |
| `LeafPipeline.Leaves` | scripts/deploy.js:30 | The `map` that hashes every hash input. No contract of its own: `BuildIsIndexAligned` and `BuildEntryComesFromRecord` state its length and entries. |
| `LeafPipeline.HexProofs` | scripts/deploy.js:35 | The `map` that asks the tree for each leaf's proof. No contract of its own: `BuildIsIndexAligned` and `BuildEntryComesFromRecord` state its length and entries. |
| `LeafPipeline.Build` | scripts/deploy.js:26-35 | The whole pipeline, with the tree's root and proofs taken over the full array of leaves. No contract of its own: `BuildIsIndexAligned`, `BuildEntryComesFromRecord` and `BuildMissingAmount` state its properties. |
| `LeafPipeline.BuildIsIndexAligned` | scripts/deploy.js:26-35 | `hexAmounts` has one entry per amount. `hashInput`, `leaves` and `hexProofs` have one entry per address. Entry i of each comes from entry i of the array before it, and the root comes from the leaves. |
| `LeafPipeline.BuildEntryComesFromRecord` | test/tests.js:21-30 | For record i, `hashInput[i]` is address i followed by the encoding of amount i. `leaves[i]` is its hash and `hexProofs[i]` is the tree's proof of that leaf. The hash input starts with the address, ends with the encoding, and is 64 characters longer than the address exactly when the amount is below 2^256. |
| `LeafPipeline.BuildMissingAmount` | scripts/deploy.js:27 | An address with no amount at its index gets the text `undefined` appended. |
| `ClaimTests.ClaimReproducesRecordIff` | test/tests.js:21-22 | Take a caller whose address has the length of record j's. The hash input rebuilt from that caller and a given amount equals `hashInput[j]` if and only if the caller is address j and the amount is amount j. |
| `ClaimTests.ClaimBytesMatchIff` | test/tests.js:21-22 | For well-formed addresses and amounts below 2^256, the bytes packed from a caller and an amount are record j's packed bytes if and only if the caller's address denotes record j's 20 bytes and the amount is amount j. |
| `ClaimTests.OwnClaim` | test/tests.js:79-84 | Signer i's call `claim(amounts[i], hexProofs[i])` (also lines 44, 88 and 100). No contract of its own: `OwnClaimMatchesRecord` states its properties. |
| `ClaimTests.ForeignClaim` | test/tests.js:72-77 | Signer i's call with record j's amount and proof; the test sends it with i = 4 and j = 0 on every pass. No contract of its own: `ForeignClaimMatchesIff` states its properties. |
| `ClaimTests.OwnClaimMatchesRecord` | test/tests.js:79-84 | Signer i's call `claim(amounts[i], hexProofs[i])` gives the string `hashInput[i]` from its caller and amount, and carries `hexProofs[i]`. That proof is the tree's proof of the leaf hashed from the call's own caller and amount. |
| `ClaimTests.ForeignClaimMatchesIff` | test/tests.js:72-77 | Let signer i send record j's amount and proof, with the two addresses of equal length. The call matches record j if and only if the two addresses are equal. The test sends record 0's amount and proof from signer 4 every time. |

## Left out

- Merkle tree construction, root and proof generation (`new MerkleTree(..., {sortPairs: true})`, `getRoot`, `getHexProof`). These live in the merkletreejs package, which is not part of this model. They are the parameters `getRoot` and `getHexProof`, about which nothing is assumed. Proof verification is left out for the same reason.
- keccak256 is a foreign hash library and is the parameter `keccak256`. How that package turns a `0x`-prefixed hex string into bytes is not part of this model. `HashInputIsPacked` states which bytes the hex text denotes.
- Contract deployment and every contract call (`deploy`, `addEarlyClaimer`, `claim`, `setClaimActive`, `removeLaunchTransferPause`, `transfer`, `burn`) are left out, with the contract's state machine. The contract source is not in the repository.
- The balance checks with `amounts[i] / 1000` and `10 ** DECIMALS` are left out: they are JavaScript floating-point arithmetic about contract behaviour.
- Amounts are unbounded naturals. A natural stands for the exact integer value of the JavaScript `Number`. The model takes `toString(16)` to write that value's digits exactly, as V8, the engine Node.js runs on, does for integer-valued Numbers; the ECMAScript standard leaves radixes other than 10 to the implementation. Under that reading, the statements about amounts of 2^256 or more hold for every such `Number`. What is not modelled is how a literal or a computation rounds to a `Number` above 2^53, and `toString(16)` of a non-integer. The amounts the scripts list are integers below 2^53.
- `toUpperCase` is modelled for ASCII letters only. Full Unicode case mapping is not modelled, because only hex digits pass through it.
- `padStart`'s conversion of its arguments is fixed: the target is a natural, and the fill is the string `"0"` that the number `0` converts to.
- `console.log`, `process.exit`, the commented-out proof printing, the `"0x" + rootHash` deployment argument, and `signers.map(signer => signer.address)` are I/O or glue. Signers are identified with their addresses.
- ClaimTests.MatchesRecord, ClaimTests.ClaimReproducesRecordIff, ClaimTests.OwnClaimMatchesRecord, ClaimTests.ForeignClaimMatchesIff: a claim's match is modelled as equality of the JavaScript hash-input strings. Two address strings that differ only in the case of their hex letters are different strings but the same bytes, so string equality is stronger than what the contract compares. `ClaimBytesMatchIff` states the match on the packed bytes instead, for well-formed addresses and amounts below 2^256.
- ClaimTests.ForeignClaimMatchesIff: states only that the rebuilt hash input differs, not that the contract reverts with "Invalid proof". The hash and the contract's proof check are foreign.
