/**
 The chain of `map` calls in scripts/deploy.js:26-35 and test/tests.js:21-30
 that turns the (address, amount) records into hex amounts, hash inputs,
 leaves and hex proofs, one of each per record and in record order.

 The hash function (the keccak256 package) and the Merkle tree (the
 merkletreejs package, built with sorted pairs) are foreign code: they enter
 the model as function parameters about which nothing is assumed.
 */
module LeafPipeline {
  import opened LeafEncoding

  /** `xs.map((x, i) => f(x, i))`: f applied to every element with its
      index, one result per element, in order. */
  function MapWithIndex<A, B>(xs: seq<A>, f: (A, nat) -> B): (r: seq<B>)
    ensures |r| == |xs|
    ensures forall i :: 0 <= i < |xs| ==> r[i] == f(xs[i], i)
  {
    if xs == [] then [] else MapWithIndex(xs[..|xs| - 1], f) + [f(xs[|xs| - 1], |xs| - 1)]
  }

  /** What `concat` appends for `hexAmounts[i]`: the element, or, past the
      end of the array, the value undefined written as text. */
  function ElementText(xs: seq<string>, i: nat): string {
    if i < |xs| then xs[i] else "undefined"
  }

  /** `amounts.map(value => value.toString(16).toUpperCase().padStart(64, 0))` */
  function HexAmounts(amounts: seq<nat>): seq<string> {
    MapWithIndex(amounts, (value: nat, _: nat) => EncodeAmount(value))
  }

  /** `addresses.map((addr, i) => addr.concat(hexAmounts[i]))` */
  function HashInputs(addresses: seq<string>, hexAmounts: seq<string>): seq<string> {
    MapWithIndex(addresses, (addr: string, i: nat) => addr + ElementText(hexAmounts, i))
  }

  /** `hashInput.map(h => keccak256(h))` */
  function Leaves<L>(hashInput: seq<string>, keccak256: string -> L): seq<L> {
    MapWithIndex(hashInput, (h: string, _: nat) => keccak256(h))
  }

  /** `leaves.map((leaf, i) => merkleTree.getHexProof(leaves[i]))`; the
      callback's `leaves[i]` is the element it is called with. */
  function HexProofs<L, P>(leaves: seq<L>, getHexProof: L -> P): seq<P> {
    MapWithIndex(leaves, (leaf: L, _: nat) => getHexProof(leaf))
  }

  /** Everything the scripts compute before deploying. */
  datatype Setup<L, R, P> = Setup(
    hexAmounts: seq<string>,
    hashInput: seq<string>,
    leaves: seq<L>,
    rootHash: R,
    hexProofs: seq<P>)

  /** The whole pipeline. `getRoot(leaves)` and `getHexProof(leaves, leaf)`
      stand for the root and the proof of the tree built over `leaves`. */
  function Build<L, R, P>(
    addresses: seq<string>,
    amounts: seq<nat>,
    keccak256: string -> L,
    getRoot: seq<L> -> R,
    getHexProof: (seq<L>, L) -> P): Setup<L, R, P>
  {
    var hexAmounts := HexAmounts(amounts);
    var hashInput := HashInputs(addresses, hexAmounts);
    var leaves := Leaves(hashInput, keccak256);
    Setup(hexAmounts, hashInput, leaves, getRoot(leaves), HexProofs(leaves, leaf => getHexProof(leaves, leaf)))
  }

  /** One hex amount per amount, and one hash input, leaf and proof per
      address, in the same order: entry i of each is computed from entry i
      of the one before it, and the root from all the leaves. */
  lemma BuildIsIndexAligned<L, R, P>(
    addresses: seq<string>,
    amounts: seq<nat>,
    keccak256: string -> L,
    getRoot: seq<L> -> R,
    getHexProof: (seq<L>, L) -> P)
    ensures var s := Build(addresses, amounts, keccak256, getRoot, getHexProof);
      && |s.hexAmounts| == |amounts|
      && |s.hashInput| == |s.leaves| == |s.hexProofs| == |addresses|
      && s.rootHash == getRoot(s.leaves)
      && (forall i :: 0 <= i < |amounts| ==> s.hexAmounts[i] == EncodeAmount(amounts[i]))
      && (forall i :: 0 <= i < |addresses| ==> s.hashInput[i] == addresses[i] + ElementText(s.hexAmounts, i))
      && (forall i :: 0 <= i < |addresses| ==> s.leaves[i] == keccak256(s.hashInput[i]))
      && (forall i :: 0 <= i < |addresses| ==> s.hexProofs[i] == getHexProof(s.leaves, s.leaves[i]))
  {
  }

  /** Entry i of every output array comes from record i alone: its hash
      input is address i followed by the encoding of amount i, its leaf is
      the hash of that, and its proof is the tree's proof of that leaf. */
  lemma BuildEntryComesFromRecord<L, R, P>(
    addresses: seq<string>,
    amounts: seq<nat>,
    keccak256: string -> L,
    getRoot: seq<L> -> R,
    getHexProof: (seq<L>, L) -> P,
    i: nat)
    requires i < |addresses| && i < |amounts|
    ensures var s := Build(addresses, amounts, keccak256, getRoot, getHexProof);
      && |s.hashInput| == |s.leaves| == |s.hexProofs| == |addresses|
      && s.hashInput[i] == HashInput(addresses[i], amounts[i])
      && s.leaves[i] == keccak256(HashInput(addresses[i], amounts[i]))
      && s.hexProofs[i] == getHexProof(s.leaves, keccak256(HashInput(addresses[i], amounts[i])))
      && s.hashInput[i][..|addresses[i]|] == addresses[i]
      && s.hashInput[i][|addresses[i]|..] == EncodeAmount(amounts[i])
      && (amounts[i] < UINT256_BOUND <==> |s.hashInput[i]| == |addresses[i]| + AMOUNT_HEX_WIDTH)
  {
    BuildIsIndexAligned(addresses, amounts, keccak256, getRoot, getHexProof);
    HashInputLayout(addresses[i], amounts[i]);
  }

  /** With fewer amounts than addresses, the addresses left over are
      concatenated with the text "undefined". */
  lemma BuildMissingAmount<L, R, P>(
    addresses: seq<string>,
    amounts: seq<nat>,
    keccak256: string -> L,
    getRoot: seq<L> -> R,
    getHexProof: (seq<L>, L) -> P,
    i: nat)
    requires |amounts| <= i < |addresses|
    ensures Build(addresses, amounts, keccak256, getRoot, getHexProof).hashInput[i] == addresses[i] + "undefined"
  {
    BuildIsIndexAligned(addresses, amounts, keccak256, getRoot, getHexProof);
  }
}
