/**
 How test/tests.js uses the pipeline's output: every claim call sends an
 amount and a hex proof from the caller's account, and the contract packs
 the caller's own address with the amount sent. These lemmas say which
 record's hash-input string the same steps give for such a call, and, for
 well-formed addresses, which record's packed bytes.

 The contract itself and the keccak256 hash are not part of this model;
 distinct hash inputs are where the model stops.
 */
module ClaimTests {
  import opened LeafEncoding
  import opened LeafPipeline

  /** `tokenContract.connect(caller).claim(amount, proof)`. */
  datatype ClaimCall<P> = ClaimCall(caller: string, amount: nat, proof: P)

  /** Signer i claims its own amount with its own proof
      (test/tests.js:44, 81, 100). */
  function OwnClaim<L, R, P>(s: Setup<L, R, P>, addresses: seq<string>, amounts: seq<nat>, i: nat): ClaimCall<P>
    requires i < |addresses| && i < |amounts| && i < |s.hexProofs|
  {
    ClaimCall(addresses[i], amounts[i], s.hexProofs[i])
  }

  /** Signer i claims with record j's amount and proof. The loop at
      test/tests.js:74-76 sends `ForeignClaim(s, addresses, amounts, 4, 0)`
      on every pass: its counter j is never used. */
  function ForeignClaim<L, R, P>(s: Setup<L, R, P>, addresses: seq<string>, amounts: seq<nat>, i: nat, j: nat): ClaimCall<P>
    requires i < |addresses| && j < |amounts| && j < |s.hexProofs|
  {
    ClaimCall(addresses[i], amounts[j], s.hexProofs[j])
  }

  /** The hash-input string built from the call's caller and amount is
      record j's, and the call carries record j's proof. */
  ghost predicate MatchesRecord<L, R, P>(call: ClaimCall<P>, s: Setup<L, R, P>, j: nat)
    requires j < |s.hashInput| && j < |s.hexProofs|
  {
    HashInput(call.caller, call.amount) == s.hashInput[j] && call.proof == s.hexProofs[j]
  }

  /** A caller whose address has the length of record j's reproduces record
      j's hash input exactly when it is record j's address and sends record
      j's amount. */
  lemma ClaimReproducesRecordIff<L, R, P>(
    addresses: seq<string>,
    amounts: seq<nat>,
    keccak256: string -> L,
    getRoot: seq<L> -> R,
    getHexProof: (seq<L>, L) -> P,
    caller: string,
    amount: nat,
    j: nat)
    requires j < |addresses| && j < |amounts| && |caller| == |addresses[j]|
    ensures var s := Build(addresses, amounts, keccak256, getRoot, getHexProof);
      j < |s.hashInput| &&
      (HashInput(caller, amount) == s.hashInput[j] <==> caller == addresses[j] && amount == amounts[j])
  {
    BuildEntryComesFromRecord(addresses, amounts, keccak256, getRoot, getHexProof, j);
    HashInputInjective(caller, amount, addresses[j], amounts[j]);
  }

  /** Every signer's own claim matches its own record, and the proof it
      sends is the tree's proof of the leaf hashed from its own caller and
      amount. */
  lemma OwnClaimMatchesRecord<L, R, P>(
    addresses: seq<string>,
    amounts: seq<nat>,
    keccak256: string -> L,
    getRoot: seq<L> -> R,
    getHexProof: (seq<L>, L) -> P,
    i: nat)
    requires i < |addresses| && i < |amounts|
    ensures var s := Build(addresses, amounts, keccak256, getRoot, getHexProof);
      i < |s.hashInput| && i < |s.hexProofs| &&
      MatchesRecord(OwnClaim(s, addresses, amounts, i), s, i)
    ensures var s := Build(addresses, amounts, keccak256, getRoot, getHexProof);
      var call := OwnClaim(s, addresses, amounts, i);
      call.proof == getHexProof(s.leaves, keccak256(HashInput(call.caller, call.amount)))
  {
    BuildEntryComesFromRecord(addresses, amounts, keccak256, getRoot, getHexProof, i);
  }

  /** A signer that sends another record's amount and proof matches that
      record only if it has the same address: with distinct signer
      addresses of one length, the rebuilt hash input is not the one the
      proof was made for, which the test expects to fail as an invalid
      proof. */
  lemma ForeignClaimMatchesIff<L, R, P>(
    addresses: seq<string>,
    amounts: seq<nat>,
    keccak256: string -> L,
    getRoot: seq<L> -> R,
    getHexProof: (seq<L>, L) -> P,
    i: nat,
    j: nat)
    requires i < |addresses| && j < |addresses| && j < |amounts|
    requires |addresses[i]| == |addresses[j]|
    ensures var s := Build(addresses, amounts, keccak256, getRoot, getHexProof);
      j < |s.hashInput| && j < |s.hexProofs| &&
      (MatchesRecord(ForeignClaim(s, addresses, amounts, i, j), s, j) <==> addresses[i] == addresses[j])
  {
    ClaimReproducesRecordIff(addresses, amounts, keccak256, getRoot, getHexProof, addresses[i], amounts[j], j);
  }

  /** The same question asked of bytes: for well-formed addresses and
      amounts below 2^256, the bytes rebuilt from the caller and the amount
      are the packed bytes of record j exactly when the caller's address
      denotes record j's 20 bytes and the amount is record j's. */
  lemma ClaimBytesMatchIff<L, R, P>(
    addresses: seq<string>,
    amounts: seq<nat>,
    keccak256: string -> L,
    getRoot: seq<L> -> R,
    getHexProof: (seq<L>, L) -> P,
    caller: string,
    amount: nat,
    j: nat)
    requires j < |addresses| && j < |amounts|
    requires IsAddress(caller) && IsAddress(addresses[j])
    requires amount < UINT256_BOUND && amounts[j] < UINT256_BOUND
    ensures var s := Build(addresses, amounts, keccak256, getRoot, getHexProof);
      j < |s.hashInput| && s.hashInput[j] == HashInput(addresses[j], amounts[j])
    ensures (HashInputBytes(caller, amount) == HashInputBytes(addresses[j], amounts[j]))
              <==> (AddressBytes(caller) == AddressBytes(addresses[j]) && amount == amounts[j])
  {
    BuildEntryComesFromRecord(addresses, amounts, keccak256, getRoot, getHexProof, j);
    HashInputBytesMatchIff(caller, amount, addresses[j], amounts[j]);
  }
}
