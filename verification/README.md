# Verified model of the PriorSeal evidence core

PriorSeal lets someone decide from data alone whether evidence about an agent-executed transaction
holds. This project models the code that makes those decisions and proves what they mean:

- the canonical JSON text under every hash, base58, and the three Solana message versions, with the
  parser that shows how much of a message its bytes determine;
- the transparency log, on both sides: the issuer that appends entries and keeps only completed
  subtrees, and the verifier that checks Merkle inclusion proofs and legacy hash chains;
- the witness quorum and the verdicts a receipt may carry in its two versions;
- the wallet-guarded action state machine, over every run;
- the real-world-asset evaluator: its generated number pattern, consensus price, verdict and window;
- the release lineage walk, double-settlement detection, and the floor a swap-risk report puts under
  the minimum output.

Code that changes things step by step is modelled by methods with loops, or by a class where an
object keeps state (`TransparencyLog.AuthorizationLog`); each method is proved equal to, or to
decide, a specification, and the results below are about those specifications. Each specification is
also stated on the fields of its inputs alone, without its helper predicates: in `CanonicalText`,
`SolanaWire`, `WalletEvents` and the modules named `...Fields`. `dafny verify dfyconfig.toml` checks
everything.

## Findings

Places where the code does something other than its documentation or a reader would expect. Each is
modelled as it is, with the exact condition under which the expected property holds.

- Solana normalisation bounds the readonly counts of a header only from above. A negative count is stored
  modulo 256, so every accepted message shares its bytes with one that has a negative count
  (`SolanaCollisions.NegativeCountCollides`). With non-negative counts the bytes determine the message
  (`SolanaCollisions.EncodingInjective`), but not always by a parser's reading: a legacy message with 128 to
  255 signatures is accepted, its signature count is stored as it is, and its first byte reads as a version
  byte; a count of 256, the most there can be, is stored as zero (`SolanaCollisions.SampleAccepted`). The
  parser recovers a message exactly when its header fits (`SolanaMessage.BytesDetermineMessage`).
- A v2 receipt compares the nonce of an intent without one with zero; the v3 compliance assessment
  compares it with the printed absence. So v2 can be COMPLETED where v3 is not assessable, for every intent
  without a nonce that an execution can complete, and for no other (`ReceiptVerdicts.VersionsAgree`).
- A Solana intent may come under an authorizer that is not a Solana key. The two executor checks then differ
  in the case of letters, and a NON_COMPLIANT assessment can name the executor
  (`ReceiptVerdicts.NonCompliantReasons`); whenever the executor holds a letter, some execution does it
  (`ReceiptVerdicts.ExecutorNamedExactly`).
- An action whose authorization is accepted outside its window is UNKNOWN without a submission. Its
  summary says that it can be observed and does not flag it as terminal, but no event is ever accepted
  (`WalletGuard.StuckExactly`, `WalletGuard.UnknownCanBeStuck`). A confirmed observation without a usable
  receipt id can no longer be verified (`WalletGuard.VerifiableExactly`), and runs reach one
  (`WalletGuard.ConfirmedCanBeLost`).
- An ALLOW of the real-world-asset evaluator does not always last until its `validUntil`: a price that
  is in order but for being retrieved later joins the consensus inside the window. The verdict then falls to
  BLOCK exactly when the prices disagree (`RwaWindow.AllowStaysExactly`), and it does on some input at any
  time (`RwaSamples.AllowCanFall`); with nothing pending the whole decision stays
  (`RwaGuarantees.AllowStandsExactly`).
- The two truncating divisions of a swap-risk report lose up to one basis point each, so the floor is
  (9999 - D)(9999 - S), which is tight at every D below 9999 (`SwapRisk.FloorIsTight`). The floor
  (10000 - d)(10000 - s) at the reported values has an exact condition (`SwapRisk.ReportedFloorExactly`).
- From a deviation limit of 9999 basis points on, a policy guarantees nothing but a positive minimum
  (`SwapRisk.LeastMinimum`); a reported deviation of 10000 or more is always a gain
  (`SwapRisk.LargeDeviationIsGain`).
- The replay checks the call again that validation has checked; its refusal code for it never occurs
  (`SwapRisk.ReplayedExactly`).
- The lineage walk guards against cycles; on objects under their own hash it can never meet one
  (`ReleaseLineage.NoCycle`).

## Modelling choices

- SHA-256 and keccak are free constructors, one for each kind of hashed document; the leaf and node
  hashes of the tree are two of them, as they are domain-separated in the code. Signature checks are
  Booleans or a total predicate.
- Numbers are mathematical integers; the code's safe-integer, range and width checks are written out.
  Finite numbers that are no integers are not part of this model.
- `2 ** Math.floor(Math.log2(n))` is the exact largest power of two at most `n`.
- Characters are Unicode scalar values. Object keys are compared by UTF-16 code units, as JavaScript
  does: characters outside the basic plane come before U+E000 to U+FFFF.
- Checks of field lists, schema names and label formats are Boolean fields (`wellFormed`, `shapeValid`).
- Lower-casing is ASCII. On the values it decides about, which are hexadecimal or compared with
  hexadecimal, this is what JavaScript's conversion does.
- Where the code throws, the model returns None or a failure; messages are not modelled.
- Decimal strings that passed the uint256 pattern are numbers in `RwaEvaluator` and `SwapRisk`;
  `RwaPattern` and `Decimals` prove that the two determine each other.

## Model

| member | source | states |
|---|---|---|
| `CanonicalJson.SucceedsExactly` | sdk/src/verifier-core.ts:16-26 | printing succeeds exactly when nothing in the value, at any depth, is undefined or a non-finite number and no object has a forbidden key |
| `CanonicalJson.Determined` | sdk/src/verifier-core.ts:16-26 | the text of a value is self-delimiting: followed by whatever may follow a value, it determines the meaning and the remainder |
| `CanonicalJson.SameText` | sdk/src/verifier-core.ts:16-26 | values that are equal up to member order print the same text |
| `CanonicalJson.TextIsMeaning` | sdk/src/verifier-core.ts:16-26 | two values print the same text exactly when they are equal up to member order |
| `JsStrings.AtMostIsOrder` | sdk/src/verifier-core.ts:21-21 | the UTF-16 order of keys is total, transitive and antisymmetric, so sorting keys has one result |
| `JsStrings.QuotedSelfDelimiting` | sdk/src/verifier-core.ts:19-24 | a quoted string and what follows it determine each other, with escapes |
| `JsStrings.LessIsUnits` | sdk/src/verifier-core.ts:22-22 | one key comes before another exactly when its UTF-16 code units are a proper prefix of the other's, or its unit is smaller where the two first differ |
| `JsStrings.EscapesExactly` | sdk/src/verifier-core.ts:19-24 | which characters a literal escapes, and how each is written |
| `CanonicalText.WellFormedExactly` | sdk/src/verifier-core.ts:16-26 | the values the statements are about: no object has a key twice, at any depth |
| `CanonicalText.ObjectPrinted` | sdk/src/verifier-core.ts:21-25 | an object prints all its members, each as quoted key, colon and value, with keys strictly ascending by UTF-16 code units, between braces |
| `CanonicalText.ArrayPrinted` | sdk/src/verifier-core.ts:20-20 | an array prints the texts of its items, in their order, between brackets |
| `CanonicalText.PartsJoined` | sdk/src/verifier-core.ts:20-25 | one comma stands between two parts and nowhere else |
| `CanonicalText.TextsPrinted` | sdk/src/verifier-core.ts:19-19 | a string prints as its characters, each escaped, between quotes |
| `CanonicalText.NumbersPrinted` | sdk/src/verifier-core.ts:19-19 | an integer prints as its canonical decimal, after a dash when it is negative |
| `CanonicalText.OthersPrinted` | sdk/src/verifier-core.ts:17-19 | null and the Booleans print as themselves; undefined and non-finite numbers are refused |
| `Decimals.CanonicalExactly` | sdk/src/solana-transaction.ts:169-169 | the canonical decimals are one digit or more, with no zero in front of another digit |
| `Decimals.ReadDigitByDigit` | sdk/src/solana-transaction.ts:83-83 | a decimal is read from the left, each digit after ten times what stands before it |
| `CanonicalText.KeyRefusedExactly` | sdk/src/verifier-core.ts:22-23 | an object with one permitted member is refused exactly when its key is one of the three names |
| `MerkleTree.InclusionExact` | sdk/src/verifier-core.ts:596-616 | climbing a path with the sides of a position reaches the tree root exactly for the entry at that position and its audit path |
| `MerkleTree.PathSidesBound` | sdk/src/verifier-core.ts:596-608 | a path has at most ceil(log2 n) sides |
| `MerkleTree.PathSidesInjective` | sdk/src/verifier-core.ts:596-608 | different positions have different side lists |
| `MerkleTree.RootCommits` | src/domain/merkle-log.mts:9-23 | equal roots of trees of one size come from equal entries |
| `MerkleTree.RootSplits` | src/domain/merkle-log.mts:9-23 | a leaf hashes its entry; a full left subtree and anything not longer to the right of it make the root in this order |
| `MerkleTree.LeftSizeExactly` | src/domain/merkle-log.mts:15-20 | the left subtree has the largest power of two below the size |
| `MerkleTree.ClimbSteps` | sdk/src/verifier-core.ts:609-614 | a left sibling is hashed before the running hash, a right one after it |
| `MerkleTree.FiveEntries` | src/domain/merkle-log.mts:9-23 | the tree of five entries, written out |
| `Transparency.ExpectedSides` | sdk/src/verifier-core.ts:599-608 | the side-deriving loop terminates and computes the sides of the sequence number in the tree of that size |
| `Transparency.CheckProof` | sdk/src/verifier-core.ts:609-616 | the proof loop accepts exactly the well-formed proofs whose sides are the expected ones and whose climb gives the root |
| `Transparency.VerifyMerkleTransparency` | sdk/src/verifier-core.ts:592-620 | the Merkle check accepts exactly when the checkpoint, the recomputed entry hash, the proof, the anchor and the signature hold, as the next rows spell out |
| `Transparency.CheckpointOnFields` | sdk/src/verifier-core.ts:577-596 | a checkpoint fits an acceptance exactly when it is well formed, of the same issuer and key, made no earlier than the acceptance at a positive safe time, of a safe size and with a hexadecimal head |
| `Transparency.RootAnchorOnFields` | sdk/src/verifier-core.ts:617-633 | an anchor of a v2 checkpoint: well formed, with its root, its head, its size and a safe time no later than the execution |
| `Transparency.ChainAnchorOnFields` | sdk/src/verifier-core.ts:588-633 | an anchor of a v1 checkpoint: well formed, without a root, with its head, its size and a safe time no later than the execution |
| `Transparency.MerkleOnFields` | sdk/src/verifier-core.ts:592-620 | a v2 receipt is accepted exactly when it is signed, its size covers the sequence number, the acceptance hashes to its own entry hash, every step is well formed, the sides are those of the position and the climb ends at the root |
| `Transparency.MerkleProofExact` | sdk/src/verifier-core.ts:596-616 | under a root of a list of entries, exactly the audit path of entry number `sequence` is accepted, and only for that entry |
| `Transparency.MerkleProofNamesPosition` | sdk/src/verifier-core.ts:596-616 | one proof under one root and size fits one position and one entry only |
| `Transparency.VerifyHashChain` | sdk/src/verifier-core.ts:573-590 | the chain loop accepts exactly the linked, self-consistent chains from the acceptance to the checkpoint, as the next rows spell out |
| `Transparency.EntryOnFields` | sdk/src/verifier-core.ts:582-583 | a chain entry holds exactly when its fields are in their ranges and its hash is that of the four others |
| `Transparency.ChainOnFields` | sdk/src/verifier-core.ts:573-590 | a chain is accepted exactly when it is signed, starts with the acceptance, ends with the head at the size of the checkpoint, and every entry holds and follows the one before it |
| `Transparency.HashChainsCommit` | sdk/src/verifier-core.ts:573-590 | accepted chains with one head have one size, length size - first + 1, the shorter is a suffix of the longer, and they agree on every shared sequence number |
| `MerkleLog.CreateProofCorrect` | src/domain/merkle-log.mts:47-71 | from an exact index of completed subtrees, the proof has the root and the audit path of the log prefix, as if all entries were scanned |
| `MerkleLog.RequiredNodesSuffice` | src/domain/merkle-log.mts:31-45 | the nodes listed as required are all a proof reads |
| `MerkleLog.RangeHashCorrect` | src/domain/merkle-log.mts:55-59 | the hash of a range of the log, assembled from completed subtrees, is the root of its entries |
| `MerkleLog.MerkleAppendNodes` | src/domain/merkle-log.mts:102-114 | appending emits exactly the subtrees the new entry completes, with their roots, and never fails on an exact index |
| `MerkleLog.AppendKeepsIndexExact` | src/domain/merkle-log.mts:102-114 | adding those nodes keeps the index exact for the longer log and replaces no earlier node by another value |
| `MerkleLog.AppendToIndex` | src/infrastructure/persistence/memory-store.mts:34-39 | one append takes an exact index to the exact index of the longer log and keeps every stored node |
| `TransparencyLog.AuthorizationLog.constructor` | src/infrastructure/persistence/memory-store.mts:34-39 | the empty log is valid |
| `TransparencyLog.AuthorizationLog.AppendAuthorizationLog` | src/infrastructure/persistence/memory-store.mts:190-190 | appends one chained entry, or returns the existing one unchanged for a known authorization; history, lookup and index stay exact and no stored subtree changes |
| `TransparencyLog.InvariantOnFields` | src/infrastructure/persistence/memory-store.mts:190-190 | in a valid log sequence numbers have no gap, every entry carries its own hash and that of the one before it, and every authorization is logged once and found by its hash |
| `TransparencyLog.AuthorizationLog.GetAuthorizationMerkleSnapshot` | src/infrastructure/persistence/memory-store.mts:192-199 | gives the root and audit path of any historical size, as a scan of the log would; both failures are characterised |
| `TransparencyEvidence.MerkleEvidenceExact` | src/domain/transparency.mts:18-25 | against a checkpoint that roots the log, the verifier accepts exactly the log's own entry with the proof the issuer hands out |
| `TransparencyEvidence.ChainEvidenceExact` | src/domain/transparency.mts:27-45 | against a checkpoint over the log, the verifier accepts exactly the chain the issuer hands out for the logged entry |
| `Base58.DecodeBase58Bytes` | sdk/src/solana-transaction.ts:125-139 | decodes exactly the alphabet strings, to the base-256 digits of their value after one zero for each leading 1 |
| `Base58.DecodeBase58Length` | sdk/src/solana-transaction.ts:216-228 | returns the length of the decoded bytes, or -1 outside the alphabet |
| `Base58.EncodedDecoded` | sdk/src/solana-transaction.ts:125-139 | encoding undoes decoding |
| `Base58.DecodedEncoded` | sdk/src/solana-transaction.ts:125-139 | decoding undoes encoding, for every byte string |
| `Base58.DecodedInjective` | sdk/src/solana-transaction.ts:125-139 | different alphabet strings decode to different bytes, leading 1s included |
| `Base58.AlphabetInOrder` | sdk/src/solana-transaction.ts:126-126 | the digits are the positions in the 58 characters of the alphabet, and no other character has one |
| `SolanaWire.Base58Example` | sdk/src/solana-transaction.ts:125-139 | "112g" is the three bytes 0, 0 and 97 |
| `SolanaMessage.NormalizeMessage` | sdk/src/solana-transaction.ts:162-211 | returns exactly on the accepted messages |
| `SolanaMessage.CheckLookups` | sdk/src/solana-transaction.ts:184-191 | accepts exactly valid lookups and counts the addresses they resolve to |
| `SolanaWire.AcceptedOnFields` | sdk/src/solana-transaction.ts:162-211 | a message is accepted exactly when it meets the demands of its version on network, limits, keys, counts, lookups, resolved addresses and instructions, with their numbers |
| `SolanaWire.ConfigOnFields` | sdk/src/solana-transaction.ts:167-169 | the limits are there and in their widths, and a fee is the canonical decimal of a 64-bit number |
| `SolanaWire.HeaderOnFields` | sdk/src/solana-transaction.ts:181-183 | the three counts, with upper bounds only for the readonly ones |
| `SolanaWire.IndexesOnFields` | sdk/src/solana-transaction.ts:229-232 | lookup indexes are at most 256 different byte values |
| `SolanaWire.InstructionOnFields` | sdk/src/solana-transaction.ts:201-204 | an instruction names accounts there are, at most 256 or in a v1 message 255, with at most 8192 characters of the alphabet |
| `SolanaWire.KeyAndLookupOnFields` | sdk/src/solana-transaction.ts:213-215 | a key is 32 to 44 characters of the alphabet for 32 bytes; a lookup is a key and two lists of indexes |
| `SolanaMessage.ShortVector` | sdk/src/solana-transaction.ts:141-148 | emits the compact length, and fails exactly outside 0 to 65535 |
| `SolanaMessage.ShortVecParsed` | sdk/src/solana-transaction.ts:141-148 | a compact length is read back with exactly the rest left |
| `SolanaWire.ShortVecExactly` | sdk/src/solana-transaction.ts:141-148 | one, two and three bytes of a compact length, seven bits each, the lowest first |
| `SolanaMessage.Uint32LittleEndian` | sdk/src/solana-transaction.ts:150-153 | four little-endian bytes, and a failure exactly outside 32 bits |
| `SolanaMessage.Uint64LittleEndian` | sdk/src/solana-transaction.ts:155-160 | eight little-endian bytes, and a failure exactly outside 64 bits |
| `SolanaMessage.LittleEndianParsed` | sdk/src/solana-transaction.ts:150-160 | a little-endian number is read back with exactly the rest left |
| `SolanaMessage.EncodeConfig` | sdk/src/solana-transaction.ts:78-90 | the mask and the values of the configured limits of a v1 message |
| `SolanaWire.MaskExactly` | sdk/src/solana-transaction.ts:79-90 | the bits 0x1 and 0x2 are set exactly with a fee, 0x4 and 0x8 with the two required limits, 0x10 exactly with a heap size, and no other bit is |
| `SolanaWire.LimitsLaidOut` | sdk/src/solana-transaction.ts:77-90 | the values follow in the order fee, compute units, loaded accounts, heap size, in eight and four bytes |
| `SolanaMessage.ConfigParsed` | sdk/src/solana-transaction.ts:78-90 | under its mask, the configured limits are read back |
| `SolanaMessage.EncodeSolanaTransactionMessageBytes` | sdk/src/solana-transaction.ts:67-123 | succeeds exactly on accepted messages and emits the specified bytes, in all three versions |
| `SolanaWire.LegacyBytes` | sdk/src/solana-transaction.ts:104-116 | the bytes of a legacy message with any two keys and any two instructions |
| `SolanaWire.V0Bytes` | sdk/src/solana-transaction.ts:104-122 | the bytes of a v0 message with any two keys, two instructions and a lookup, after the version byte 0x80 |
| `SolanaWire.V1Bytes` | sdk/src/solana-transaction.ts:76-102 | the bytes of a v1 message are the version byte 0x81, the header and the sections |
| `SolanaWire.V1Sections` | sdk/src/solana-transaction.ts:76-102 | the sections of a v1 message with any two keys and any two instructions: four mask bytes, blockhash, the two counts, keys, limits, instruction headers, payloads |
| `SolanaWire.HeaderLaidOut` | sdk/src/solana-transaction.ts:92-97 | the four bytes of an instruction header of a v1 message |
| `SolanaWire.InstructionLaidOut` | sdk/src/solana-transaction.ts:113-116 | program, accounts and data of an instruction, the two lists after their lengths |
| `SolanaWire.LookupLaidOut` | sdk/src/solana-transaction.ts:117-121 | key, writable and readonly indexes of a lookup, the two lists after their lengths |
| `SolanaMessage.CompactParsed` | sdk/src/solana-transaction.ts:104-122 | the parser undoes the legacy and v0 encoding, up to the header's wrapping and resolved lookups |
| `SolanaMessage.FixedParsed` | sdk/src/solana-transaction.ts:76-102 | the parser undoes the v1 encoding, up to the header's wrapping |
| `SolanaMessage.BytesDetermineMessage` | sdk/src/solana-transaction.ts:71-123 | parsing the bytes of an accepted message gives it back, up to resolved lookups, exactly when its header fits |
| `SolanaCollisions.EncodingInjective` | sdk/src/solana-transaction.ts:71-123 | accepted messages with non-negative readonly counts and equal bytes are equal up to resolved lookups, across versions and for any number of signatures |
| `SolanaCollisions.LegacyIsNotVersioned` | sdk/src/solana-transaction.ts:104-112 | a legacy message never has the bytes of a versioned one with non-negative readonly counts, not even where 128 or 129 signatures read like a version byte |
| `SolanaCollisions.NegativeCountCollides` | sdk/src/solana-transaction.ts:181-183 | every accepted message has the same bytes as a different accepted message with a negative readonly count |
| `SolanaCollisions.SampleAccepted` | sdk/src/solana-transaction.ts:162-211 | in each version every number of signatures up to the limit on keys is accepted; the parser reads the message back unless it is a legacy one with 128 or more |
| `WitnessQuorum.VerifyWitnessEvidence` | sdk/src/verifier-core.ts:635-661 | accepts exactly when the policy and request hold and the number of policy witnesses with a qualifying attestation reaches the threshold |
| `WitnessQuorum.CollectWitnesses` | sdk/src/verifier-core.ts:650-660 | the loop collects exactly the policy witnesses with a qualifying attestation |
| `WitnessQuorum.OrderAndDuplicatesDoNotMatter` | sdk/src/verifier-core.ts:651-661 | acceptance depends only on which attestations there are, and more of them never reject |
| `WitnessQuorum.QuorumsOverlap` | sdk/src/verifier-core.ts:639-661 | two accepted evidences under a policy of n witnesses share at least 2 * threshold - n of them |
| `WitnessQuorum.ConflictNeedsEquivocation` | sdk/src/verifier-core.ts:639-661 | accepting two different requests takes that many witnesses who signed for both |
| `WitnessFields.PolicyOnFields` | sdk/src/verifier-core.ts:636-645 | a policy holds exactly when it is the one the evidence names by hash, asks for two witnesses or more and no more than it has, and no two of them share an identifier or a key |
| `WitnessFields.RequestOnFields` | sdk/src/verifier-core.ts:646-649 | a request holds exactly when it names the authorization by identifier, hash and intent, with its acceptance and expiry, inside its life |
| `WitnessFields.QualifiesOnFields` | sdk/src/verifier-core.ts:650-658 | an attestation qualifies exactly when it repeats the request under the witness's own identifier, key and algorithm, is observed between the skewed request and both expiry and execution, and verifies |
| `WitnessFields.SkewExactly` | sdk/src/verifier-core.ts:640-640 | the skew is the one of the policy, or 60 seconds |
| `WitnessFields.NormalizedExactly` | sdk/src/verifier-core.ts:644-644 | the hashed policy lists the witnesses as they are, with their keys trimmed |
| `WitnessFields.AcceptedExactly` | sdk/src/verifier-core.ts:635-661 | evidence is accepted exactly when policy and request hold and the number of different policy witnesses with an attestation that counts is at least the threshold |
| `WitnessFields.AttestingExactly` | sdk/src/verifier-core.ts:652-659 | the witnesses counted are exactly those of the policy with such an attestation |
| `ReceiptVerdicts.BindingFor` | sdk/src/verifier-core.ts:456-499 | computes the reasons of all checks, in order and without repetition; the rows of `ReceiptFields` say what each check asks |
| `ReceiptVerdicts.BindingMeaning` | sdk/src/verifier-core.ts:456-499 | the codes name exactly the checks that fail, each once; bound means that none does |
| `ReceiptFields.BoundExactly` | sdk/src/verifier-core.ts:456-499 | an execution is bound exactly when it agrees with its authorization field by field, as its profile asks |
| `ReceiptFields.ChainCodes` | sdk/src/verifier-core.ts:465-467 | CHAIN_MISMATCH, CHAINREF_MISMATCH and ACTION_MISMATCH, each exactly under its condition on the fields |
| `ReceiptFields.PartyCodes` | sdk/src/verifier-core.ts:468-493 | SENDER_MISMATCH and EXECUTOR_MISMATCH, with case only for Solana intents |
| `ReceiptFields.NonceCodes` | sdk/src/verifier-core.ts:472-472 | NONCE_MISMATCH: the nonces differ as texts, an absent one of the intent read as zero |
| `ReceiptFields.TransferCodes` | sdk/src/verifier-core.ts:469-470 | RECIPIENT_MISMATCH and ASSET_MISMATCH, only for profiles that do not commit to the whole call |
| `ReceiptFields.AmountCodes` | sdk/src/verifier-core.ts:471-471 | AMOUNT_MISMATCH: the amounts differ as texts, only for those profiles |
| `ReceiptFields.AmbiguityCodes` | sdk/src/verifier-core.ts:492-492 | AMBIGUOUS_TRANSFER: more than one transfer without a unique match, only for those profiles |
| `ReceiptFields.CallCodes` | sdk/src/verifier-core.ts:473-482 | CALL_TARGET_MISMATCH and CALLDATA_MISMATCH, wherever the intent commits to target, data or account call |
| `ReceiptFields.ValueCodes` | sdk/src/verifier-core.ts:475-475 | TRANSACTION_VALUE_MISMATCH, wherever the intent commits to a value |
| `ReceiptFields.MessageCodes` | sdk/src/verifier-core.ts:476-477 | SOLANA_MESSAGE_MISMATCH and HYPERLIQUID_ORDER_MISMATCH |
| `ReceiptFields.OperationCodes` | sdk/src/verifier-core.ts:479-483 | the four user-operation codes, only under that profile |
| `ReceiptFields.TimeCodes` | sdk/src/verifier-core.ts:484-496 | OUTSIDE_TIME_WINDOW, AUTHORIZATION_AFTER_EXECUTION and OUTSIDE_AUTHORIZATION_WINDOW |
| `ReceiptFields.FinalityCodes` | sdk/src/verifier-core.ts:485-487 | INSUFFICIENT_FINALITY: too few confirmations, no more than the tolerated depth, or not final |
| `ReceiptFields.GasCodes` | sdk/src/verifier-core.ts:488-491 | GAS_LIMIT_EXCEEDED: the gas is known and above the limit |
| `ReceiptFields.DataCodes` | sdk/src/verifier-core.ts:464-489 | EXECUTION_UNAVAILABLE: no data, incomplete fills, or a gas limit and no gas |
| `ReceiptFields.NeverBindingCodes` | sdk/src/verifier-core.ts:464-496 | the three remaining codes are never given by the binding |
| `ReceiptFields.ReasonsInOrder` | sdk/src/verifier-core.ts:464-497 | the codes stand in the order in which the lines first add them |
| `ReceiptFields.Lines` | sdk/src/verifier-core.ts:464-496 | the thirty lines that can add a reason, in their order |
| `ReceiptVerdicts.ComplianceExactly` | sdk/src/verifier-core.ts:533-552 | an execution can be judged exactly when it is settled, no check fails for want of evidence, and it belongs to the authorization by chain, executor and nonce; it is then COMPLIANT exactly when no check fails |
| `ReceiptFields.AssessmentExactly` | sdk/src/verifier-core.ts:533-552 | the reasons of an assessment, each exactly under its condition: the one obstacle, else what is missing, else how the execution is another one, else the codes of the binding |
| `ReceiptFields.OutcomesExactly` | sdk/src/verifier-core.ts:513-522 | each v2 outcome exactly under its condition on status, finality, binding and time |
| `ReceiptFields.ExecutionOutcomesExactly` | sdk/src/verifier-core.ts:524-531 | each v3 outcome exactly under its condition on status and finality |
| `ReceiptVerdicts.NotAssessableReasons` | sdk/src/verifier-core.ts:533-550 | an assessment that judges nothing always gives reasons, and each is so |
| `ReceiptVerdicts.NeverExpired` | sdk/src/verifier-core.ts:513-522 | under its own binding the v2 outcome is never EXPIRED |
| `ReceiptVerdicts.VersionsAgree` | sdk/src/verifier-core.ts:513-552 | v2 COMPLETED is v3 COMPLETED and COMPLIANT on every execution of a shape-valid authorization exactly when the intent has a nonce, or the executor may not act as the sender or no time is left in both windows |
| `ReceiptVerdicts.CompliantIsCompleted` | sdk/src/verifier-core.ts:513-552 | v3 COMPLETED and COMPLIANT implies v2 COMPLETED, without condition |
| `ReceiptVerdicts.VersionsDisagreeWithoutNonce` | sdk/src/verifier-core.ts:472-472 | every intent without a nonce that can be completed, with any calls and constraints, has an execution that v2 completes and v3 does not find compliant |
| `ReceiptVerdicts.NonCompliantReasons` | sdk/src/verifier-core.ts:543-551 | the reasons of a NON_COMPLIANT assessment never name the chain; the nonce exactly when the intent has none; and the executor exactly for a Solana intent whose sender is the executor up to the case of letters only, which takes an authorizer that is no Solana key |
| `ReceiptVerdicts.ExecutorNamedExactly` | sdk/src/verifier-core.ts:489-548 | some execution of an authorization is NON_COMPLIANT and names the executor exactly when the intent is a Solana one, the authorizer is no Solana key and the executor is spelled with a letter |
| `WalletGuard.TransitionWalletGuardedAction` | sdk/src/wallet-guard.ts:138-325 | applies the transition table: guard, evidence, target state and history |
| `WalletEvents.Created` | sdk/src/wallet-guard.ts:105-130 | a new record has its checked identifiers and chain, waits for a risk assessment and has no evidence |
| `WalletEvents.RiskEvent` | sdk/src/wallet-guard.ts:151-166 | the whole effect of a risk assessment, and when it is refused |
| `WalletEvents.PreparationEvents` | sdk/src/wallet-guard.ts:168-175 | the whole effect of preparation and of the signature request |
| `WalletEvents.AuthorizationEvent` | sdk/src/wallet-guard.ts:176-209 | the whole effect of an accepted authorization: for this intent and chain, by an address, to AUTHORIZED or UNKNOWN |
| `WalletEvents.SubmissionEvents` | sdk/src/wallet-guard.ts:211-224 | the whole effect of a submission: a transaction hash under an authorization that has not expired |
| `WalletEvents.ObservationEvents` | sdk/src/wallet-guard.ts:225-265 | the whole effect of the two observation events: of the submitted transaction and no other, to the state of its status |
| `WalletEvents.VerificationEvents` | sdk/src/wallet-guard.ts:267-286 | the whole effect of a verification: of the observed receipt, recorded only when valid |
| `WalletEvents.EndingEvents` | sdk/src/wallet-guard.ts:287-317 | the whole effect of failure and cancellation, and the states they come from |
| `WalletEvents.IdentifiersExactly` | sdk/src/wallet-guard.ts:101-101 | the identifiers, character by character |
| `WalletEvents.HexTextExactly` | sdk/src/wallet-guard.ts:102-102 | addresses and transaction hashes, character by character |
| `WalletEvents.LowerExactly` | sdk/src/wallet-guard.ts:204-222 | addresses and hashes are recorded with the letters from A to Z in lower case, and nothing else changed |
| `WalletEvents.SummaryExactly` | sdk/src/wallet-guard.ts:332-450 | the three flags of the summary, each exactly in its states |
| `WalletGuard.RunsAreSafe` | sdk/src/wallet-guard.ts:138-325 | over every run from creation: at most one submission, only under a risk that does not block and an unexpired authorization; none in AUTHORIZED or CANCELLED; VERIFIED only with the confirmed receipt id |
| `WalletGuard.RunsAreBounded` | sdk/src/wallet-guard.ts:150-324 | over every run from creation: the history is a connected path naming the events of the run, and at most six of them are not observations |
| `WalletEvents.PathOnFields` | sdk/src/wallet-guard.ts:322-324 | a history is a connected path exactly when every entry starts where the one before it ended, the first in AWAITING_RISK, from a state its event is accepted in, and the last ends in the state |
| `WalletEvents.CountsOnFields` | sdk/src/wallet-guard.ts:322-324 | what the counts of submissions and of other events along a history count |
| `WalletGuard.EvidenceIsFinal` | sdk/src/wallet-guard.ts:138-325 | risk, authorization, submission and verification never change once set, and after a submission no submission-ready state is reachable |
| `WalletGuard.StuckExactly` | sdk/src/wallet-guard.ts:332-450 | no event is accepted exactly in the states flagged terminal and in UNKNOWN without a submission |
| `WalletGuard.UnknownCanBeStuck` | sdk/src/wallet-guard.ts:208-208 | that state is reachable, is not flagged terminal and is flagged observable |
| `WalletGuard.MaySubmitExactly` | sdk/src/wallet-guard.ts:211-223 | a submission can be recorded exactly where `maySubmit` is set and the authorization has not expired |
| `WalletGuard.MayObserveExactly` | sdk/src/wallet-guard.ts:224-266 | an observation event is accepted exactly where `mayObserve` is set and there is a submission |
| `WalletGuard.VerifiableExactly` | sdk/src/wallet-guard.ts:138-325 | a record can still end VERIFIED exactly when it is none of the four hopeless kinds |
| `WalletGuard.ConfirmedCanBeLost` | sdk/src/wallet-guard.ts:231-286 | for every unusable receipt id, or none, a run from creation ends in a confirmed observation with it, which no continuation verifies |
| `RwaPattern.PatternDecides` | sdk/src/insight-rwa.ts:136-151 | the pattern generated from a positive canonical maximum accepts exactly the canonical decimals up to it |
| `RwaPattern.Uint256PatternDecides` | sdk/src/insight-rwa.ts:136-154 | the shipped pattern accepts exactly the canonical decimals below 2^256 |
| `RwaPattern.Uint256Digits` | sdk/src/insight-rwa.ts:136-148 | the maximum has 78 digits, the width the pattern's repetition counts assume |
| `RwaPattern.CanonicalOrder` | sdk/src/insight-rwa.ts:139-150 | canonical decimals are ordered by length, then by the first differing digit |
| `RwaEvaluator.BuildRwaReport` | sdk/src/insight-rwa.ts:388-509 | returns exactly on accepted inputs, with the specified times and evaluation |
| `RwaFields.InputOnFields` | sdk/src/insight-rwa.ts:388-437 | an input is accepted exactly when its scope, time, sizes and shapes are in order |
| `RwaFields.PolicyOnFields` | sdk/src/insight-rwa.ts:226-279 | the limits of a policy and its rules |
| `RwaFields.ValidUntilExactly` | sdk/src/insight-rwa.ts:410-505 | a report is valid until the first of its deadlines: its lifetime, the ends and ages of a standing market state, of the prices that count and of required evidence that stands |
| `RwaConsensus.ReasonsExactly` | sdk/src/insight-rwa.ts:320-488 | the report gives each reason about the rule, the market, the prices and the evidence exactly when it holds |
| `RwaFields.EvidenceReasons` | sdk/src/insight-rwa.ts:467-491 | for each kind of required evidence, unavailable exactly when no statement that stands says yes or no, and blocked exactly when it says no; it stands when it is the only one of its kind, about the caller for eligibility and the instrument for the others, by an admitted source and current |
| `RwaFields.MarketReasons` | sdk/src/insight-rwa.ts:320-352 | each market reason exactly under its condition on the fields of the market state, the venue, the rule and the time |
| `RwaFields.ActionReason` | sdk/src/insight-rwa.ts:414-415 | ACTION_NOT_ALLOWED exactly when the policy has no rule for the action |
| `RwaFields.CoverageReasons` | sdk/src/insight-rwa.ts:457-460 | the coverage reasons exactly when there are too few eligible feeds or groups |
| `RwaFields.DisagreementOnFields` | sdk/src/insight-rwa.ts:457-466 | PRICE_DISAGREEMENT exactly when two prices that count are too far apart |
| `RwaFields.VerdictFromReasons` | sdk/src/insight-rwa.ts:493-493 | the verdict is BLOCK exactly when a blocking reason is reported, and ALLOW exactly when none is |
| `RwaFields.AllowOnFields` | sdk/src/insight-rwa.ts:320-493 | ALLOW exactly when there is a rule, every required kind of evidence is stated to be in order about the right subject, and, where a price is required, the market is silent and the prices agree |
| `RwaFields.StatementDecides` | sdk/src/insight-rwa.ts:474-491 | accepted inputs with one fresh statement of each kind, for every subject and status: a good one allows exactly when it is about the right subject |
| `RwaFields.ListsAscending` | sdk/src/insight-rwa.ts:494-498 | reasons, feeds and exclusions are in ascending order |
| `RwaEvaluator.NoFailures` | sdk/src/insight-rwa.ts:354-386 | a price counts exactly when it matches the instrument, market and policy and is retrieved and young enough |
| `RwaFields.EligibleExactly` | sdk/src/insight-rwa.ts:354-444 | a price counts exactly when one is required and it is the only one of its feed, on the terms of the instrument, in the session of the market, in time and positive |
| `RwaFields.EligibleOnce` | sdk/src/insight-rwa.ts:365-444 | no feed counts twice |
| `RwaEvaluator.CollectionIsFiltered` | sdk/src/insight-rwa.ts:430-444 | the one-pass collection is the same as filtering the prices |
| `RwaGuarantees.ValidUntilIsLater` | sdk/src/insight-rwa.ts:388-509 | a report's `validUntil` is after its `evaluatedAt` and within the policy's lifetime |
| `RwaGuarantees.AllowLasts` | sdk/src/insight-rwa.ts:309-509 | rebuilt inside its window, an ALLOW is the same ALLOW on the same prices, unless a price arrives |
| `RwaGuarantees.AllowLastsWhenAllRetrieved` | sdk/src/insight-rwa.ts:309-509 | in particular when every price was retrieved by then |
| `RwaGuarantees.AllowStandsExactly` | sdk/src/insight-rwa.ts:309-509 | the whole decision, feeds, groups and price included, stays the same through the window exactly when no required price is pending inside it |
| `RwaWindow.AllowStaysExactly` | sdk/src/insight-rwa.ts:309-509 | rebuilt inside its window an ALLOW is a BLOCK if the required prices eligible by then disagree, an ALLOW if not, and never UNKNOWN |
| `RwaWindow.EligibleGrows` | sdk/src/insight-rwa.ts:354-444 | inside the window no price stops counting: the eligible prices are those of the report and what has arrived since |
| `RwaSamples.AllowCanFall` | sdk/src/insight-rwa.ts:380-466 | at any time there is an accepted input that is an ALLOW with a window of 300 seconds, and a BLOCK one second later |
| `RwaOrder.OrderDoesNotMatter` | sdk/src/insight-rwa.ts:354-509 | permuting prices and evidence leaves the report unchanged, the exclusions as a multiset |
| `RwaOrder.AcceptedAlike` | sdk/src/insight-rwa.ts:388-429 | permuting prices and evidence keeps an input accepted |
| `RwaOrder.EligibleAntisymmetric` | sdk/src/insight-rwa.ts:365-456 | the consensus order is antisymmetric on eligible prices, because a repeated feed is excluded altogether |
| `RwaConsensus.ConsensusIsRobust` | sdk/src/insight-rwa.ts:445-456 | with at most floor((n-1)/2) eligible prices outside an interval, the reported price is inside it |
| `RwaSamples.OneMoreOutlierMoves` | sdk/src/insight-rwa.ts:445-466 | for every number of eligible prices, even or odd, there is an accepted input with one outlier more whose consensus price is the outlier; with two or more prices its verdict is ALLOW |
| `RwaConsensus.DisagreementExactly` | sdk/src/insight-rwa.ts:457-466 | PRICE_DISAGREEMENT is reported exactly when two eligible prices differ by more than the policy's share of the reported price |
| `RwaConsensus.AllowExactly` | sdk/src/insight-rwa.ts:320-496 | ALLOW exactly when there is a rule, all required evidence is good and, where a price is required, the market is clear and the prices cover it |
| `RwaConsensus.BlockExactly` | sdk/src/insight-rwa.ts:320-494 | BLOCK exactly when there is no rule, or usable required evidence, a usable market state or a price disagreement speaks against the action |
| `RwaConsensus.FailuresExactly` | sdk/src/insight-rwa.ts:354-386 | each failure is listed for a price exactly under its condition |
| `RwaFields.FaultsExactly` | sdk/src/insight-rwa.ts:354-386 | each failure exactly under its condition on the fields of the price, its feed, the instrument, the market and the time |
| `RwaConsensus.ExcludedExactly` | sdk/src/insight-rwa.ts:430-438 | the report excludes exactly the prices with a failure, each with its own failures |
| `RwaGuarantees.FeedListed` | sdk/src/insight-rwa.ts:438-495 | the feeds reported as eligible are those of the eligible prices |
| `RwaFields.FeedsExactly` | sdk/src/insight-rwa.ts:438-495 | a feed is reported exactly when it has a price that counts |
| `RwaOrder.GroupsMember` | sdk/src/insight-rwa.ts:438-442 | the independent groups are those of the eligible prices whose feed is not derived |
| `RwaFields.GroupsExactly` | sdk/src/insight-rwa.ts:438-442 | a group counts exactly when a feed of it that is not derived has a price that counts |
| `ReleaseLineage.AddressedObjects` | sdk/src/insight-protocol-trust.ts:83-108 | succeeds exactly when every entry is under its own hash and no hash repeats, with exactly those bodies |
| `ReleaseLineage.AddressedOnFields` | sdk/src/insight-protocol-trust.ts:83-108 | at most 64 entries, each readable and under the hash of its object, a wrapper naming that hash or none, and no object twice |
| `ReleaseLineage.NextRelease` | sdk/src/insight-protocol-trust.ts:293-310 | the lineage starts at the named release and goes from a supplied registry release to the predecessor it names |
| `ReleaseLineage.WalkLineage` | sdk/src/insight-protocol-trust.ts:293-311 | terminates on every map, cyclic or not, with a verdict that describes the lineage |
| `ReleaseLineage.VerdictUnique` | sdk/src/insight-protocol-trust.ts:293-311 | at most one verdict describes a lineage |
| `ReleaseLineage.AdmittedExactly` | sdk/src/insight-protocol-trust.ts:293-311 | admitted exactly when following predecessors through supplied releases reaches a supplied floor, and the first such floor is reported |
| `ReleaseLineage.NoCycle` | sdk/src/insight-protocol-trust.ts:104-106 | a lineage of content-addressed releases always ends |
| `ReleaseLineage.SelfNamedRunsForever` | sdk/src/insight-protocol-trust.ts:296-296 | without content addressing a release that names itself is a cycle |
| `ReleaseLineage.EvaluateRelease` | sdk/src/insight-protocol-trust.ts:286-311 | each refusal code exactly under its condition, and never the cycle code |
| `ReleaseLineage.OneVerdict` | sdk/src/insight-protocol-trust.ts:83-108 | the verdict is determined and does not depend on the order in which the objects are supplied |
| `SettlementContradictions.DetectContradictions` | sdk/src/insight-base-agent-swap-guard-settlement.ts:286-313 | computes the report from the groups by decision, in insertion order |
| `SettlementContradictions.ConsistentExactly` | sdk/src/insight-base-agent-swap-guard-settlement.ts:300-313 | consistent exactly when no two verified closures share a decision and differ in the swap |
| `SettlementContradictions.ReportsContradictions` | sdk/src/insight-base-agent-swap-guard-settlement.ts:301-313 | a decision is reported exactly when it is contradicted, and once |
| `SettlementContradictions.ContradictionIsComplete` | sdk/src/insight-base-agent-swap-guard-settlement.ts:301-312 | a reported contradiction lists exactly the verified indices of its decision, ascending, and exactly their swaps and their attesters, each once |
| `SettlementContradictions.EveryCandidateReported` | sdk/src/insight-base-agent-swap-guard-settlement.ts:289-300 | verified plus unverified is the number of closures, each unverified one listed in order with its reason |
| `SettlementFields.UnverifiedExactly` | sdk/src/insight-base-agent-swap-guard-settlement.ts:289-294 | exactly the closures that are not valid, or name no decision or no swap, are unverified, each with its reason |
| `SettlementFields.ConsistentOnFields` | sdk/src/insight-base-agent-swap-guard-settlement.ts:286-313 | consistent exactly when no two complete closures share a decision and differ in the swap |
| `SettlementFields.ContradictionOnFields` | sdk/src/insight-base-agent-swap-guard-settlement.ts:289-309 | the indices, swaps and attesters of a contradiction in terms of the closures, an absent attester read as the empty text |
| `SettlementFields.ContradictionsInOrder` | sdk/src/insight-base-agent-swap-guard-settlement.ts:300-311 | contradictions are listed by the first closure of each |
| `SettlementFields.SwapsInOrder` | sdk/src/insight-base-agent-swap-guard-settlement.ts:301-306 | the swaps of a contradiction stand in the order in which they are first named |
| `SettlementFields.AttestersInOrder` | sdk/src/insight-base-agent-swap-guard-settlement.ts:307-307 | and so do its attesters |
| `SwapRisk.DifferenceExactly` | sdk/src/review-manifest.ts:222-224 | the deviation is the whole part of its basis points, or the cap |
| `SwapFields.ValidatedOnFields` | sdk/src/review-manifest.ts:190-234 | a report validates exactly when its shape and call hold, its amounts are in range, it simulates at least the minimum, and its three figures are the whole basis points of those amounts |
| `SwapFields.AmountsOnFields` | sdk/src/review-manifest.ts:202-208 | the ranges of the amounts |
| `SwapFields.PolicyOnFields` | sdk/src/review-manifest.ts:498-500 | a validated report is within a policy exactly when all three limits are set and none is exceeded |
| `SwapRisk.MinimumOutputFloor` | sdk/src/review-manifest.ts:203-234 | a validated report with deviation at most D and slippage at most S has amountOutMinimum * 10^8 > oracleExpectedAmountOut * (9999-D) * (9999-S), for any limits, a negative share read as zero |
| `SwapRisk.FloorIsTight` | sdk/src/review-manifest.ts:222-225 | at every deviation below 9999 and every slippage there are validated reports, of any scale, whose minimum output is the least integer the floor allows and below the floor with 10000 for 9999 |
| `SwapRisk.DeviationIsFloor` | sdk/src/review-manifest.ts:222-223 | the simulated output is at least the expected one less the reported deviation exactly when it is no loss or the division is exact |
| `SwapRisk.SlippageIsFloor` | sdk/src/review-manifest.ts:225-225 | the minimum output is at least the simulated one less the reported slippage exactly when the division is exact |
| `SwapRisk.ReportedFloorExactly` | sdk/src/review-manifest.ts:222-234 | the floor (10000-d)(10000-s) at the reported basis points holds exactly when, under a simulated loss, both divisions are exact, and otherwise the gain outweighs what the slippage division drops |
| `SwapRisk.ReportedFloorWithoutLoss` | sdk/src/review-manifest.ts:222-234 | without a simulated loss an exact slippage division is enough for that floor, and where the simulated output is the expected one the floor holds exactly then |
| `SwapRisk.LargeDeviationIsGain` | sdk/src/review-manifest.ts:203-225 | in a validated report a deviation of 10000 or more means a simulated output of at least twice the expected one, and the slippage is at most 9999 |
| `SwapRisk.LeastMinimum` | sdk/src/review-manifest.ts:203-234 | for every expected amount of 10000 or more there is a validated report with deviation 9999, slippage 0 and minimum output 1 |
| `SwapRisk.ReplayedExactly` | sdk/src/review-manifest.ts:542-621 | a replay passes exactly when its gates do and the reported amounts are the replayed ones, by floor-division bounds; the basis points follow, and the unsupported-call code never occurs |
| `SwapFields.ScopeCodes` | sdk/src/review-manifest.ts:548-569 | the four codes before the chain is asked, each exactly under its condition |
| `SwapFields.ChainCodes` | sdk/src/review-manifest.ts:571-616 | the codes of the questions to the chain, in their order, and every way a replay is unavailable |
| `SwapFields.ArithmeticCodes` | sdk/src/review-manifest.ts:592-613 | the codes of the arithmetic: no simulation, an amount of zero, a pass exactly when the four amounts are the replayed ones, and a mismatch otherwise |
| `SwapRisk.ReplayedMinimumFloor` | sdk/src/review-manifest.ts:498-500 | within any policy and replayed, the minimum output is above the policy's share of the exact value at the signed prices, up to one output unit |

## Left out

- Cryptography and foreign code: hashing, signatures, EIP-712, ABI coding, Web Crypto and RFC 3161 timestamps are free constructors, predicates or Booleans.
- The rest of the receipt verifier: key windows, acceptance and policy evidence are long conjunctions of equality tests.
- The shapes behind the Boolean fields: exact field lists, identifier and label patterns, the Hyperliquid order checks.
- `JSON.stringify` on numbers that are no integers, and unpaired surrogates.
- CanonicalJson.Determined: integers are printed in decimal; from 10^21 on JavaScript prints an exponent, which the model does not.
- CanonicalJson.TextIsMeaning: on values without duplicate keys, which JavaScript objects cannot have.
- ReceiptVerdicts.VersionsAgree: on authorizations that pass the shape rules it depends on, as the verifier checks them first.
- RwaPattern.PatternDecides: the source generates one pattern, for 78 digits; for a maximum of one digit the model leaves out the alternative for shorter numbers, which does not exist.
- MerkleLog.CreateProofCorrect: 64-bit floating point of `Math.log2` and of powers of two, which the model takes as exact.
- Which error is thrown for an input that fails several checks: it is refused in the model as in the code, and the code it is refused with is modelled only in `ReleaseLineage`, `SwapRisk`, `ReceiptVerdicts` and `CanonicalJson`.
- RwaEvaluator.BuildRwaReport: the schema, environment, policy identifier and copy of the input that a report carries besides its times and evaluation.
- The signing and the signature verification of real-world-asset reports.
- The titles and details of the wallet summary; its flags are modelled.
- Network, wallets, RPC readers, the review manifest's attachments, the decision verifiers, coverage prices in floating point, and the web console.
