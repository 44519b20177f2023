# QFC server wallet: a verified model

This project models the parts of the QFC server wallet that must agree with each
other, and proves that they do. `dafny verify dfyconfig.toml` checks all of it.

| module | what it models |
|---|---|
| `Bytes`, `Results`, `Outcomes` | big-endian numbers and their minimal forms; results with an error, and with a panic |
| `PrimeField` | arithmetic modulo a prime, polynomials, Lagrange interpolation |
| `Shamir` | splitting a byte secret into shares and combining them |
| `Rlp`, `EvmDecoder` | RLP headers, items and lists; the four EVM transaction envelopes |
| `ChainAnchor` | the hand-written RLP writer, the EIP-155 transaction, the anchor calldata |
| `AuditChain`, `FileSink`, `PostgresSink` | the hash-chained audit log and its two sinks |
| `RateLimit`, `RateExact` | the token bucket, and exactly when it grants a token |
| `RuleSetPolicy`, `PolicyLaws`, `PolicyGates`, `RateOrder`, `PolicyRuns` | the eleven-gate rule evaluator, what it guarantees, what each gate tests in the fields of rules and payload, when rule order matters, and concurrent evaluations over one limiter |
| `WalletService` | wallet creation, the share store, and signing inside the enclave |
| `SignTrace` | the audit trace of interleaved signing calls |
| `Freshness`, `ApprovalPreimage`, `ApprovalStore`, `ApprovalOrder` | age checks, the bytes approvers sign, the two-lock approval store and the order of its listings |
| `HybridVerifier`, `SignFlow` | the enclave's re-check of a signed policy decision, and a signing call from decision to answer |
| `HdPath` | derivation paths and their text |

What the outside world does is a parameter. Hashes, signatures, JSON text, hex and
decimal parsing, random draws and clocks are function-valued fields of a record
(`Crypto`, `Env`, `Signers`, `Tools`, `Entropy`) or arguments. A property such as
"signatures verify" is a named precondition where a theorem needs it. Results about
hashes are stated as "equal, or here is a collision", so nothing assumes that a hash
is injective. I/O outcomes (a write that fails, with or without reaching the disk; a
store read that fails; a call dropped while it waits for a lock) are free choices of
the run.

Code that updates things in place is a class or a method with loops, proved equal to
a specification function. The laws are lemmas about those functions.

## Findings

Each of these is a promise that the code meets only under a condition. The model keeps
the code as it is, shows an input where the promise fails, and proves the exact
condition.

- `combine_shares` slices the recovered header without a length check. It panics
  exactly on well-shaped shares whose blob is four zero bytes (`Shamir.PanicsExactly`,
  `Shamir.PanicExample`).
- The sum behind `v` (crates/qfc-audit/src/chain_anchor.rs:153) is plain 64-bit
  arithmetic: it wraps in a release build and panics in a development build. The model
  follows the release build. The chain id is readable from `v` exactly when the recovery
  id is 0 or 1 and nothing overflows (`ChainAnchor.ChainIdRecovered`,
  `ChainAnchor.ChainIdLost`).
- `recover_chain_head` unwraps the last line of a non-empty file. It panics exactly on
  files of newlines only (`FileSink.RecoverPanicsExactly`, `FileSink.NewlineFilePanics`).
- A write that fails after its line reached the file leaves memory behind the file
  (`FileSink.DriftBreaksReplay`). Over any run, replay accepts the file exactly when no
  line landed between such a failure and the next reopen, up to an event that hashes to
  the head it extends; and the count in memory trails the file by exactly the late
  failures since the last reopen (`FileSink.ReplayAcceptsRunExactly`).
- `kind_from_byte` has no case for byte 17, which `kind_byte` emits. Replay of an
  ordered table fails exactly when the last row has that kind, and once the latest row
  has it no emit ever commits again (`PostgresSink.UnreadableEmit`,
  `PostgresSink.OrderedReplay`, `PostgresSink.UnreadableHeadSticks`).
- Replay reads rows in (timestamp, event id) order, emits link them in commit order.
  Two emits in one millisecond can disagree
  (`PostgresSink.SameMillisecondDisorder`, `PostgresSink.ReplayAcceptsExactly`; for emits
  that run one after another, `PostgresSink.SequentialReplay`).
- The order of rate-limit rules on one scope can decide between allow and deny
  (`PolicyLaws.SharedScopeOrderMatters`). With one clock reading per evaluation, the
  order never matters exactly when an earlier gate decides, or some scope has so many low
  caps that it always refuses, or on every scope the rules agree: all allow as many tokens
  as there are rules, at one rate, or none refills and none allows that many
  (`RateOrder.DecisionOrderExactly`; for two rules, `RateOrder.PairOrderExactly`). When
  each rule may read the clock at its own time, one rule per scope, or copies of one, is
  enough (`PolicyLaws.PermutationInvariant`).
- With two quorum rules that fire, order decides which quorum is asked for
  (`PolicyLaws.QuorumOrderMatters`). Threshold, total and approver set are the same under
  every permutation that asks for a quorum exactly when all firing quorum rules name the
  same ones
  (`PolicyLaws.QuorumTermsExactly`).
- The store's documentation says a listing holds all approvals on record, in insertion
  order (crates/qfc-quorum/src/store/mod.rs:61). It holds all of them exactly when no call
  for the request is between its two locks or was dropped there
  (`ApprovalStore.ListsAllExactly`, `ApprovalStore.OneCallUnlisted`). It is in the order
  calls finish (`ApprovalOrder.RowIsFinishOrder`), which is the order of entry exactly
  when they finished in the order they began (`ApprovalOrder.EntryOrderExactly`,
  `ApprovalOrder.FinishOrderCounts`).
- The same documentation says that a different payload is refused (line 52) and that
  payloads are told apart by approval id (lines 26-29). The code does the latter: a later
  call changes nothing, and is refused exactly when its id differs from the first call's
  (`ApprovalOrder.ResubmissionExact`, `ApprovalOrder.FlippedIsAlreadyRecorded`).
- The enclave counts approvals, not approvers: copies of one approval make a quorum
  (`HybridVerifier.CopiesCount`). Every quorum it counts comes from threshold many keys
  exactly when the threshold is at most one, or above the 64 approvals a call may carry,
  or no approval is good at all (`HybridVerifier.DistinctApproversExactly`).
- The enclave's lists are compared with the recipient and chain that the payload names, so
  a payload that names none passes (`HybridVerifier.UnnamedRecipientPasses`). What its
  bytes decode to is on the lists, for every wallet, exactly when the payload names what
  they decode to (`HybridVerifier.DecodedWithinExactly`).
- The service hands no approvals to the enclave. With a signer wired and a key pinned, no
  quorum decision of a validated rule set yields a signature
  (`SignFlow.EvaluatedQuorumIsRefused`, `SignFlow.SignDecided`); when the shares load and
  every audit write goes through, a quorum gathered in full ends in the log as a failed
  signing (`SignFlow.SignAudited`).
- A path with an index of 2^31 or more prints to a text that does not parse
  (`HdPath.PrintThenParse`, `HdPath.WidePathIsLost`).

## Model

| member | source | states |
|---|---|---|
| `PrimeField.FieldExists` | crates/qfc-sss/src/shamir.rs:7-31 | every prime has a field of inverses, so the theorems below speak of a real one |
| `PrimeField.TooManyRoots` | crates/qfc-sss/src/shamir.rs:7-31 | a polynomial with as many distinct roots as coefficients vanishes everywhere modulo the prime |
| `PrimeField.LagrangeUnique` | crates/qfc-sss/src/shamir.rs:7-31 | a polynomial is determined by its values at as many distinct points as it has coefficients |
| `PrimeField.SameCoefficients` | crates/qfc-sss/src/shamir.rs:27-31 | field polynomials that agree at as many points as they have coefficients have the same coefficients |
| `PrimeField.InterpolationAtZero` | crates/qfc-sss/src/shamir.rs:7-31 | the weighted sum the combiner forms is the value at zero of the polynomial behind the points |
| `Shamir.PrefixAndPad` | crates/qfc-sss/src/shamir.rs:111-117 | the length-prefixed, zero-padded buffer of whole 31-byte chunks |
| `Shamir.SplitChunks` | crates/qfc-sss/src/shamir.rs:121-144 | every chunk is shared by a polynomial with that chunk as constant term |
| `Shamir.Regroup` | crates/qfc-sss/src/shamir.rs:146-160 | the transposition from shares per chunk to chunks per share |
| `Shamir.SplitSecret` | crates/qfc-sss/src/shamir.rs:101-161 | the error, or the list of all shares of the deal in index order |
| `Shamir.CheckShape` | crates/qfc-sss/src/shamir.rs:172-208 | the first shape error of a share list, in source order |
| `Shamir.RecoverBuffer` | crates/qfc-sss/src/shamir.rs:210-225 | the chunk-by-chunk recovery, up to the first chunk that fails |
| `Shamir.CombineShares` | crates/qfc-sss/src/shamir.rs:172-251 | error, secret or panic, as the specification function says |
| `Shamir.CombineChunk` | crates/qfc-sss/src/shamir.rs:210-225 | threshold many chunk shares with distinct ids give back the chunk's scalar |
| `Shamir.SortAndDedup` | crates/qfc-sss/src/shamir.rs:189-194 | sorting and removing repeats keeps the length exactly when no index repeats |
| `Shamir.PanicsExactly` | crates/qfc-sss/src/shamir.rs:227-240 | combination panics if and only if the shares are well shaped and their blob is four zero bytes |
| `Shamir.PanicExample` | crates/qfc-sss/src/shamir.rs:227-240 | two concrete shares on which it panics |
| `Shamir.SecretNeedsShares` | crates/qfc-sss/src/shamir.rs:172-208 | a secret comes only from threshold many shares with one set of parameters, distinct indices and equal whole-chunk blobs |
| `Shamir.CombinedExactly` | crates/qfc-sss/src/shamir.rs:210-251 | a secret is given out if and only if the recovered bytes begin with its length and itself, and the first share declares that length |
| `Shamir.RoundTrip` | crates/qfc-sss/src/shamir.rs:101-251 | any threshold many distinct shares, in any order, combine to exactly the secret, for every secret, parameters and coefficients |
| `Shamir.ChunkSecrecy` | crates/qfc-sss/src/shamir.rs:27-31 | fewer than threshold shares of a chunk fit every candidate value, with coefficients the random source could have drawn |
| `Shamir.BelowThresholdSecrecy` | crates/qfc-sss/src/shamir.rs:27-31 | fewer than threshold shares of a whole secret are also shares of every other secret of that length, with coefficients in the field |
| `Shamir.OneDrawPerSecret` | crates/qfc-sss/src/shamir.rs:27-31 | threshold minus one shares and a candidate secret leave exactly one choice of field coefficients |
| `Rlp.DecodeEncoded` | crates/qfc-audit/src/chain_anchor.rs:50-97 | a written item is read back, whatever follows it |
| `Rlp.DecodedIsEncoded` | crates/qfc-policy/src/decoders/evm.rs:325-356 | every header the reader accepts is the writer's header of the payload it found |
| `Rlp.DecodeStringExactly` | crates/qfc-policy/src/decoders/evm.rs:347-356 | a string item decodes to b if and only if it is the encoding of b |
| `Rlp.DecodeItemsExactly` | crates/qfc-policy/src/decoders/evm.rs:325-344 | a list decodes to its items if and only if it is the encoding of their concatenation and each item is framed |
| `Rlp.KnownEncodings` | crates/qfc-audit/src/chain_anchor.rs:50-97 | the writer's bytes on known strings, lists and numbers |
| `EvmDecoder.BytesExactly` | crates/qfc-policy/src/decoders/evm.rs:347-356 | bytes fields accept exactly the string encodings |
| `EvmDecoder.UintExactly` | crates/qfc-policy/src/decoders/evm.rs:360-396 | number fields accept exactly the image of the scalar encoder within their width |
| `Bytes.MinBELength` | crates/qfc-policy/src/decoders/evm.rs:360-396 | the byte-width test is the numeric bound |
| `EvmDecoder.AddressExactly` | crates/qfc-policy/src/decoders/evm.rs:399-414 | the recipient is empty or exactly twenty bytes, and nothing else is accepted |
| `EvmDecoder.DecodeHashListLoop` | crates/qfc-policy/src/decoders/evm.rs:478-507 | the hash-list loop computes the list decoder |
| `EvmDecoder.DecodeAccessListLoop` | crates/qfc-policy/src/decoders/evm.rs:417-475 | the access-list loop computes the nested list decoder |
| `EvmDecoder.HashListExactly` | crates/qfc-policy/src/decoders/evm.rs:478-507 | hash lists of any length decode to hs if and only if they encode hs |
| `EvmDecoder.AccessListExactly` | crates/qfc-policy/src/decoders/evm.rs:417-475 | access lists of any length and key count decode to what they encode, and only that |
| `EvmDecoder.FieldCanonical` | crates/qfc-policy/src/decoders/evm.rs:325-507 | no two encodings of a field decode to the same value |
| `EvmDecoder.RecordExactly` | crates/qfc-policy/src/decoders/evm.rs:325-344 | a whole field list decodes exactly from its encoding |
| `EvmDecoder.DecodeExactly` | crates/qfc-policy/src/decoders/evm.rs:154-315 | a byte string decodes to an envelope if and only if it is that envelope's canonical encoding, for all four types |
| `EvmDecoder.WireExactly` | crates/qfc-policy/src/decoders/evm.rs:3-10 | a byte string decodes to an envelope if and only if it is the type byte and one list that holds the envelope's fields at the positions the EIPs give them |
| `EvmDecoder.TransactionReadBack` | crates/qfc-policy/src/decoders/evm.rs:154-315 | for each of the four types, the decoded transaction carries the envelope's own type, chain id, nonce, recipient, value, gas limit, fees, data, selector, access list and blob hashes |
| `EvmDecoder.SeenIsTransaction` | crates/qfc-policy/src/decoders/evm.rs:154-315 | whatever decodes is the encoding of some envelope |
| `EvmDecoder.RefusedByFirstByte` | crates/qfc-policy/src/decoders/evm.rs:154-170 | empty input and unknown type bytes get their own errors, and nothing else does |
| `EvmDecoder.EncodeInjective` | crates/qfc-policy/src/decoders/evm.rs:154-315 | no two well-formed envelopes, of any types, share an encoding |
| `ChainAnchor.RlpLenPrefix` | crates/qfc-audit/src/chain_anchor.rs:50-62 | appends the length prefix, short or long form |
| `ChainAnchor.RlpString` | crates/qfc-audit/src/chain_anchor.rs:66-73 | appends the string encoding |
| `ChainAnchor.RlpScalar` | crates/qfc-audit/src/chain_anchor.rs:77-83 | any big-endian form, zeros stripped, writes the number's scalar encoding |
| `ChainAnchor.RlpUint` | crates/qfc-audit/src/chain_anchor.rs:85-91 | a machine integer of either width writes its scalar encoding |
| `ChainAnchor.RlpList` | crates/qfc-audit/src/chain_anchor.rs:94-97 | appends the list encoding |
| `ChainAnchor.SignLegacyTx` | crates/qfc-audit/src/chain_anchor.rs:119-167 | the signed digest is that of the EIP-155 list, the bytes are the canonical encoding of the sealed envelope, the hash is of those bytes |
| `ChainAnchor.ChainIdRecovered` | crates/qfc-audit/src/chain_anchor.rs:119-167 | the chain id is recovered from v if and only if the recovery id is 0 or 1 and v does not overflow |
| `ChainAnchor.ChainIdLost` | crates/qfc-audit/src/chain_anchor.rs:119-167 | a chain id that reads back as 0 |
| `ChainAnchor.SignedReadBack` | crates/qfc-policy/src/decoders/evm.rs:154-208 | the policy decoder reads back nonce, gas price, gas limit, recipient, value and data of every transaction signed, and the chain id exactly under that condition |
| `ChainAnchor.SigningListBinds` | crates/qfc-audit/src/chain_anchor.rs:119-140 | equal signing lists mean equal requests |
| `ChainAnchor.HexRoundTrip` | crates/qfc-audit/src/chain_anchor.rs:180-195 | the hex head decodes to the head |
| `ChainAnchor.AnchorCalldata` | crates/qfc-audit/src/chain_anchor.rs:180-195 | tag, head, count and date, or none when the head is not 32 hex bytes |
| `ChainAnchor.CalldataReadBack` | crates/qfc-audit/src/chain_anchor.rs:21-30 | reading calldata recovers head, count and date |
| `ChainAnchor.AnchorEndToEnd` | crates/qfc-audit/src/chain_anchor.rs:119-195 | build, sign, decode with the policy decoder, read: out come the head, count and date that went in |
| `AuditChain.SigningPreimage` | crates/qfc-audit/src/event.rs:103-118 | the bytes a server signature covers |
| `AuditChain.KindByteInjective` | crates/qfc-audit/src/event.rs:124-144 | no two kinds share a byte |
| `AuditChain.StampVerifies` | crates/qfc-audit/src/file.rs:122-175 | every event a sink stamps verifies under the sink's key |
| `AuditChain.StampFields` | crates/qfc-audit/src/file.rs:122-175 | an emitted event carries every field of its draft, the id and clock it was given, and the head it links to |
| `AuditChain.VerifiedExactly` | crates/qfc-audit/src/file.rs:225-245 | an event verifies if and only if key and signature have their lengths, the key is well formed, and the signature is over link, id, kind and details |
| `AuditChain.HashInputBinds` | crates/qfc-audit/src/event.rs:103-118 | the hashed bytes determine previous hash, id, kind, details and signature |
| `AuditChain.HeadCommits` | crates/qfc-audit/src/file.rs:225-289 | two accepted logs with equal count and head agree at every position on every covered field, or a position shows a hash collision |
| `AuditChain.HeadFixesLength` | crates/qfc-audit/src/file.rs:109-117 | accepted logs of different lengths with one head show a collision, or an event that hashes to the genesis value |
| `AuditChain.SameDetails` | crates/qfc-audit/src/event.rs:103-118 | with an injective JSON writer, agreement reaches the details themselves |
| `AuditChain.UncoveredFieldsFree` | crates/qfc-audit/src/event.rs:103-118 | timestamp, actor, request id and wallet id can be changed without changing acceptance or head |
| `AuditChain.ReplayExactly` | crates/qfc-audit/src/file.rs:255-289 | replay returns a count if and only if the log is linked and signed, and then the count is its length |
| `FileSink.LinesOfFile` | crates/qfc-audit/src/file.rs:122-175 | the lines of a written file are the events, one for one |
| `FileSink.RecoverPanicsExactly` | crates/qfc-audit/src/file.rs:178-213 | recovery panics if and only if the file is non-empty and all newlines |
| `FileSink.NewlineFilePanics` | crates/qfc-audit/src/file.rs:178-213 | one newline is such a file |
| `FileSink.ReplayVerify` | crates/qfc-audit/src/file.rs:255-289 | the replay loop over the lines of any file |
| `FileSink.FileSpeaks` | crates/qfc-audit/src/file.rs:178-289 | on a file that holds a log, recovery gives its head and length and replay accepts exactly when the log is accepted |
| `FileSink.FileAuditSink.Open` | crates/qfc-audit/src/file.rs:57-69 | a sink's memory is what recovery computes from the file |
| `FileSink.FileAuditSink.Emit` | crates/qfc-audit/src/file.rs:122-175 | the new file, head and count for each write outcome |
| `FileSink.EmptySynced` | crates/qfc-audit/src/file.rs:57-69 | a sink opened on an empty file starts in step with it |
| `FileSink.RunsStaySynced` | crates/qfc-audit/src/file.rs:57-213 | over any run of emits, clean failures and reopens, memory equals recovery and replay accepts with that count |
| `FileSink.DriftBreaksReplay` | crates/qfc-audit/src/file.rs:122-175 | two short runs: after a write that failed late an immediate reopen heals, and an emit instead breaks replay, unless the lost event hashes to the head it extends |
| `FileSink.RunAccount` | crates/qfc-audit/src/file.rs:122-213 | no run stops, every landed line is in the file, and memory's count trails it by the late failures since the last reopen |
| `FileSink.TidyExactly` | crates/qfc-audit/src/file.rs:122-175 | the left-to-right reading of a run equals the condition on pairs of its steps |
| `FileSink.ReplayAcceptsRunExactly` | crates/qfc-audit/src/file.rs:57-289 | over every run with any write outcomes, replay accepts with the full count if and only if no line landed between a late failure and the next reopen, up to an exhibited event that hashes to the head it extends |
| `FileSink.AnchorDetectsTampering` | crates/qfc-audit/src/file.rs:109-117 | any bytes that replay and recover to the published head and count hold an agreeing log, or yield a collision |
| `PostgresSink.KindColumnExactly` | crates/qfc-audit/src/postgres.rs:283-307 | the kind column inverts for every kind but one |
| `PostgresSink.SortedIsSorted` | crates/qfc-audit/src/postgres.rs:343-381 | the replay query returns a sorted permutation of the table, in the order `PostgresSink.QueryOrder` spells out |
| `PostgresSink.QueryOrder` | crates/qfc-audit/src/postgres.rs:347-353 | every row once, by ascending timestamp, and at equal ones by the smaller byte where the ids first differ |
| `PostgresSink.HeadQuery` | crates/qfc-audit/src/postgres.rs:189-200 | the head query returns the row that all others precede in that order |
| `PostgresSink.ReplayVerifyPostgres` | crates/qfc-audit/src/postgres.rs:343-381 | the replay loop over the sorted rows |
| `PostgresSink.NextKeepsInv` | crates/qfc-audit/src/postgres.rs:137-241 | every begin, lock, read, insert, commit and abort keeps the history linear |
| `PostgresSink.RunsKeepInv` | crates/qfc-audit/src/postgres.rs:137-241 | under every interleaving no two emits extend the same head |
| `PostgresSink.OrderedReplay` | crates/qfc-audit/src/postgres.rs:343-381 | with ascending keys replay accepts with the full count, exactly unless the last kind is unreadable |
| `PostgresSink.AcceptedOnlyInOrder` | crates/qfc-audit/src/postgres.rs:343-381 | if replay accepts, commits were in key order, or the rows show a hash accident |
| `PostgresSink.ReplayAcceptsExactly` | crates/qfc-audit/src/postgres.rs:137-381 | over every run from an empty table, acceptance if and only if key order and a readable last kind, up to a shown hash accident |
| `PostgresSink.UnreadableEmit` | crates/qfc-audit/src/postgres.rs:283-307 | one emit of the unreadable kind into an empty table, after which replay fails |
| `PostgresSink.UnreadableHeadSticks` | crates/qfc-audit/src/postgres.rs:189-241 | once the latest row has the unreadable kind nothing commits again |
| `PostgresSink.EmitAlone` | crates/qfc-audit/src/postgres.rs:137-184 | an emit that runs alone appends its stamped row |
| `PostgresSink.SequentialReplay` | crates/qfc-audit/src/postgres.rs:137-184 | emits one after another with new ids leave one row each; replay counts them all when the clock rises (or stands while ids rise) and the last kind is readable, and otherwise accepts only at a hash accident |
| `PostgresSink.SameMillisecondDisorder` | crates/qfc-audit/src/postgres.rs:137-184 | two emits in one millisecond after which replay rejects |
| `RateLimit.TokenBucketLimiter.TryAcquire` | crates/qfc-policy/src/rate_limit.rs:129-161 | the answer and the whole bucket map after it |
| `RateLimit.AcquireKeepsWithin` | crates/qfc-policy/src/rate_limit.rs:129-161 | tokens stay between zero and capacity, and other keys are untouched |
| `RateLimit.GrantsAccount` | crates/qfc-policy/src/rate_limit.rs:129-161 | grants never exceed the opening level plus the worth of the time gained |
| `RateLimit.WindowBound` | crates/qfc-policy/src/rate_limit.rs:129-161 | over any window and any order of clock reads, grants are at most capacity plus the worth of the time gained |
| `RateLimit.WindowInRun` | crates/qfc-policy/src/rate_limit.rs:129-161 | the same for every window of every run of a new limiter |
| `RateLimit.FixedBudget` | crates/qfc-policy/src/rate_limit.rs:129-161 | without refill, grants are at most what the bucket holds, for ever |
| `RateLimit.RiseIsElapsedPlusFall` | crates/qfc-policy/src/rate_limit.rs:129-161 | the slack of reads taken before the lock is exactly the time they stepped back |
| `RateLimit.ClockOrderBound` | crates/qfc-policy/src/rate_limit.rs:129-161 | in clock order, grants are at most capacity plus the worth of the elapsed time |
| `RateLimit.WaitEarnsToken` | crates/qfc-policy/src/rate_limit.rs:129-161 | a new key, or one left alone for a refill period, is never refused |
| `RateLimit.BurstGranted` | crates/qfc-policy/src/rate_limit.rs:129-161 | a burst on a new key is granted exactly up to the capacity |
| `RateExact.GrantedExactly` | crates/qfc-policy/src/rate_limit.rs:129-161 | after any run in any clock order, a call is granted if and only if one more token is affordable for the opening level and for every window that begins at an earlier call |
| `RateExact.GrantedInClockOrder` | crates/qfc-policy/src/rate_limit.rs:129-161 | from a new limiter in clock order: granted if and only if, since every earlier call, the tokens beyond the capacity took one refill period each |
| `RateExact.RefusalsCostNothing` | crates/qfc-policy/src/rate_limit.rs:129-161 | after any run of refusals, granted if and only if the level and the whole time since the last refill make a token |
| `RateExact.GrantedFromBudget` | crates/qfc-policy/src/rate_limit.rs:129-161 | without refill: granted if and only if the opening level covers what was granted and one more |
| `RuleSetPolicy.WindowsPartitionDay` | crates/qfc-policy/src/rule_set_policy.rs:238-264 | a window and its complement, wrapping midnight or not, split each enabled day between them |
| `RuleSetPolicy.ScopesApart` | crates/qfc-policy/src/rule_set_policy.rs:229-236 | buckets of different scopes never share a key, not even across requests |
| `RuleSetPolicy.ScanGate` | crates/qfc-policy/src/rule_set_policy.rs:299-349 | a gate's loop stops at the first rule that does not pass |
| `RuleSetPolicy.FirstQuorum` | crates/qfc-policy/src/rule_set_policy.rs:669-716 | the first quorum rule whose trigger fires, or the first bad trigger before it |
| `RuleSetPolicy.AcquireAll` | crates/qfc-policy/src/rule_set_policy.rs:562-589 | the limiter calls in rule order up to the first refusal |
| `RuleSetPolicy.Evaluate` | crates/qfc-policy/src/rule_set_policy.rs:277-750 | decision, rule hits and limiter state of the eleven gates |
| `RuleSetPolicy.Validate` | crates/qfc-policy/src/rule_set_policy.rs:108-214 | accepts exactly the well-formed rule sets |
| `PolicyLaws.ScanIsBlocked` | crates/qfc-policy/src/rule_set_policy.rs:299-557 | on a validated list a gate denies if and only if some rule of its kind does |
| `PolicyLaws.QuorumScanIsWanted` | crates/qfc-policy/src/rule_set_policy.rs:669-716 | on a validated list a quorum is asked for if and only if some rule's trigger fires |
| `PolicyLaws.EvaluateRefines` | crates/qfc-policy/src/rule_set_policy.rs:6-21 | a validated set never errs, decides by the first gate that fails, and leaves the limiter alone when gates 1 to 7 decide; what each gate tests is in `PolicyGates` |
| `PolicyLaws.RateScanDeclarative` | crates/qfc-policy/src/rule_set_policy.rs:562-589 | when rules on a scope are copies of each other, the limiter gate passes if and only if each bucket grants as many tokens as its rule is listed |
| `PolicyLaws.PermutationInvariant` | crates/qfc-policy/src/rule_set_policy.rs:277-750 | whenever each rule reads the clock, if rate-limit rules on a scope are copies of each other (as when there is one), no permutation changes the kind of decision or the deny reason |
| `PolicyLaws.QuorumIsFirstFiring` | crates/qfc-policy/src/rule_set_policy.rs:669-716 | a quorum decision carries the terms of the first quorum rule that fires |
| `PolicyLaws.QuorumTermsExactly` | crates/qfc-policy/src/rule_set_policy.rs:669-716 | every permutation that asks for a quorum asks for the same threshold, total and approver set if and only if all firing quorum rules do |
| `PolicyLaws.QuorumOrderMatters` | crates/qfc-policy/src/rule_set_policy.rs:669-716 | two quorum rules whose order sets the threshold |
| `PolicyLaws.SharedScopeOrderMatters` | crates/qfc-policy/src/rule_set_policy.rs:562-589 | two rules on one scope whose order decides between allow and deny |
| `PolicyLaws.RestrictiveRuleOnlyTightens` | crates/qfc-policy/src/rule_set_policy.rs:299-716 | a deny, cap, window or shape rule added anywhere never moves a decision up the order deny, quorum, allow |
| `PolicyLaws.FrontIsEarly` | crates/qfc-policy/src/rule_set_policy.rs:299-557 | the gates before the limiter decide exactly when the declared decision does not depend on the limiter's answer |
| `PolicyGates.CalendarExactly` | crates/qfc-policy/src/rule_set_policy.rs:238-264 | weekday and hour of an instant are those counted from Monday 2024-01-01 00:00 UTC |
| `PolicyGates.InHoursExactly` | crates/qfc-policy/src/rule_set_policy.rs:238-264 | the window test, in whole seconds, weekday flags and hours |
| `PolicyGates.HourWalk` | crates/qfc-policy/src/rule_set_policy.rs:238-240 | the open hours are those met walking from the start hour to the end hour, around midnight if need be |
| `PolicyGates.DecidesByFields` | crates/qfc-policy/src/rule_set_policy.rs:299-750 | the decision or deny reason of a validated set, gate by gate, in the fields of rules, payload and decoded transaction |
| `PolicyGates.AllowedExactly` | crates/qfc-policy/src/rule_set_policy.rs:277-750 | allowed if and only if no gate objects, no quorum is asked for and the default allows; denied for the chain if and only if a deny rule lists it |
| `PolicyGates.LimiterAfter` | crates/qfc-policy/src/rule_set_policy.rs:562-589 | the limiter gate makes one call per rule on the bucket its scope names, up to the first refusal |
| `PolicyGates.QuorumByFields` | crates/qfc-policy/src/rule_set_policy.rs:667-717 | a quorum decision carries threshold, total and approvers of the first rule that asks for one |
| `PolicyGates.RationaleExactly` | crates/qfc-policy/src/rule_set_policy.rs:277-750 | the rationale is one hit per allow filter passed before the deciding gate, then that gate's own hit |
| `PolicyGates.AllowedTransaction` | crates/qfc-policy/src/rule_set_policy.rs:437-665 | with the EVM decoder wired, an allowed transaction keeps every value cap, gas limit and selector list on its own fields |
| `PolicyGates.ValidatedByFields` | crates/qfc-policy/src/rule_set_policy.rs:108-214 | accepted if and only if the version is 1 and each rule meets its kind's conditions |
| `RateOrder.PassNeedsCaps` | crates/qfc-policy/src/rate_limit.rs:129-161 | whatever the bucket, rules that all pass leave each refilling rule a cap for itself and all rules after it |
| `RateOrder.ScanByScope` | crates/qfc-policy/src/rule_set_policy.rs:562-589 | the limiter gate passes if and only if every scope passes on its own bucket |
| `RateOrder.Differ` | crates/qfc-policy/src/rule_set_policy.rs:562-589 | a scope outside the condition has two orders that some bucket and time tell apart |
| `RateOrder.GateOrderExactly` | crates/qfc-policy/src/rule_set_policy.rs:562-589 | the gate answers alike for every order, limiter state and time if and only if the list is order-blind |
| `RateOrder.DecisionOrderExactly` | crates/qfc-policy/src/rule_set_policy.rs:277-750 | every permutation decides alike in every limiter state and at every time if and only if an earlier gate decides or the list is order-blind |
| `RateOrder.PairOrderExactly` | crates/qfc-policy/src/rule_set_policy.rs:562-589 | the condition for two rules: both or neither allow two tokens, at one rate, or both refill and allow one |
| `PolicyRuns.AloneIsEvaluate` | crates/qfc-policy/src/rule_set_policy.rs:277-750 | the steps of an undisturbed evaluation are the evaluator |
| `PolicyRuns.AdmittedAtMostGrants` | crates/qfc-policy/src/rule_set_policy.rs:562-589 | in any interleaving of limiter calls, each evaluation a window admits was past the rule when the window opened or has a granted call of its own in it |
| `PolicyRuns.AdmissionBound` | crates/qfc-policy/src/rule_set_policy.rs:562-589 | however concurrent evaluations interleave their limiter calls, the requests a window lets past under a key are at most those past the owning rule when it opens plus the limiter's bound |
| `PolicyRuns.ReachedIsSound` | crates/qfc-policy/src/rule_set_policy.rs:562-589 | every reachable state is one a window can open in |
| `PolicyRuns.AdmissionFromStart` | crates/qfc-policy/src/rule_set_policy.rs:562-589 | from no evaluations, the limiter's bound alone |
| `WalletService.DeriveSigningKey` | crates/qfc-enclave/src/enclaves/mock.rs:160-204 | without a path the key is the first 32 seed bytes, for all six schemes; a path gives the derived key, or an error for the post-quantum ones |
| `WalletService.CheckShareParams` | crates/qfc-enclave/src/enclaves/mock.rs:134-158 | sort and dedup find exactly the lists with a repeated index |
| `WalletService.SignInEnclave` | crates/qfc-enclave/src/enclaves/mock.rs:226-295 | the enclave's answer as a function of refusal, shares, scheme, path and message |
| `WalletService.SignedExactly` | crates/qfc-enclave/src/enclaves/mock.rs:287-293 | a response is given if and only if it is the public key and signature over the message of the seed's head or of the key derived at the path |
| `WalletService.GenerateWallet` | crates/qfc-enclave/src/enclaves/mock.rs:330-380 | the exact error, or all shares of a fresh deal and the public key reported for its seed |
| `WalletService.ListShares` | crates/qfc-sss/src/store.rs:120-126 | the stored indices of a wallet, ascending, none missing |
| `WalletService.StoredSharesSign` | crates/qfc-server-wallet/src/service.rs:525-528 | any threshold many stored shares of a wallet give the enclave that wallet's seed |
| `WalletService.SeedSignsUnderMaster` | crates/qfc-enclave/src/enclaves/mock.rs:160-204 | that seed, without a path, signs under the recorded public key |
| `WalletService.StepStaysSound` | crates/qfc-server-wallet/src/service.rs:208-268 | creations, complete or cut short at any write, and deletions keep every stored share genuine and every record true |
| `WalletService.MasterKeyAgreement` | crates/qfc-server-wallet/src/service.rs:208-268 | after any run, any threshold many stored shares sign under the recorded master key or meet a signer error |
| `WalletService.Service.CreateWallet` | crates/qfc-server-wallet/src/service.rs:208-268 | result and new state, for failure at any share write or at the audit write |
| `WalletService.Service.DeleteShare` | crates/qfc-sss/src/store.rs:112-118 | exactly one share is gone and the invariant holds |
| `WalletService.Service.FetchShares` | crates/qfc-server-wallet/src/service.rs:613-633 | the threshold many lowest stored shares, or the exact shortage, or a store error when one of them does not load |
| `WalletService.Service.Sign` | crates/qfc-server-wallet/src/service.rs:525-575 | the exact answer or error at every step; a signature is over the message, by the wallet's seed, and without a path under the recorded master key |
| `SignTrace.StepConsistent` | crates/qfc-server-wallet/src/service.rs:312-611 | each step of a call keeps what it has written in line with where it stands |
| `SignTrace.ConsistentInGrammar` | crates/qfc-server-wallet/src/service.rs:312-611 | wherever a call stands, its events can be completed to a word of the grammar |
| `SignTrace.AttemptedOnlyWhenCleared` | crates/qfc-server-wallet/src/service.rs:348-484 | an attempt comes only after a clearance and with no denial, rejection or timeout in the trace |
| `SignTrace.SignatureNeedsSuccess` | crates/qfc-server-wallet/src/service.rs:577-594 | a returned signature has a complete word that ends in success |
| `SignTrace.AuditLaw` | crates/qfc-server-wallet/src/service.rs:312-611 | all of this for every request in every interleaving of calls, with any audit write failing |
| `SignTrace.SignCall.Decide` | crates/qfc-server-wallet/src/service.rs:297-347 | wallet lookup, request event, evaluation, decision event |
| `SignTrace.SignCall.CollectQuorum` | crates/qfc-server-wallet/src/service.rs:355-483 | cleared exactly by votes without a rejection, each vote written in order |
| `SignTrace.SignCall.SignCleared` | crates/qfc-server-wallet/src/service.rs:487-610 | from clearance through the signed decision and the share fetch to the enclave's answer |
| `SignTrace.SignCall.Sign` | crates/qfc-server-wallet/src/service.rs:288-611 | a signature only in a favourable world, always in one where every audit write goes through; a trace the step relation allows, and without failed writes exactly the one the world calls for |
| `SignTrace.CallTrace` | crates/qfc-server-wallet/src/service.rs:288-611 | on a log that held nothing of the request, what the call wrote is the request's trace |
| `SignTrace.ReachedInGrammar` | crates/qfc-server-wallet/src/service.rs:312-611 | every trace the code leaves is in the grammar |
| `Freshness.DecisionAgeExactly` | crates/qfc-enclave/src/hybrid_verifier.rs:325-339 | saturating subtraction and clamped conversion accept exactly the integer age window |
| `Freshness.ApprovalAgeExactly` | crates/qfc-quorum/src/approval.rs:110-116 | the same for approvals |
| `ApprovalPreimage.LayoutInjective` | crates/qfc-quorum/src/approval.rs:53-74 | the 97 bytes determine both ids, hash, decision and timestamp |
| `ApprovalPreimage.SigningPreimage` | crates/qfc-quorum/src/approval.rs:53-74 | the quorum crate's builder gives the layout |
| `ApprovalPreimage.Verify` | crates/qfc-quorum/src/approval.rs:98-127 | accepts exactly approvals for this request and message, signed within the last hour, with a good signature, and names the first problem of any other |
| `ApprovalPreimage.EnclavePreimage` | crates/qfc-enclave/src/hybrid_verifier.rs:483-498 | the enclave's copy gives the same bytes |
| `ApprovalPreimage.ExamplePreimage` | clients/wallet-grpc-rs/examples/submit_approval.rs:135-159 | the example's copy gives the same bytes, and an unspecified decision matches no layout |
| `ApprovalPreimage.LowBytesValue` | clients/approver-ts/src/preimage.ts:65-74 | n turns of shift and mask leave any integer modulo 256^n, big end first |
| `ApprovalPreimage.WriteTimestamp` | clients/approver-ts/src/preimage.ts:65-74 | the loop writes exactly those eight bytes and nothing else |
| `ApprovalPreimage.BuildSigningPreimage` | clients/approver-ts/src/preimage.ts:40-79 | the exact range errors, and otherwise the Rust layout of the ids' bytes cut to their fields (ASCII ids whole) and the 64-bit value the big integer wraps to |
| `ApprovalStore.MemoryApprovalStore.RecordApproval` | crates/qfc-quorum/src/store/memory.rs:34-58 | outcome, map and index after an undisturbed call |
| `ApprovalStore.MemoryApprovalStore.ListForRequest` | crates/qfc-quorum/src/store/memory.rs:60-76 | the approvals behind the request's index row, in row order |
| `ApprovalStore.RunsStaySound` | crates/qfc-quorum/src/store/memory.rs:34-58 | in every interleaving each map entry is indexed, in flight or dropped, exactly one of these, and no row repeats an approver |
| `ApprovalStore.ListingExact` | crates/qfc-quorum/src/store/memory.rs:60-76 | a listing has one approval per approver, and one for every entry not in flight or dropped |
| `ApprovalStore.ListsAllExactly` | crates/qfc-quorum/src/store/mod.rs:61-65 | a listing is complete if and only if nothing of the request is in flight or dropped |
| `ApprovalStore.OneCallUnlisted` | crates/qfc-quorum/src/store/mod.rs:61-65 | two runs of one call, between its locks and dropped there, whose listing is incomplete |
| `ApprovalStore.RunsExtend` | crates/qfc-quorum/src/store/memory.rs:34-58 | entries never change, rows only grow at their end, drops are final |
| `ApprovalStore.ListingsGrow` | crates/qfc-quorum/src/store/memory.rs:60-76 | a later listing begins with the earlier one |
| `ApprovalStore.ReturnedIsListed` | crates/qfc-quorum/src/store/memory.rs:34-76 | once an inserting call has returned, its approval is in every later listing |
| `ApprovalStore.DroppedStaysUnlisted` | crates/qfc-quorum/src/store/memory.rs:34-58 | a dropped call is on record, never listed, and its retry is told it is already recorded |
| `ApprovalOrder.MapHoldsFirst` | crates/qfc-quorum/src/store/memory.rs:34-58 | in every run the map holds, under each key begun, the approval of the first call for it |
| `ApprovalOrder.RowIsFinishOrder` | crates/qfc-quorum/src/store/memory.rs:34-76 | in every run a row names the approvers of the request's finished calls in the order they finished |
| `ApprovalOrder.EntryOrderExactly` | crates/qfc-quorum/src/store/mod.rs:61-65 | a row is in the order of entry into the map if and only if the finished calls finished in the order they began |
| `ApprovalOrder.FinishOrderCounts` | crates/qfc-quorum/src/store/mod.rs:61-65 | a run whose listing order is not the order of entry into the map |
| `ApprovalOrder.ResubmissionExact` | crates/qfc-quorum/src/store/memory.rs:34-58 | in every run a later call for a key changes nothing, whatever it carries, and is refused if and only if its id differs from the first call's |
| `ApprovalOrder.FlippedIsAlreadyRecorded` | crates/qfc-quorum/src/store/mod.rs:26-29 | a run in which a flipped decision under the same id is answered as recorded while the first stays listed |
| `HybridVerifier.BuildPreimage` | crates/qfc-policy/src/signed_decision.rs:76-98 | domain, decision text and the fixed-width trailer |
| `HybridVerifier.DecisionPreimageInjective` | crates/qfc-policy/src/signed_decision.rs:76-98 | the preimage determines decision text, both ids, timestamp and age |
| `HybridVerifier.SignDecision` | crates/qfc-policy/src/policy_service_signer.rs:136-161 | the signed bundle, or none when the clock does not fit |
| `HybridVerifier.CheckHardCeilings` | crates/qfc-enclave/src/hybrid_verifier.rs:356-420 | passes exactly the payloads within chain list, target list and value cap, and names the first limit broken |
| `HybridVerifier.CapMeansCanonical` | crates/qfc-enclave/src/hybrid_verifier.rs:395-417 | under a cap, a passing EVM payload is the canonical encoding of an envelope whose own value is within the cap |
| `HybridVerifier.CeilingsExactly` | crates/qfc-enclave/src/hybrid_verifier.rs:356-420 | the limits are met if and only if the payload's chain and recipient are listed and its bytes are a transaction that moves at most the cap |
| `HybridVerifier.DecodedWithinExactly` | crates/qfc-enclave/src/hybrid_verifier.rs:356-420 | passing the lists puts the decoded recipient and chain on them, for every wallet, if and only if the payload names what its bytes decode to |
| `HybridVerifier.UnnamedRecipientPasses` | crates/qfc-enclave/src/hybrid_verifier.rs:356-420 | any signed transaction, in a payload that names no recipient, passes a list that lacks its recipient |
| `HybridVerifier.CheckApproval` | crates/qfc-enclave/src/hybrid_verifier.rs:438-466 | one approval passes exactly when it approves this message, fresh and genuine; otherwise its first problem is reported |
| `HybridVerifier.CheckApprovals` | crates/qfc-enclave/src/hybrid_verifier.rs:422-476 | passes exactly when all supplied approvals do and there are threshold many; otherwise the first bad approval or the shortage is reported |
| `HybridVerifier.MessageExactly` | crates/qfc-enclave/src/hybrid_verifier.rs:515-521 | what is signed and approved is the payload's bytes, the JSON text for typed data and the raw transaction for a transaction |
| `HybridVerifier.ApprovalBinds` | crates/qfc-enclave/src/hybrid_verifier.rs:438-466 | an approval that approves two requests names one request id, and shows one message or a hash collision |
| `HybridVerifier.DistinctApproversExactly` | crates/qfc-enclave/src/hybrid_verifier.rs:437-473 | every counted quorum comes from threshold many keys if and only if the threshold is at most one or above what a call may carry, or nobody approves |
| `HybridVerifier.CopiesCount` | crates/qfc-enclave/src/hybrid_verifier.rs:437-473 | one good approval counts once per copy |
| `HybridVerifier.CheckBinding` | crates/qfc-enclave/src/hybrid_verifier.rs:284-339 | passes exactly canonical, genuine, bound and fresh decisions, and names the first failure in exact integers |
| `HybridVerifier.Verify` | crates/qfc-enclave/src/hybrid_verifier.rs:256-354 | accepts if and only if the exact-integer specification holds, and reports the failure of the first step that fails |
| `HybridVerifier.AcceptsByFields` | crates/qfc-enclave/src/hybrid_verifier.rs:256-354 | the whole acceptance in raw fields: bytes signed, lengths, ids, ages in seconds, decision and votes |
| `HybridVerifier.SignedDecisionsAccepted` | crates/qfc-policy/src/policy_service_signer.rs:136-161 | what the policy service signs is accepted if and only if it is fresh, permits the request, and the ceilings are met |
| `SignFlow.QuorumIsRefused` | crates/qfc-server-wallet/src/service.rs:553-575 | without approvals no signed quorum decision of threshold one or more is accepted |
| `SignFlow.EvaluatedQuorumIsRefused` | crates/qfc-server-wallet/src/service.rs:553-575 | so no quorum decision of a validated rule set is |
| `SignFlow.SignDecided` | crates/qfc-server-wallet/src/service.rs:487-594 | signing from the decision on: a signature is over the payload's own message and, under a value cap, over a canonical transaction within it; who gets one, under which key, and the exact answer when nothing stops the call |
| `SignFlow.SignAudited` | crates/qfc-server-wallet/src/service.rs:288-611 | answer and trace together: without failed audit writes the trace is the one the world calls for, a signature leaves the call exactly when the enclave gave one, and a gathered quorum with signer and pinned key and loaded shares ends in a complete failed signing |
| `HdPath.ChildIndexExactly` | crates/qfc-wallet-types/src/hd_path.rs:29-34 | two segments derive the same child if and only if low bits and top bit agree |
| `HdPath.ChildIndexBits` | crates/qfc-wallet-types/src/hd_path.rs:29-34 | the low bits are the index's; the top bit is set if and only if the segment is hardened or its index has it |
| `HdPath.Display` | crates/qfc-wallet-types/src/hd_path.rs:89-97 | the printed form |
| `HdPath.FromStr` | crates/qfc-wallet-types/src/hd_path.rs:99-143 | the parsed path or the first error |
| `HdPath.SegmentExactly` | crates/qfc-wallet-types/src/hd_path.rs:114-140 | a segment parses if and only if it is a spelling of an in-range segment |
| `HdPath.PrintThenParse` | crates/qfc-wallet-types/src/hd_path.rs:43-143 | printing then parsing gives the path back if and only if every index is below 2^31 |
| `HdPath.UsualSpelling` | crates/qfc-wallet-types/src/hd_path.rs:78-143 | a path in its usual text, printed and read back |
| `HdPath.WidePathIsLost` | crates/qfc-wallet-types/src/hd_path.rs:130-134 | a one-segment path whose text does not parse |
| `HdPath.ParseExactly` | crates/qfc-wallet-types/src/hd_path.rs:99-143 | a text parses to a path if and only if it spells it, over head letter, plus sign, leading zeros, mark and depth |
| `HdPath.NormalForm` | crates/qfc-wallet-types/src/hd_path.rs:89-143 | the printed form of a parsed text parses to the same path, and texts agree exactly when their normal forms do |

## Left out

- vsss-rs: modelled as the module documentation describes it (a random polynomial of degree threshold minus one, the one-based id as x-coordinate, interpolation at zero); its own sources are not part of this model.
- alloy-rlp: its header decoder is modelled from Appendix B of the Ethereum Yellow Paper.
- The group order of secp256k1: any prime between 256^31 and 256^32 stands for it.
- SHA-256, Keccak, ed25519, secp256k1, ML-DSA, HMAC: uninterpreted functions.
- JSON text, hex text and decimal parsing in policies: uninterpreted functions; JSON lines are assumed to read back and to hold no newline.
- f64 rounding in the limiter: tokens are exact reals.
- Clock arithmetic in the limiter: times are unbounded integers, so an i64 overflow of the difference of two clock reads is not modelled.
- The development build's overflow check on `v`: the model wraps, as a release build does.
- The clock within one evaluation: `Evaluated` reads it per rule, so two equal rules read the same time; `RateOrder` takes one reading per evaluation; `PolicyRuns` leaves every read free.
- UTF-16: a text here is a sequence of Unicode scalars, while the TypeScript client's `length` counts UTF-16 units, so ids outside the basic plane have other lengths there.
- Decision ids, policy ids and the prose reason of each rule hit: a decision carries its variant, reason, quorum data and rule ids.
- Torn writes of the audit file: a line reaches the file whole or not at all.
- SQL columns for actor, request id and wallet id: the Postgres model keeps events whole, apart from the kind byte.
- Retries of a Postgres emit, and failures of the database other than abort.
- HD derivation itself: a function of scheme, seed and path.
- Hash algorithm choice per scheme and attestation documents in the enclave's answer: they do not affect the key.
- CreateWallet: a new wallet id is assumed to name no wallet and no share yet, as a fresh ULID does.
- Collection of approvals, the approver registry and the orchestrating approver: their answers are free in `SignTrace`.
- Other events of the service (wallet creation, policy changes): they carry no signing request's trace.
- `static_policy.rs`: a smaller sibling of the rule evaluator with the same shape.
- X.509, CBOR and COSE attestation checking, HTTP, gRPC, vsock, webhooks, command lines, metrics and client conversions: plumbing without an invariant of this kind.
- Zeroization and constant-time comparison: not visible in a functional model.
