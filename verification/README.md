# Sonari verification

A Dafny model of the logic that Sonari's money and identity depend on, with proofs that Dafny checks. It covers:

- **Merkle commitment of affected cells.** The level-by-level tree of the Python reference checkers, its proofs,
  and the dapp's acceptance of a proof for a claim (`MerkleTree`, `MerkleProofs`, `AffectedCells`, `LeafLayout`).
  SHA-256 is a parameter `H: Bytes -> Digest`; a collision is two different preimages that the lemma hands over.
- **Canonical encodings and texts.** BCS fields and ULEB128 lengths, the signed payload, the World ID duplicate
  key, shell quoting, the donation amount parser and the Published.toml rewriter and reader (`FieldCodec`,
  `SignedPayload`, `PayloadLayout`, `BlankHashes`, `WorldIdKey`, `NullifierSpelling`, `ShellQuoting`,
  `DonationAmount`, `TomlFields`, `PublishedToml`, `NestedSections`, and `TomlCounterexamples` with files that the
  rewriter mishandles).
- **Concurrent protocols.** The runner lease as a step relation over one row, with any number of invocations, a
  clock, lost answers and retries (`RunnerLease`, `LeaseProtocol`), and the upload worker pool (`UploadPool`).
- **Paging.** Backward pages of an event log as the dashboard reads them, and the publish-event loop against a
  server that may lie (`EventPaging`, `PublishEvents`).
- **Money and rounds.** The contract's claim entry with its round finalisation, the dapp's eligibility set against
  it, whole runs of a campaign, the floor budget over them, the amounts paid, and compact dollars
  (`CampaignContract`, `ClaimEligibility`, `ClaimRuns`, `FloorRuns`, `CampaignAmounts`, `CompactDollars`).

`Prelude`, `Decimal`, `Hex`, `Utf8`, `Joining` and `JsText` hold what these share. Code of the source that loops or
updates state is a method, proved against a specification function. The lease table, the process environment and
the worker pool are classes. Concurrent runs, and the campaign with its entries, are step functions on values, so
that statements about whole runs can be made.

The helpers the dapp and the runner import are in the repository and are modelled from there:
`packages/proof-core/src/merkle.ts:11-104`, `packages/proof-core/src/schema.ts:77-82`,
`packages/proof-core/src/affected-cell-leaf.ts:89-149`, `nautilus/verifiers/common/contracts/src/index.ts:77-121`,
`contracts/sources/affected_cell.move:26-129` and `contracts/sources/campaign.move`.

## Where the code does less than it seems to promise

Each is proved: a lemma shows it, and another says exactly when the code does keep the promise.

- `hex_bytes` measures the text of a hash, while `bytes.fromhex` skips blanks. Every contract-valid payload with a
  hash text that is not 64 hex digits has a contract-valid twin, different in its hash texts alone, signed as the
  same bytes; no other payload has one (`BlankHashTwin`, `TwinIffNotPlain`). Two payloads are sure to be told apart
  when both have plain hash texts (`PayloadBytesUnique`); the check has to be made on both sides, because a plain
  payload can share its bytes with one that is not (`PlainAndBlankCollide`). It does exactly if its bytes can be read
  to a contract-valid payload with some hash shorter than 32 bytes (`PlainIsUniqueIff`).
- The `return` in the `finally` of `withDomainNitroCommand` replaces the handler's result or error exactly when the
  shared variable was unset and a domain command was configured (`CompletionKeptIffSet`). A failed start then keeps
  its lease (`OnlyTheseRelease`).
- A dispatch can begin under a lease the invocation no longer has: it stalls after its answered write for longer
  than the lease lasts (`StalledInvocationBeginsLate`). Whatever dispatch begins during an owner's, that owner's
  lease has been lost since its last grant exactly if the row does not name it at that moment (`BeginAfterLossIff`).
  A dispatch that begins under its own row comes after such a loss (`BeginUnderOwnRow`).
- A payout the dapp offers need not be paid. In every run of a created campaign, and whatever evidence the claim
  brings, it is paid exactly if the campaign is open, the recipient is not stalled, and the floor offered with it, if
  one is, is funded and the identity for it verified (`PayoutIsPaidIff`, and `AnnouncedPayoutIsPaidIff` for what the
  reader shows). Each of the four fails in some run: the campaign has been swept (`SweptOfferExample`), the pool is
  too small to open the next round (`StalledOfferExample`, again and again by `StalledOfferRepeats`), the floor budget
  is short (`FloorUnfundedExample`), the identity has lapsed (`IdentityLapsedExample`). The floor budget is never short
  while no band has more recipients than the census counted (`CensusCoversFloors`). A payout alone asks for no identity
  and no leaf. With other periods than the ones created, a first claim that itself opens a round is paid without having
  been offered, and that is the only other way the offer and the claim part (`UnofferedPayoutIsPaidIff`,
  `PayoutAgreesUnlessPartsWays`).
- A list whose event uid is written with capitals or blanks is accepted by the checker, and every response about it is
  refused by the dapp; with lower-case digits every honest response is accepted (`HonestResponseAccepted`).
- The sweep's time limit is there so that money never gets stuck. It does without a census: the sweep needs the floor
  budget returned, and the return needs a census, which comes too late after the donations (`StuckExample`). What is
  left can still be swept exactly if it was swept, was counted, or can still be counted (`SweepableIff`).
- `TextEncoder` turns every lone surrogate into U+FFFD, so ill-formed relying parties share keys
  (`LoneSurrogatesCollide`). On what the encoder keeps, the key is exact (`KeyDeterminesInputs`).
- The Published.toml rewriter loses an id when the old `original-id` value is not closed on its own line and runs
  over the `published-at` key (`SwallowedIdIsNotRead`); there is a file from which no id is read after any rewrite
  (`SwallowingFileLosesEveryId`). Otherwise the last rewrite wins; and where a key is swallowed it does only for the
  same id again, if the next `published-at` value is that id already (`LastRewriteWins`).
- The rewriter means to leave other networks alone. The rewrites of two networks leave each other's sections as they
  are exactly where the sections are apart (`RewritesSpareIffApart`), as they are when both headers open a line
  (`OwnLinesAreApart`). Sections that are apart can be rewritten in either order (`RewritesCommute`); where quoted
  values close on their lines, the rewrites of any two commute exactly if they write the same id or no value is written
  by both (`RewritesCommuteIff`). There is a file where the order matters (`OverlappingRewritesDoNotCommute`).

## Model

| member | source | states |
|---|---|---|
| MerkleTree.BuildNextLevel | schemas/examples/verify_golden_vectors.py:317-325 | The inner loop pairs neighbours in order and carries a lone last node up unchanged. |
| MerkleTree.MerkleRoot | schemas/examples/verify_golden_vectors.py:314-326 | The loop ends with the specified root, and fails on the empty list. |
| MerkleTree.MerkleLevels | schemas/examples/verify_residence_allowlist_vectors.py:90-104 | The residence checker's loop collects exactly the specified levels, and fails on the empty list. |
| MerkleTree.RootSplits | schemas/examples/verify_golden_vectors.py:314-326 | The level-by-level root of a list longer than a power of two hashes the roots of its two parts. |
| MerkleTree.RootIsRfc6962 | schemas/examples/verify_golden_vectors.py:314-326 | For every non-empty list the root is the tree hash of section 2.1 of RFC 6962, split at the largest power of two below n. |
| MerkleTree.LevelsEndAtRoot | schemas/examples/verify_residence_allowlist_vectors.py:90-104 | The last level holds one node, the root the other checker computes. |
| MerkleTree.HeightBounds | schemas/examples/verify_residence_allowlist_vectors.py:90-104 | The number of levels above the leaves is the h with 2^(h-1) < n <= 2^h, and 0 for one leaf. |
| MerkleProofs.ReplayProof | schemas/examples/verify_golden_vectors.py:329-339 | The replay loop folds the steps from the leaf up. |
| MerkleProofs.ProofSteps | packages/proof-core/src/merkle.ts:76-104 | The siblings are read off the levels, and an index out of range fails. |
| MerkleProofs.ProofReplaysToRoot | schemas/examples/verify_residence_allowlist_vectors.py:136-169 | For every leaf the siblings read off the levels replay to the root. |
| MerkleProofs.PromotedLevelsForLeaf | schemas/examples/verify_residence_allowlist_vectors.py:120-133 | The loop returns the promoted levels of the specification. |
| MerkleProofs.PromotedLevelsExact | schemas/examples/verify_residence_allowlist_vectors.py:120-133 | A level is reported exactly when the leaf's ancestor there is a lone node. |
| MerkleProofs.PromotedLevelsAscend | schemas/examples/verify_residence_allowlist_vectors.py:120-133 | Promoted levels are reported once each, in ascending order, all at or above the start. |
| MerkleProofs.StepsAndPromotionsFillHeight | schemas/examples/verify_residence_allowlist_vectors.py:120-169 | Proof steps and promotions of a leaf together are the height of the tree. |
| MerkleProofs.ValidateOddPromotion | schemas/examples/verify_residence_allowlist_vectors.py:107-117 | The check passes exactly on levels where every odd level's last node reappears unchanged and some odd level occurs. Otherwise the fault is the one of the first level that breaks this, by its number or by the empty level above it, or that no level is odd. |
| MerkleProofs.LevelsPromoteUnchanged | schemas/examples/verify_residence_allowlist_vectors.py:90-117 | The levels the checker builds always carry a lone last node up unchanged. |
| MerkleProofs.OddPromotionSeenIffNotPow2 | schemas/examples/verify_residence_allowlist_vectors.py:107-117 | Over the levels of any non-empty list an odd promotion occurs exactly when the leaf count is not a power of two. |
| MerkleProofs.InclusionSound | schemas/examples/verify_golden_vectors.py:314-339 | Steps of any number that replay a leaf to the root of a list prove the leaf is in the list, or give two different preimages of one hash; leaf and inner nodes cannot be confused otherwise. |
| AffectedCells.LeafBytesDetermineEntry | schemas/examples/verify_golden_vectors.py:297-311 | Two leaves with the same bytes agree in every field, the event hash up to its spelling. |
| AffectedCells.AcceptedProofIsListEntry | dapp/app/claim/affected-cells-proof.ts:172-209 | A response that passes parsing, replay and the context check against the root of an accepted list carries exactly the list's one entry for the home cell, band and intensity included, or a collision is shown. |
| AffectedCells.HonestResponseAccepted | dapp/app/claim/affected-cells-proof.ts:358-376 | For every entry of an accepted list the response read off the levels is accepted, with that entry as its leaf and matching the claim of a pass in that cell, exactly if the list writes its event uid as lower-case digits; it is refused as invalid otherwise. |
| AffectedCells.MoveAgreesWithDapp | dapp/app/claim/affected-cells-proof.ts:211-239 | The arguments built for Move hash and replay in the contract to what the dapp hashed and replayed. |
| LeafLayout.SerializedLayout | packages/proof-core/src/affected-cell-leaf.ts:89-149 | The dapp serialises exactly the leaves with a lower-case 32-byte uid and numbers within their widths, to 59 bytes: the uid, the numbers little-endian at their places, 1 for the metric and the scale, and 1, 2 or 3 for the way the cells were generated. |
| LeafLayout.CheckedLayout | schemas/examples/verify_golden_vectors.py:297-311 | The checker writes the same bytes for every hash text that stands for 32 bytes. |
| LeafLayout.MoveArgsAre | dapp/app/claim/affected-cells-proof.ts:211-228 | The arguments for Move are the same numbers, with 1 for the metric and the scale, and 1, 2 or 3 for the way the cells were generated. |
| LeafLayout.MoveStepsAre | dapp/app/claim/affected-cells-proof.ts:230-239 | Each proof step becomes the left or the right constructor by the side of its sibling, with the bytes its hash text prints. |
| LeafLayout.ReadsExactlyPrinted | dapp/app/claim/affected-cells-proof.ts:392-515 | A response is read as a proof exactly if it is the one JSON value that says what the proof says, and the proof is readable: reading and printing are inverse. |
| LeafLayout.MatchesOneContext | dapp/app/claim/affected-cells-proof.ts:172-209 | A proof that was read matches exactly one claim context; one field that differs is enough to refuse it. |
| LeafLayout.ResponseOutcome | dapp/app/claim/affected-cells-proof.ts:358-376 | A response is refused as invalid exactly if it is no readable proof, and throws exactly if the leaf does not fit its widths. |
| Hex.HexToByteArray | dapp/app/claim/affected-cells-proof.ts:529-535 | The loop reads the 32 bytes the text stands for. |
| Hex.Hex32RoundTrip | packages/proof-core/src/schema.ts:77-82 | On accepted hash texts, text and bytes determine each other. |
| LeafLayout.Hex32Iff | packages/proof-core/src/schema.ts:77-82 | A hash text is accepted exactly if it is the printed form of 32 bytes. |
| Hex.PairIsByte | schemas/examples/verify_golden_vectors.py:148-151 | A pair of digits is a byte, the first digit worth sixteen times its own. |
| Hex.SkippedBlanks | schemas/examples/verify_golden_vectors.py:148-151 | Between the pairs exactly the six ASCII blanks are skipped. |
| FieldCodec.EncodeUleb128 | schemas/examples/verify_golden_vectors.py:191-197 | The loop writes the specified ULEB128 bytes. |
| FieldCodec.UlebRoundTrip | schemas/examples/verify_golden_vectors.py:191-197 | Reading after writing gives the value and the rest back (section 7.6 of DWARF 4). |
| FieldCodec.UlebMinimal | schemas/examples/verify_golden_vectors.py:191-197 | No byte string that reads as the value is shorter. |
| FieldCodec.UlebPrefixFree | schemas/examples/verify_golden_vectors.py:191-197 | The encoding of one value is a prefix of another's only if the values are equal. |
| FieldCodec.DecodeOfEncode | schemas/examples/verify_golden_vectors.py:200-218 | Decoding any list of in-range fields gives it back, whatever follows. |
| FieldCodec.EncodeOfDecode | schemas/examples/verify_golden_vectors.py:200-218 | Whatever decodes was the encoding of the fields it decoded to, followed by the rest: one byte form each. |
| SignedPayload.PayloadDecodesIffPlain | schemas/examples/verify_golden_vectors.py:248-279 | The bytes of a contract-valid payload are read back to it by the layout, up to the letter case of its hashes, exactly when its hash texts are plain hex. |
| SignedPayload.PayloadBytesUnique | schemas/examples/verify_golden_vectors.py:342-364 | Two contract-valid payloads with plain hashes are signed as the same bytes exactly when they differ at most in that letter case. |
| SignedPayload.BlankHashTwin | schemas/examples/verify_golden_vectors.py:148-151 | Every contract-valid payload with a hash text that is not plain has a contract-valid twin, different in its hashes alone and beyond letter case, with the same signed bytes. |
| SignedPayload.TwinIffNotPlain | schemas/examples/verify_golden_vectors.py:148-151 | A contract-valid payload has such a twin exactly when its hash texts are not all plain. |
| SignedPayload.PlainAndBlankCollide | schemas/examples/verify_golden_vectors.py:248-279 | A payload with plain hashes and one without, both contract-valid and different in event and region, are signed as the same bytes. |
| BlankHashes.SomeBlankPayloadIff | schemas/examples/verify_golden_vectors.py:248-279 | Bytes are those of a contract-valid payload with a hash text that is not plain exactly if they read to a contract-valid payload with some hash shorter than 32 bytes. |
| BlankHashes.PlainIsUniqueIff | schemas/examples/verify_golden_vectors.py:342-364 | The signed bytes of a payload with plain hashes belong to no other contract-valid payload, letter case aside, exactly if they do not read so. |
| SignedPayload.EventUidPreimageInjective | schemas/examples/verify_golden_vectors.py:282-294 | The hashed bytes of an event identifier determine all four inputs. |
| PayloadLayout.NumbersAlone | schemas/examples/verify_golden_vectors.py:248-275 | Each number of a valid payload can be changed exactly within its range. |
| PayloadLayout.TimesTogether | schemas/examples/verify_golden_vectors.py:276-279 | The two times can be changed exactly so that the deadline is six hours after the verification and both fit 64 bits. |
| PayloadLayout.TextsAlone | schemas/examples/verify_golden_vectors.py:253-274 | Each text can be changed exactly within its bounds in UTF-8 bytes, and each hash text to whatever reads as bytes. |
| PayloadLayout.PayloadIs | schemas/examples/verify_golden_vectors.py:342-364 | The signed bytes of a payload, written out piece by piece in their order, exist exactly where the hash texts read as bytes and the numbers fit their widths. |
| PayloadLayout.EventUidIs | schemas/examples/verify_golden_vectors.py:282-294 | The hashed bytes of an event identifier, written out, exist exactly where numbers and lengths fit. |
| WorldIdKey.CanonicalIffSameValue | dapp/app/claim/claim-identity.ts:41-54 | Two accepted nullifiers are written alike exactly when they are the same number. |
| WorldIdKey.CanonicalIsIdempotent | dapp/app/claim/claim-identity.ts:41-54 | Writing a canonical nullifier again changes nothing. |
| WorldIdKey.DecimalSpelling | dapp/app/claim/claim-identity.ts:50-52 | Any digit string is a nullifier of its decimal value. |
| WorldIdKey.HexSpelling | dapp/app/claim/claim-identity.ts:47-49 | Either hex prefix with digits of either case is a nullifier of its hex value. |
| WorldIdKey.LeadingZerosIgnored | dapp/app/claim/claim-identity.ts:47-52 | Zeros in front of the digits change neither value. |
| Joining.SplitOfJoin | dapp/app/claim/claim-identity.ts:94-101 | Joining any number of separator-free parts is undone by splitting. |
| WorldIdKey.SameBytesIffSameParts | dapp/app/claim/claim-identity.ts:94-101 | Two lists of NUL-free parts are hashed from the same bytes exactly when the encoder keeps the same of each part. |
| WorldIdKey.KeyDeterminesInputs | dapp/app/claim/claim-identity.ts:28-39 | Two accepted inputs give the same preimage exactly when the encoder keeps the same of relying party and action, and the nullifiers are the same number. |
| WorldIdKey.KeyInjectiveOnWellFormed | dapp/app/claim/claim-identity.ts:28-39 | On well-formed texts that means equal relying party, action and number. |
| WorldIdKey.LoneSurrogatesCollide | dapp/app/claim/claim-identity.ts:28-39 | Two relying parties that differ in a lone surrogate share every preimage. |
| WorldIdKey.SchemeIsGood | dapp/app/claim/claim-identity.ts:28-39 | The fixed scheme text is itself an accepted part. |
| NullifierSpelling.NullifierGrammar | dapp/app/claim/claim-identity.ts:41-54 | Exactly the texts of decimal digits, and of hexadecimal digits behind `0x` or `0X`, are nullifiers, code unit by code unit. |
| NullifierSpelling.DigitIsWorth | dapp/app/claim/claim-identity.ts:47-49 | The worth of each hexadecimal digit, in both cases. |
| NullifierSpelling.HexConcat | dapp/app/claim/claim-identity.ts:47-49 | Each hexadecimal digit further left is worth sixteen times as much. |
| NullifierSpelling.SpellingsOfNumber | dapp/app/claim/claim-identity.ts:41-54 | Every number is written in decimal whichever way it was spelt: decimal or hexadecimal, either prefix, either case, any zeros in front. |
| NullifierSpelling.WellFormedIff | dapp/app/claim/claim-identity.ts:28-39 | The well-formed texts are exactly those that scalar values are written as. |
| NullifierSpelling.FirstScalarIs | dapp/app/claim/claim-identity.ts:28-39 | What the encoder makes of a surrogate pair, of a lone surrogate, and of any other code unit. |
| NullifierSpelling.PreimageLayout | dapp/app/claim/claim-identity.ts:28-39 | The key is refused for an empty part, a NUL, or a text that is no nullifier, and for nothing else; its bytes are UTF-8 of scheme, relying party, action and decimal nullifier, in this order, with a NUL between them. |
| ShellQuoting.SplitOfShellJoin | scripts/build_aws_membership_identity_eif.ts:267-276 | Splitting the joined command by the shell's rules (sections 2.2.1, 2.2.2 and 2.3 of the POSIX.1-2017 Shell Command Language) gives back exactly the arguments, for every list. |
| ShellQuoting.BareOrQuoted | scripts/build_aws_membership_identity_eif.ts:271-276 | Exactly the non-empty words of safe characters are written as they are, and any other stands in quotes. |
| DonationAmount.CommasMatch | dapp/app/donate/donate-amount.ts:84-92 | Grouping any digits by thousands gives a text the pattern matches, and removing the commas gives the digits back. |
| DonationAmount.MatchIsCommas | dapp/app/donate/donate-amount.ts:84-92 | The pattern matches nothing but digits grouped by thousands. |
| DonationAmount.GrammarIsParsed | dapp/app/donate/donate-amount.ts:25-82 | Every text of the amount grammar is answered by its value alone: zero, overflow, or that value. |
| DonationAmount.ParsedIsGrammar | dapp/app/donate/donate-amount.ts:25-82 | Whatever is accepted, or refused only for its size, is a text of the grammar. |
| DonationAmount.AcceptsExactlyTheGrammar | dapp/app/donate/donate-amount.ts:25-82 | An input is accepted at a value exactly when it is a text of the grammar of that value, between 1 and 2^64-1 millionths. |
| DonationAmount.RenderRoundTrip | dapp/app/donate/donate-amount.ts:25-82 | The plain and the grouped rendering of every amount, with or without `$`, parse back to it. |
| DonationAmount.EmptyIff | dapp/app/donate/donate-amount.ts:25-29 | An input is called empty exactly if it is white space. |
| DonationAmount.NegativeIff | dapp/app/donate/donate-amount.ts:31-38 | It is called negative exactly if its amount, behind padding and one dollar sign, begins with a minus sign. |
| DonationAmount.TooManyDecimalsIff | dapp/app/donate/donate-amount.ts:40-54 | It is said to have too many decimals exactly if its amount has one point, more than six characters behind it, and does not begin with a minus sign. |
| JsText.TrimParts | dapp/app/donate/donate-amount.ts:26-31 | Trimming takes white space off both ends and nothing else. |
| JsText.SpaceCodes | dapp/app/donate/donate-amount.ts:26-31 | The characters that are trimmed, by their code points (sections 12.2 and 12.3 of ECMA-262). |
| TomlFields.FoundIsMatch | scripts/republish_contracts_bootstrap.ts:287-298 | What the search finds is a match of the field pattern. |
| TomlFields.FoundIsLeftmost | scripts/republish_contracts_bootstrap.ts:287-298 | No match of the field pattern opens its value earlier than the one the search finds. |
| TomlFields.ReadsFirstFilled | scripts/resolve_published_contract_ids.ts:100-101 | The reader gives a value exactly if it is the first one of a match of the pattern that is not empty. |
| TomlFields.ReplaceChangesValueOnly | scripts/republish_contracts_bootstrap.ts:287-298 | Replacing a field leaves everything before and after its leftmost quoted value. |
| TomlFields.ReadAfterRewriteBody | scripts/republish_contracts_bootstrap.ts:281-282 | A section read after its rewrite names the new id, or, where the old `original-id` value swallows the key, whatever is named after it. |
| TomlFields.ClosedValuesAreNotSwallowed | scripts/republish_contracts_bootstrap.ts:287-298 | Where quoted values close on their own line nothing is swallowed. |
| TomlFields.LastRewriteWinsBody | scripts/republish_contracts_bootstrap.ts:281-282 | In a section, rewriting twice, with any two ids, is rewriting once with the last exactly when no key is swallowed, or both ids are the same and the next value after the key is that id already. |
| PublishedToml.RewriteTouchesSectionOnly | scripts/republish_contracts_bootstrap.ts:260-285 | The text outside the network's section is unchanged, and the section is found again in its place with the rewritten body. |
| PublishedToml.ReadAfterRewrite | scripts/resolve_published_contract_ids.ts:94-107 | Reading a network after rewriting it with a 32-byte id returns that id, unless the section swallows its key. |
| PublishedToml.SwallowedIdIsNotRead | scripts/resolve_published_contract_ids.ts:94-107 | Where it does, of two different ids at most one is read back. |
| TomlCounterexamples.SwallowingFileLosesEveryId | scripts/republish_contracts_bootstrap.ts:287-298 | A file whose section swallows its key: every rewrite of it with a 32-byte id succeeds, and no id is read from it afterwards. |
| PublishedToml.LastRewriteWins | scripts/republish_contracts_bootstrap.ts:260-285 | Rewriting a file twice, with any two ids, equals rewriting it with the last exactly in the same cases. |
| PublishedToml.RewritesCommute | scripts/republish_contracts_bootstrap.ts:260-285 | Rewriting two networks whose sections are apart gives the same file in either order. |
| PublishedToml.RewritesSpareIffApart | scripts/republish_contracts_bootstrap.ts:258-285 | The rewrites of two different networks leave each other's sections unchanged, whatever the ids, exactly where the sections are apart. |
| PublishedToml.OwnLinesAreApart | scripts/republish_contracts_bootstrap.ts:267-275 | The sections of two different networks whose headers open a line are apart. |
| NestedSections.RewritesCommuteIff | scripts/republish_contracts_bootstrap.ts:260-285 | Where quoted values close on their lines, the rewrites of two different networks give the same file in either order exactly if the ids are the same or no value is written by both. |
| TomlCounterexamples.OverlappingRewritesDoNotCommute | scripts/republish_contracts_bootstrap.ts:267-275 | A file with one header inside the section of the other, where the order of two successful rewrites decides the outcome. |
| PublishedToml.RewriteFailsIff | scripts/republish_contracts_bootstrap.ts:260-298 | A rewrite fails for a bad id, for a header that stands nowhere, or for a missing field, each exactly then. |
| PublishedToml.IdCharacters | scripts/republish_contracts_bootstrap.ts:529-533 | Which ids are taken, character by character. |
| PublishedToml.ReadGives | scripts/resolve_published_contract_ids.ts:94-108 | A network's id is read exactly if its section has a value of `published-at` that is not empty and the first such value, once trimmed, is a 32-byte id; the value is given back as it stands. |
| PublishedToml.NetworkIs | scripts/resolve_published_contract_ids.ts:315-317 | The network is read without its padding, and is the test network where nothing is left. |
| TomlCounterexamples.PlainFileRewritten | scripts/republish_contracts_bootstrap.ts:260-298 | A plain file, written out, before and after its rewrite. |
| RunnerLease.LeaseTable.Acquire | scripts/build_aws_sonari_verifier_runner_lambda.ts:214-232 | The conditional update succeeds exactly when there is no row, the owner's own row, or one expired strictly before now, and writes the row. |
| RunnerLease.LeaseTable.Release | scripts/build_aws_sonari_verifier_runner_lambda.ts:234-253 | The conditional delete removes exactly the owner's own row. |
| RunnerLease.Environment.WithDomainNitroCommand | scripts/build_aws_sonari_verifier_runner_lambda.ts:273-289 | The callback's completion as `finally` leaves it, with the environment restored whatever happened. |
| RunnerLease.CompletionKeptIffSet | scripts/build_aws_sonari_verifier_runner_lambda.ts:273-289 | The callback's completion survives exactly when the shared variable was set beforehand. |
| RunnerLease.LeaseOwnerInjective | scripts/build_aws_sonari_verifier_runner_lambda.ts:63-66 | Two invocations share a lease owner exactly when they are the same attempt at the same workflow, colons in ids included. |
| RunnerLease.CommandUsed | scripts/build_aws_sonari_verifier_runner_lambda.ts:273-302 | The domain handler gets the command of its own variable, or of the shared one; a missing or empty command is refused by the name of the variable. |
| RunnerLease.EventRequest | scripts/build_aws_sonari_verifier_runner_lambda.ts:103-150 | Which events are requests, and for what: by the text of the kind, of the action, and the id field that kind reads. |
| RunnerLease.LeaseOwnerText | nautilus/verifiers/common/contracts/src/index.ts:87-96 | A lease owner is the kind, the id and the attempt, with colons between them. |
| RunnerLease.Handle | scripts/build_aws_sonari_verifier_runner_lambda.ts:63-89 | The result and the row after one undisturbed call, for every action, refusal and throw. |
| LeaseProtocol.OwnerLostIffLoses | scripts/build_aws_sonari_verifier_runner_lambda.ts:206-253 | A step takes the row from its owner exactly if it is a release under its name, or an acquire strictly after its expiry. |
| LeaseProtocol.LeaseLostBetween | scripts/build_aws_sonari_verifier_runner_lambda.ts:206-253 | If the owner no longer has the row, some step in between lost it that way. |
| LeaseProtocol.ReleaseSparesOthers | scripts/build_aws_sonari_verifier_runner_lambda.ts:234-253 | No release removes another owner's row, whatever becomes of its answer. |
| LeaseProtocol.OverlapNeedsLoss | scripts/build_aws_sonari_verifier_runner_lambda.ts:63-89 | In every interleaving, two owners hold at once only if the earlier one's lease was lost before the later one acquired. |
| LeaseProtocol.LostIffGone | scripts/build_aws_sonari_verifier_runner_lambda.ts:206-253 | Between two grants to an owner, over any run, its lease was lost exactly if the row no longer names it. |
| LeaseProtocol.BeginAfterLossIff | scripts/build_aws_sonari_verifier_runner_lambda.ts:63-89 | Whenever a dispatch begins during an owner's, that owner's lease has been lost since its last grant exactly if the row does not name it then. |
| LeaseProtocol.BeginUnderOwnRow | scripts/build_aws_sonari_verifier_runner_lambda.ts:63-89 | So a dispatch that begins under its own row during another owner's comes after a step that lost the other's lease. |
| LeaseProtocol.StalledInvocationBeginsLate | scripts/build_aws_sonari_verifier_runner_lambda.ts:63-89 | For any two owners there is a run in which a stalled invocation begins its dispatch while the other's lease is intact. |
| LeaseProtocol.OnlyTheseRelease | scripts/build_aws_sonari_verifier_runner_lambda.ts:67-87 | Only a failed start and a finished stop release; with the shared variable unset and a domain command set, a start never does. |
| LeaseProtocol.ReleaseDone | scripts/build_aws_sonari_verifier_runner_lambda.ts:67-87 | An invocation that means to release and gets to its end had its release answered, and the row did not name it then. |
| LeaseProtocol.RetryAdmittedAfterFailedStop | scripts/build_aws_sonari_verifier_runner_lambda.ts:79-87 | A stop that threw keeps the row, and the same owner's retry is admitted until some step loses that lease. |
| LeaseProtocol.UndisturbedIsHandle | scripts/build_aws_sonari_verifier_runner_lambda.ts:63-89 | The protocol's moves, undisturbed and answered, leave the row and the completion of the handler's contract. |
| LeaseProtocol.MovesEnabled | scripts/build_aws_sonari_verifier_runner_lambda.ts:63-89 | Which moves an invocation can make at which point of the handler, failures included. |
| LeaseProtocol.AnswersComeLater | scripts/build_aws_sonari_verifier_runner_lambda.ts:185-253 | A conditional write takes effect whatever becomes of its answer, and only a delivered answer lets the invocation go on. |
| UploadPool.SharedPool.RunToAwait | scripts/upload_demo_affected_area_r2.ts:158-168 | One stretch of a worker takes the next index or returns. |
| UploadPool.SharedPool.StartWorker | scripts/upload_demo_affected_area_r2.ts:174-176 | What a worker does when it is made, up to its first await, is the pool's step for a fresh worker. |
| UploadPool.SharedPool.UploadSettled | scripts/upload_demo_affected_area_r2.ts:158-175 | A settled upload counts, reports and takes the next index, or rejects the worker. |
| UploadPool.EachIndexTakenOnce | scripts/upload_demo_affected_area_r2.ts:151-177 | In every interleaving no plan index is taken twice or skipped, and no more uploads are in flight than workers. |
| UploadPool.AllReturned | scripts/upload_demo_affected_area_r2.ts:151-177 | When all workers have returned each item was put exactly once, the counters stand at n and n plus the workers, and the output shows the progress lines it should. |
| UploadPool.FailureSkipsNothing | scripts/upload_demo_affected_area_r2.ts:151-177 | If any worker has returned, every item was taken: each is done, in flight, or lost with the one worker that failed on it. |
| UploadPool.RunsAreShort | scripts/upload_demo_affected_area_r2.ts:151-177 | The steps of a run and what is left of it always make n plus the workers, and nothing is left to do exactly when every worker has returned or failed. |
| UploadPool.ReportsAre | scripts/upload_demo_affected_area_r2.ts:168-170 | The counts reported are the first, every hundredth and the last. |
| UploadPool.ReportsAscend | scripts/upload_demo_affected_area_r2.ts:168-170 | They come in order, each once. |
| EventPaging.ReadTypedEvents | dapp/app/dashboard/dashboard-events.ts:226-253 | For every page size the concatenated pages are the parsed reverse of the whole log. |
| EventPaging.UniqueById | dapp/app/dashboard/dashboard-events.ts:277-287 | The loop keeps the first item of each id, in order. |
| EventPaging.ReadDashboardClaims | dapp/app/dashboard/dashboard-events.ts:58-115 | Aid and count are those of all unique claims; the shown ones are that many of the newest, newest first. |
| EventPaging.SortPermutes | dapp/app/dashboard/dashboard-events.ts:98-103 | Sorting loses and invents nothing. |
| EventPaging.SortSorts | dapp/app/dashboard/dashboard-events.ts:98-103 | Sorting puts the newest first. |
| EventPaging.TotalsCoverWholeLogs | dapp/app/dashboard/dashboard-events.ts:98-106 | When no two parsed events share an id, aid and count are those of the two whole logs. |
| EventPaging.ParsedAreThoseThatParse | dapp/app/dashboard/dashboard-events.ts:226-253 | The items read are exactly those that parse, in the order of the log. |
| EventPaging.PageIs | dapp/app/chain/graphql-event-client.ts:105-124 | One query gives up to fifty events before its cursor, newest first, and the cursor to go on from. |
| EventPaging.PageParses | dapp/app/chain/graphql-event-client.ts:159-185 | A page that says there is more but not where is refused; any other is turned round, newest first. |
| EventPaging.UniqueAreFirsts | dapp/app/dashboard/dashboard-events.ts:277-287 | The items kept are exactly the first ones of their ids, in the order they came. |
| EventPaging.UniqueIds | dapp/app/dashboard/dashboard-events.ts:277-287 | No two of them share an id, and every id is there. |
| EventPaging.SortIsStable | dapp/app/dashboard/dashboard-events.ts:318-320 | Sorting keeps the order of items of one time. |
| PublishEvents.ReadPackagePublishEvents | scripts/resolve_published_contract_ids.ts:199-227 | Against any server with finitely many cursors the loop ends, queries no cursor twice, and succeeds exactly on an accepted last page with the pages in query order. |
| PublishEvents.FollowsIs | scripts/resolve_published_contract_ids.ts:215-285 | A query follows another exactly if that was answered by a page that announced more, by a non-empty cursor, and carries it. |
| PublishEvents.ConcatHolds | scripts/resolve_published_contract_ids.ts:215-219 | Each record of each page stands in the result, behind those of the pages before. |
| CompactDollars.CompactLoop | dapp/app/dashboard/dashboard-view-model.ts:203-227 | The two loops compute the specified value and unit. |
| CompactDollars.PromotesAtMostOnce | dapp/app/dashboard/dashboard-view-model.ts:203-227 | The unit after promotion is the natural one or the next, and a promoted amount shows as 1. |
| CompactDollars.ShownDigitsAndError | dapp/app/dashboard/dashboard-view-model.ts:203-231 | The shown number is below 1000 unless the unit is T, and within half a unit of the dollars. |
| CompactDollars.ShownIsMonotone | dapp/app/dashboard/dashboard-view-model.ts:203-231 | More dollars never show as less, across all unit boundaries. |
| CompactDollars.FormattedError | dapp/app/dashboard/dashboard-view-model.ts:182-231 | After both roundings the shown amount is within half a unit plus half a dollar of the micro-USDC value. |
| CompactDollars.LeastUnit | dapp/app/dashboard/dashboard-view-model.ts:203-231 | The unit shown is the least of 1, K, M, B and T in which the dollars round to less than a thousand, or T, and the number is the dollars in that unit, rounded with halves up. |
| CompactDollars.DollarsRound | dapp/app/dashboard/dashboard-view-model.ts:182-190 | Micro-USDC are rounded to dollars with halves up. |
| CampaignContract.FloorsFitBudget | contracts/sources/campaign.move:541-596 | The floors of everyone the census counted add up to no more than is drawn for them, and the draw is within half of the targets, a fifth of the category pool and a fifth of what the main pool can spare. |
| FloorRuns.FloorBudgetIsConserved | contracts/sources/campaign.move:590-602 | In any run, until the rest is returned, what the census drew is what is left of it and what was paid as floors, and the next floor is funded exactly if the floors taken, with it, are within what was drawn. |
| FloorRuns.CensusCoversFloors | contracts/sources/campaign.move:925-936 | As long as no band has more registered recipients than the census counted in it, the claimer included, no claim in any run aborts for want of its floor. |
| CampaignContract.SharesFit | contracts/sources/campaign.move:1026-1040 | Shares rounded down, weighted by the recipients of each band, never add up to more than is available. |
| CampaignContract.RoundPayoutsFit | contracts/sources/campaign.move:1026-1049 | A finalised round promises its recipients no more than the pool holds. |
| CampaignContract.RegisterKeepsSolvent | contracts/sources/campaign.move:626-656 | A registration keeps the counts true and owes nothing in the current round. |
| CampaignContract.FinalizeKeepsSolvent | contracts/sources/campaign.move:986-1062 | A finalisation, early return included, leaves a pool that can pay everyone it counts. |
| CampaignContract.PayoutIsFunded | contracts/sources/campaign.move:938-965 | A payout that is due is in the pool, and paying it leaves the rest funded. |
| CampaignContract.ClaimIsFunded | contracts/sources/campaign.move:796-970 | No claim aborts for want of a payout that is due, and every claim keeps the campaign solvent. |
| CampaignContract.ExcludeKeepsSolvent | contracts/sources/campaign.move:1104-1139 | Excluding succeeds exactly on a registered recipient of an open campaign, never runs a count below zero, and keeps the campaign solvent. |
| CampaignAmounts.FinalizedRound | contracts/sources/campaign.move:986-1062 | A finalisation stops where the pool is short of the least payout for everyone; otherwise it opens the next round with each band's share, the largest whole amount within its part of the pool or of the cap, and changes nothing else. |
| CampaignAmounts.ClaimedAmounts | contracts/sources/campaign.move:796-970 | What a claim pays is its band's payout of the round it met or opened, and its band's floor, and exactly that leaves the two pools. |
| CampaignAmounts.CensusAmounts | contracts/sources/campaign.move:504-620 | A census is accepted once, before the donations end; it draws as much as half of what is owed and a fifth of each pool allow, the category pool first, and sets each band's floor to its share. |
| CampaignAmounts.Calendar | contracts/sources/campaign.move:782-788 | In any run newcomers are turned away from 21 days after the creation, and a round can be opened after 30 days, and 90 days after the last. |
| CampaignAmounts.OpeningPayout | contracts/sources/campaign.move:1026-1049 | In any run the payout of a claim that opens a round is its target's share of the pool, or of three times what is owed, and the pool holds a dollar for every recipient. |
| CampaignAmounts.AmountsStayInRound | contracts/sources/campaign.move:1045-1050 | In any run the payouts do not change while the round lasts. |
| CampaignAmounts.Swept | contracts/sources/campaign.move:1064-1100 | When a sweep goes through, and that it takes the whole pool and nothing else. |
| CampaignAmounts.FloorReturned | contracts/sources/campaign.move:722-770 | When the floor budget is returned, and that it takes the whole budget and nothing else. |
| CampaignAmounts.SweepableIff | contracts/sources/campaign.move:1074-1087 | In any run, what is left can still be swept exactly if it was swept, was counted, or can still be counted. |
| CampaignAmounts.StuckExample | contracts/sources/campaign.move:1071-1072 | A campaign with any amount in it that can never be swept. |
| ClaimEligibility.ReaderUsesEffectiveRound | dapp/app/claim/claim-campaigns.ts:400-456 | The reader fails exactly on a clock that is no unsigned number. Of the payout keys its answer depends on that of the effective round alone, and it offers a payout exactly to a verified recipient, not excluded, verified before that round, who has no such key. |
| ClaimEligibility.ClockRoundTrip | dapp/app/claim/claim-campaigns.ts:717-726 | Every printed time, padded or not, parses back. |
| ClaimEligibility.EffectiveRoundIsNext | dapp/app/claim/claim-campaigns.ts:384-398 | The effective round is current or current plus one, and is the round a claim meets exactly when the finalisation does not return early. |
| ClaimEligibility.OfferedPayoutIff | dapp/app/claim/claim-campaigns.ts:322-382 | A registered recipient is offered a payout exactly when the boundary has passed or one is due. |
| ClaimEligibility.RefusalsAgree | dapp/app/claim/claim-campaigns.ts:322-382 | A claim aborts for the window, the verification or an exclusion exactly where the dapp refuses for it, the campaign is open and the identity asked for is verified. |
| ClaimEligibility.FloorIsPaidIff | dapp/app/claim/claim-campaigns.ts:357-361 | A floor is paid exactly where the dapp offers it and nothing hinders the claim: an open campaign, the identity, the leaf of a first claim, a funded floor. |
| ClaimEligibility.OfferedPayoutIsPaidIff | contracts/sources/campaign.move:796-970 | Whatever evidence a claim brings, a payout the dapp offers is paid exactly if the campaign is open, the recipient not stalled, and the floor that goes with it funded and the identity for it verified. |
| ClaimEligibility.UnofferedPayoutIsPaidIff | contracts/sources/campaign.move:796-970 | One it does not offer is paid exactly to an unhindered first claim that opens its own round. |
| ClaimEligibility.PayoutAgreesUnlessPartsWays | contracts/sources/campaign.move:796-970 | For every claim with any evidence, aborted ones included, the payout announced is the payout made, except exactly where a condition on the call and the state before it holds. |
| ClaimEligibility.NothingLeftIff | dapp/app/claim/claim-campaigns.ts:371-373 | Whatever evidence it brings, a claim aborts with nothing to claim exactly on an open campaign where the dapp says so, or where it offers a stalled recipient a payout and no floor. |
| ClaimEligibility.IdentityAskedIffNeeded | dapp/app/claim/claim-campaigns.ts:375-381 | Identity is asked for exactly where the claim would abort without it. |
| ClaimEligibility.LeafAskedIffInitial | dapp/app/claim/claim-campaigns.ts:375-381 | An initial proof is asked for exactly where the claim would abort without a leaf. |
| ClaimEligibility.ClocksRead | dapp/app/claim/claim-campaigns.ts:717-726 | The clocks the reader takes, and at what time. |
| ClaimRuns.PaidOnceInTurnAndFunded | contracts/sources/campaign.move:796-970 | In any run of a created campaign no floor or payout is paid twice, a payout is for a round after the verification, deposits are what is left, paid and swept, and the pool never lacks a payout that is due. |
| ClaimRuns.EffectiveRoundNeverFalls | dapp/app/claim/claim-campaigns.ts:384-398 | The effective round never falls along a run. |
| ClaimRuns.FloorOfferedOnce | dapp/app/claim/claim-campaigns.ts:357-361 | A floor offered and taken is never offered to that pass again. |
| ClaimRuns.PayoutOfferedOncePerRound | dapp/app/claim/claim-campaigns.ts:362-369 | Unless the boundary has passed and the pool is too small, a payout offered and taken is the last one offered for that round. |
| ClaimRuns.PayoutIsPaidIff | dapp/app/claim/claim-campaigns.ts:322-382 | In any run of a created campaign, for every claim with any evidence, a payout is paid exactly if it is offered, the campaign is open, the recipient is not stalled, and a floor due with it is in the budget and the identity for it verified. |
| ClaimRuns.AnnouncedPayoutIsPaidIff | dapp/app/claim/claim-campaigns.ts:400-456 | The same of what the reader answers, at any spelling of the clock. |
| ClaimRuns.StalledOfferRepeats | contracts/sources/campaign.move:1019-1025 | Where the pool is too small the very same offer stands after the claim. |
| ClaimRuns.StalledOfferExample | contracts/sources/campaign.move:1019-1025 | A run of a created campaign in which a payout is offered and the claim aborts with nothing to claim. |
| ClaimRuns.FloorUnfundedExample | contracts/sources/campaign.move:663-720 | A run in which the pool is full and a payout offered, and the claim aborts because the floor it pays first is not funded. |
| ClaimRuns.IdentityLapsedExample | contracts/sources/campaign.move:836-853 | A run in which pool and floor budget are full and a payout and a floor offered, and the claim aborts for the identity; with the identity the same claim is paid. |
| ClaimRuns.SweptOfferExample | contracts/sources/campaign.move:1064-1100 | A run in which the campaign has been swept, and a payout is still offered. |

## Left out

- JSON text, floats and canonical JSON: the proof response is a parsed value; `magnitude_x100` and `canonical_json_bytes` take floating-point and Unicode-ordered input.
- SHA-256, dynamic-field ids, base64 and `localeCompare`: a parameter, or not used by what is proved.
- Python's leniency where it does not matter here: booleans that count as integers in the payload, and `int()` accepting spaces and underscores in a cell index.
- AWS, wrangler, wallet, fetch and React code: input and output without logic of its own.
- Checks the claim entry makes outside the campaign: leaf, proof, residence and cutoffs are one verdict that the caller brings, and the identity is another; the package-wide pause and the pass precheck come before them.
- The update in place of the campaign object: its entries are functions from one value to the next, so aliasing is not captured; an aborted Move call changes nothing either way.
- Overflow aborts of the contract's 64-bit and 128-bit sums: amounts and times are unbounded numbers.
- Donations to the pools and ops withholding: what the category pool holds and the main pool can spare are parameters of the census, and so are the members it counts; nothing binds those who register to them, and `CensusCoversFloors` says what follows where they are within them.
- `paused`: no entry of the contract sets it after creation, so no run changes it; the statements about single claims cover a paused campaign.
- On-chain objects that do not parse: the eligibility reader would take an unreadable application for a first claim; the model's applications are well typed.
- RunnerLease.Handle: table requests are always answered here; lost answers, retries and deaths are in `LeaseProtocol`. The result records of a refusal are two constants, and an attempt above 10^21 would print in scientific notation.
- ShellQuoting.SplitOfShellJoin: quoting and token rules only; a first argument of the form `NAME=value`, or a reserved word, is still one word but the shell gives it another role.
- PublishedToml.RewritesSpareIffApart: stated for network names that a header can hold on one line, without quotes or `]`; `RewritesCommute` needs only names without quotes.
- NestedSections.RewritesCommuteIff: stated where quoted values close on their lines and the inner header stands outside the values written around it; a rewrite that writes over a header makes the next one look for another.
- DonationAmount.AcceptsExactlyTheGrammar: lengths are counted in characters, so a fraction of astral characters is refused as a format error where the code says too many decimals; what is accepted is the same.
- EventPaging.ReadDashboardClaims: the server's cursors are honest, donations and the latest disaster event are not modelled, and neither is a negative display limit.
- EventPaging.TotalsCoverWholeLogs: stated for logs without a repeated id; with repeats the totals are those of the first of each, as `ReadDashboardClaims` says.
- AffectedCells.AcceptedProofIsListEntry: the list is one the checker accepts, with distinct cells; fetching and the request address are not modelled.
