# UniDPP core: verified model

A Dafny model of the load-bearing logic of UniDPP, a digital product passport system, with proofs of what its
documentation promises. `dafny verify dfyconfig.toml` checks everything.

The model follows the source module by module:

- **Merkle commitments.** `Merkle` is the tree that the roll-up and the spine share: neighbours joined in pairs, an odd node
  with itself. A scheme says how a pair becomes the string that is hashed, in order for the roll-up (`Rollups`,
  `Attestations`), sorted for the spine (`Domain`, `Spine`). The loops for roots, proofs and checks are proved against one
  recursive tree; the tree is proved complete, sound and injective for every size.
- **Exact arithmetic.** `Decimals`, `DecimalText`, `Quantities`, `Splits`, `Combines`. Values are integers in units of 10^-18,
  canonical amounts are reals, and every operation that succeeds is exact. `Ledgers` runs issue, split and combine as a state
  machine and proves the mass balance over every run. `Overdrafts` is about what `combine` leaves to its caller, `SumOrders`
  about sums that depend on the order of the summands; `SmallAmounts` is the material of their examples.
- **Time.** `Calendar` is the closed-form calendar with truncating division, proved to be the day-by-day one; `Timestamps` is
  the printer and the cursor parser, proved against a grammar.
- **Event log and carrier.** `Commitments` and `EventLogs` are the hash chain with salts, anchors and as-of views.
  `CanonicalCodec`, `Tokens`, `Qr` and `Packer` are the tagged binary carrier payload and its byte budget, `CarrierFields` is
  what the decoder accepts and what it makes of it.
- **Provenance.** `Provenance` and `Taints`: two converse adjacency maps, the worklist, recalls and downstream taint.

SHA-256 is a parameter: any function from byte strings to 32 bytes. A security property assumes that this function has no
collision among the finitely many strings that the checks and roots in question actually hash; nothing is assumed of any
other string. Objects that the source updates in place are classes here (writer, reader, registry, log, salt store, graph,
taint set), loops are loops, and each is tied to a function about which the results are proved. `i128` is written out with
its range checks; arithmetic that overflows in the source is an error result.

Some promises do not hold as stated; each of these has a lemma that says exactly when they do:

- `Hash` and `Eq` of decimals agree exactly off zero (`Decimals.HashAgreesOffZero`, `Decimals.ZerosHashApart`).
- `mul_ratio_exact` is documented to fail only if the result is not representable; it also fails where clearing the denominator
  takes more than nine places or leaves 128 bits (`Decimals.RepresentableSucceedsExactly`, `Decimals.RepresentableButRefused`).
- `verify_inclusion` does not compare the index with the set size (`Rollups.IndexBeyondSetAccepted`; `Merkle.EffectiveIndexInRange`
  gives the exact condition).
- `verify` is documented to detect any in-place tampering. What it accepts in the place of an entry is stated exactly
  (`EventLogs.ExchangedExactly`). Where the commitment is kept, that is another body in a salted entry, or in an unsalted one
  that is flagged as salted by the same edit (`EventLogs.EditIsSeen`); with the salts every such edit is seen. Where it is
  not kept, that is any event sealed anew in the place of the last (`EventLogs.ResealedLastEntryPasses`); any tail sealed anew
  passes both verifications, and is for the anchor to see (`EventLogs.ResealedTailPasses`, `EventLogs.AnchorSeesResealedTail`).
- `verify_against_anchor` is documented to detect forks. Without the salts it does so exactly behind the last entry that either log flags
  as salted (`EventLogs.AnchorFixesUnsaltedTail`): whatever precedes, and that entry itself, can be exchanged
  (`EventLogs.AnchorAdmitsFork`, `EventLogs.SaltedEndMeetsAnyAnchor`). With the salts it detects all of them
  (`EventLogs.AnchorFixesSaltedHistory`).
- `combine` is documented to check availability per input and the consistency of dimensions. It accepts a passport listed twice,
  and then takes more than is available; and it compares the number of units with what is available without looking at the
  dimension of that, so a kilogram can be taken where a joule is available (`Overdrafts.KilogramsOverdrawn`). The exact
  conditions are `Overdrafts.RespectsExactly`, for each combine, and `Overdrafts.WellListedExactly`, for what a caller can look
  at. It accepts an output below zero, and exactly then the loss is above the inputs (`Overdrafts.OutputBelowZeroAccepted`,
  `Ledgers.LossWithinInputsUnlessOutputNegative`).
- `encode` keeps 255 slots without a word, although packing is documented never to truncate, and a signature of 65535 bytes
  reads back as a placeholder (`Packer.DecodeEncodeExactly`).
- The as-of view is complete exactly for logs in time order (`EventLogs.AsOfIsComplete`).
- Aggregates are documented to be summed in canonical units. They are in the unit of the first contribution
  (`Attestations.AggregatesAreExact`), and so is every sum on the way, so that a set can be refused although its canonical sum
  exists: one pound and one kilogram have no sum, one kilogram and one pound have (`SumOrders.OrderMatters`,
  `SumOrders.AggregatesDependOnOrder`). The same goes for the inputs of a combine (`SumOrders.CombinesDependOnOrder`). Exactly which
  sums succeed is `Quantities.SumSucceedsExactly`; behind a quantity in a canonical unit it is as documented
  (`SumOrders.SumInCanonicalUnitExactly`).
- A registered unit is not found under its own symbol if that keeps white space at an end, as it does behind a leading dash
  (`Quantities.RegisteredFindsItself`, `Normalization.DashBeforeTab`).
- `SigSlot::projected_len` leaves out the four bytes of the key's length prefix (`Packer.SlotLength`).

## Model

| member | source | states |
|---|---|---|
| Merkle.PairLevel | crates/transform/src/rollup.rs:108-118 | the loop over chunks of two computes the level of parents, an odd node joined with itself |
| Merkle.BuildRoot | crates/transform/src/rollup.rs:102-121 | the level loop computes the recursive root |
| Merkle.BuildPath | crates/transform/src/rollup.rs:125-156 | the sibling loop computes the path of the leaf, of the length of the tree height |
| Merkle.HeightIsCeilLog2 | crates/transform/src/rollup.rs:138-156 | the height of a tree over n leaves is the ceiling of log2 n |
| Merkle.PathLeadsToRoot | crates/transform/src/rollup.rs:125-185 | the path of every leaf, folded by the bits of the index, ends at the root, for every size |
| Merkle.ClimbStartsAtLeaf | crates/transform/src/rollup.rs:160-185 | without collisions, a fold that arrives at the digest of a tree has the length of its depth and started at one of its leaves, under ordered joining at the one the index selects; for ordered and for sorted pairs |
| Merkle.ClimbToRoot | crates/transform/src/rollup.rs:160-185 | the same for the root over any list of leaves, odd-node duplication included |
| Merkle.EffectiveIndexInRange | crates/transform/src/rollup.rs:170-182 | an index leads to the leaf of that position if and only if it is in range |
| Merkle.PathFromEffectiveIndex | crates/transform/src/rollup.rs:160-185 | every index, in range or not, has a path by which the leaf it leads to reaches the root |
| Merkle.HashFixesTree | crates/transform/src/rollup.rs:102-121 | without collisions, equal digests come from equal trees |
| Merkle.RootInjective | crates/transform/src/rollup.rs:102-121 | without collisions, a root fixes how many distinct leaves there are and each of them |
| Merkle.RepeatedTailSameRoot | crates/transform/src/rollup.rs:85-92 | why duplicates are refused: repeating the last leaf of an odd level leaves the root as it is |
| Rollups.WriteLeaf | crates/transform/src/rollup.rs:47-59 | the buffer loop writes the framed parts of a member; it fails exactly where an amount has the least i128 as mantissa |
| Rollups.HashLeaves | crates/transform/src/rollup.rs:103-107 | the leaf digests, in order, unless a leaf fails |
| Rollups.Root | crates/transform/src/rollup.rs:102-121 | the root method computes the Merkle root over the leaves, unless a leaf fails |
| Rollups.InclusionProof | crates/transform/src/rollup.rs:125-156 | a proof exists exactly for indices in range, and is the Merkle path; in range, it fails exactly if a leaf does |
| Rollups.VerifyInclusion | crates/transform/src/rollup.rs:160-186 | the fold over the proof, with index and size halved, decides acceptance; it fails exactly if the leaf does |
| Rollups.NewTraversalSet | crates/transform/src/rollup.rs:78-94 | sort by passport, then refuse the first adjacent duplicate |
| Rollups.NewSetExactly | crates/transform/src/rollup.rs:78-94 | a set is made if and only if there are members and their passports differ; it holds exactly the members given, in strict passport order |
| Rollups.RefusedSetNamesDuplicate | crates/transform/src/rollup.rs:78-94 | a refusal is for no members, or names a passport that is listed twice |
| Lexicographic.LtExactly | crates/transform/src/rollup.rs:84-85 | what the order of passports means: a proper prefix comes first, else the first byte that differs decides |
| Rollups.AnyOrderOneSet | crates/transform/src/rollup.rs:66-94 | any permutation of the members yields the same set |
| Rollups.LeafFixesMember | crates/transform/src/rollup.rs:44-64 | leaf bytes fix passport, version, state hash, labels, amounts and unit symbols: no field bleeds into the next |
| Rollups.PassportInLeaf | crates/transform/src/rollup.rs:44-64 | leaves of different passports differ |
| Rollups.LeafIsNoJoin | crates/transform/src/rollup.rs:106-116 | no inner node can be taken for a leaf |
| Rollups.SizeReachesOne | crates/transform/src/rollup.rs:169-185 | the size check passes exactly for proofs at least as long as a tree over the claimed size is high |
| Rollups.ProofsAreAccepted | crates/transform/src/rollup.rs:123-186 | every member has a proof of the tree height, and it is accepted, for every set size |
| Rollups.AcceptedIsMember | crates/transform/src/rollup.rs:158-186 | whatever is accepted against a set root, with any proof and any claimed size, is the leaf the index leads to; proof length and claimed size are bounded exactly |
| Rollups.MemberIsAccepted | crates/transform/src/rollup.rs:158-186 | the converse: every such claim has an accepted proof |
| Rollups.OnlyThatMember | crates/transform/src/rollup.rs:158-186 | for an index within the set, only that very member is accepted |
| Rollups.IndexBeyondSetAccepted | crates/transform/src/rollup.rs:160-186 | the index is not checked against the set size: for every set and every index beyond it, some member is accepted at that index |
| Rollups.RootFixesSet | crates/transform/src/rollup.rs:66-121 | sets made from any members have the same root if and only if they have the same leaves in the same order |
| Attestations.Labels | crates/transform/src/rollup.rs:294-297 | the sorted set of labels is collected by nested loops |
| Attestations.LabelsExactly | crates/transform/src/rollup.rs:294-297 | it holds each label any member carries, once, in order, and no other |
| Attestations.TotalOf | crates/transform/src/rollup.rs:300-309 | the loop with an optional total |
| Attestations.TotalIsSumOfContributions | crates/transform/src/rollup.rs:300-309 | that loop is the sum of the quantities the members carry under the label |
| Attestations.Aggregate | crates/transform/src/rollup.rs:290-316 | the aggregation loop over labels |
| Attestations.AggregatesAreExact | crates/transform/src/rollup.rs:290-316 | one aggregate per label, each the exact canonical sum over the set, in the unit of the first contribution; a single contribution is returned unchanged, several are in registered units of one dimension |
| Attestations.AggregateSucceedsExactly | crates/transform/src/rollup.rs:290-316 | a set is aggregated if and only if, under every label, what the members carry can be added up in the order of the set |
| Attestations.NoLabelVanishes | crates/transform/src/rollup.rs:310-312 | the error for a vanished label cannot occur |
| Attestations.WriteBody | crates/transform/src/rollup.rs:266-280 | the signed body is written field by field; it fails exactly where an aggregate has the least i128 as mantissa |
| Attestations.BodyFixesAttestation | crates/transform/src/rollup.rs:263-280 | equal bodies come from attestations equal in subject, root, count, labels, values, units, method, attester and time, in every year |
| Attestations.BodyIgnoresSignature | crates/transform/src/rollup.rs:282-286 | installing a signature does not change what is signed |
| Attestations.VerifyRollup | crates/transform/src/rollup.rs:342-395 | the verification with its zipped loop computes the verdict |
| Attestations.VerifiedExactly | crates/transform/src/rollup.rs:318-395 | the verdict is Verified if and only if root, count, every aggregate and the signature check hold, and no leaf fails |
| Attestations.RefusedExactly | crates/transform/src/rollup.rs:342-395 | which of the four refusals is reported, exactly: root, then count, then the whole of the aggregates or the first that does not agree, with both sides as shown, then the signature |
| Attestations.VerifiedSumsAreExact | crates/transform/src/rollup.rs:342-395 | every aggregate of a verified attestation is the exact sum over the set |
| Attestations.BuiltExactly | crates/transform/src/rollup.rs:228-261 | an attestation is built if and only if method and attester are named, every label can be summed and all amounts can be printed; it says root, count, sums and names of that set |
| Attestations.BuiltVerifies | crates/transform/src/rollup.rs:228-261 | what was built and signed verifies against its set, for every set |
| Attestations.OneSetPerAttestation | crates/transform/src/rollup.rs:342-395 | two sets for which one attestation verifies have the same leaves |
| Domain.HashIn | crates/grid/src/domain.rs:21-30 | the writer loop hashes tag, zero byte and length-prefixed parts |
| Domain.PreimageInjective | crates/grid/src/domain.rs:1-30 | what is hashed fixes the domain and every part |
| Domain.TagsDiffer | crates/grid/src/domain.rs:12-19 | the four domain tags are different |
| Spine.SpineProof.VerifiesAgainst | crates/grid/src/spine.rs:167-181 | the fold in sorted order, and both root comparisons, decide acceptance |
| Spine.Spine.Proof | crates/grid/src/spine.rs:52-90 | a proof exists exactly for segments held; it carries their commitment and Merkle path |
| Spine.MerkleRoot | crates/grid/src/spine.rs:115-134 | the level loop computes the root, zeros over nothing |
| Spine.Over | crates/grid/src/spine.rs:34-50 | the root of a new spine is over its commitments in key order |
| Spine.SortedPair | crates/grid/src/spine.rs:136-150 | joining by minimum and maximum is joining in sorted order, and symmetric |
| Spine.LeafStringInjective | crates/grid/src/spine.rs:13-15 | segment and commitment can be read back from what is hashed into a leaf |
| Spine.ProofsVerify | crates/grid/src/spine.rs:52-90 | every segment of a spine has a proof, of the tree height, and it verifies |
| Spine.VerifiedIsHeld | crates/grid/src/spine.rs:153-181 | without collisions, a proof that verifies against the root of a spine names that root and a segment of that spine with its commitment, and has the tree height |
| Spine.ProvesPrefixExactly | crates/grid/src/spine.rs:89-98 | one spine proves another if and only if its version is not lower and every entry of the other is among its entries |
| Spine.GrowthProves | crates/grid/src/spine.rs:89-98 | so adding a segment, wherever its key belongs, keeps the proof |
| Spine.RewindIsSeen | crates/grid/src/spine.rs:89-98 | and a commitment that is changed or removed loses it |
| Spine.PrefixKeepsProofs | crates/grid/src/spine.rs:92-98 | a spine that proves a prior one proves every old commitment against its own root |
| Spine.NoSegmentRewinds | crates/grid/src/spine.rs:92-98 | along any run of publications, each proving the one before, versions and commitments never go back |
| Spine.DigestOf | crates/grid/src/spine.rs:102-113 | the digest buffers version, root and every entry |
| Spine.DigestFixesSpine | crates/grid/src/spine.rs:100-113 | without collisions, the digest fixes version, root and all commitments |
| Decimals.Normalize | crates/model/src/decimal.rs:33-41 | the loop strips trailing zeros into the exponent and ends in normal form |
| Decimals.NormalizedKeeps | crates/model/src/decimal.rs:33-41 | normalizing keeps the value and stays in range |
| Decimals.NormalFormUnique | crates/model/src/decimal.rs:33-41 | a non-zero value has exactly one normal form |
| Decimals.New | crates/model/src/decimal.rs:89-97 | a decimal is made exactly for exponents of -18 to 18 |
| Decimals.NewKeepsValue | crates/model/src/decimal.rs:89-97 | `new` keeps the value and normalizes |
| Decimals.CmpMagnitudesIsNumeric | crates/model/src/decimal.rs:45-66 | comparing padded digit strings is comparing m * 10^e |
| Decimals.CmpValueIsNumeric | crates/model/src/decimal.rs:128-143 | the comparison is the numeric one; it fails if and only if both are negative and one has the least i128 as mantissa |
| Decimals.HashAgreesOffZero | crates/model/src/decimal.rs:209-235 | equal decimals hash alike if and only if they are not zero or have one exponent |
| Decimals.ZerosHashApart | crates/model/src/decimal.rs:209-235 | the witness: zeros of exponents 0 and 1 are equal and hash apart |
| Decimals.AddExact | crates/model/src/decimal.rs:152-158 | addition is exact whenever it succeeds |
| Decimals.AddSucceedsExactly | crates/model/src/decimal.rs:145-158 | it succeeds if and only if, brought to the smaller exponent, both mantissas and their sum fit 128 bits, and overflows else |
| Decimals.SubExact | crates/model/src/decimal.rs:160-162 | subtraction is exact whenever it succeeds |
| Decimals.MulExact | crates/model/src/decimal.rs:164-173 | multiplication is exact whenever it succeeds |
| Decimals.MulSucceedsExactly | crates/model/src/decimal.rs:164-173 | it succeeds if and only if the product fits 128 bits and the exponent is in range, with the error for either |
| Decimals.MulRatio | crates/model/src/decimal.rs:175-198 | the loop over exponent shifts computes the first shift that clears the denominator |
| Decimals.MulRatioIsExact | crates/model/src/decimal.rs:175-198 | a ratio is applied exactly whenever it succeeds |
| Decimals.InexactOnlyIfNothingClears | crates/model/src/decimal.rs:175-198 | for denominators of either sign, inexact is reported if and only if no shift of 0 to 9 places clears the denominator within the bounds (and the amount can be printed) |
| Decimals.MulRatioSucceedsExactly | crates/model/src/decimal.rs:172-198 | a ratio is applied if and only if the first shift that clears the denominator is at most nine, stays within the bounds and leaves an exponent in range |
| Decimals.RepresentableSucceedsExactly | crates/model/src/decimal.rs:172-198 | if the exact result is a decimal, a first clearing shift exists, and the ratio is applied if and only if it is at most nine and stays within the bounds |
| Decimals.RepresentableButRefused | crates/model/src/decimal.rs:172-198 | a representable result that is refused: one divided by ten to the twelfth |
| Decimals.RatioThereAndBack | crates/model/src/decimal.rs:175-198 | a ratio and its inverse restore the value |
| Decimals.Sum | crates/model/src/decimal.rs:200-206 | the loop sums from zero |
| Decimals.SumExact | crates/model/src/decimal.rs:200-206 | sums are exact whenever they succeed |
| Decimals.TotalSucceedsExactly | crates/model/src/decimal.rs:200-206 | they succeed if and only if every item can be added to the sum of those before it |
| DecimalText.Display | crates/model/src/decimal.rs:237-269 | the printer writes one of three layouts, and fails for the least i128 only |
| DecimalText.FromStr | crates/model/src/decimal.rs:271-307 | the character loop accepts a sign, digits and at most one point |
| DecimalText.LiteralParses | crates/model/src/decimal.rs:271-307 | every literal, in white space, with or without sign and point, is read as the number it spells, or refused for its places or its size |
| DecimalText.ParsesExactly | crates/model/src/decimal.rs:271-307 | what is read, and each refusal, exactly: nothing but such literals is accepted |
| DecimalText.ParsePrint | crates/model/src/decimal.rs:237-307 | printing then parsing gives the very pair back, or exactly the zero or overflow result stated |
| DecimalText.PrintInjective | crates/model/src/decimal.rs:237-269 | equal texts denote equal values |
| DecimalText.PrintedLayout | crates/model/src/decimal.rs:237-269 | the printed literal has no needless zero in front and all its places behind the point |
| Calendar.ErasAreFloors | crates/model/src/time.rs:270-292 | the truncating era division is floor division, for all years and days |
| Calendar.LeapByFloor | crates/model/src/time.rs:250-252 | the truncating remainders decide the Gregorian leap rule, negative years included |
| Calendar.CivilOfDays | crates/model/src/time.rs:270-292 | `civil_from_days` undoes `days_from_civil` on every valid date |
| Calendar.DaysOfCivil | crates/model/src/time.rs:270-292 | `days_from_civil` undoes `civil_from_days` on every integer, and the date is valid |
| Calendar.NextDayCounts | crates/model/src/time.rs:250-279 | stepping to the next date by the month lengths raises the day number by one |
| Calendar.CivilIsCounted | crates/model/src/time.rs:281-292 | the closed form is the calendar counted day by day from 1 January 1970, in both directions |
| Calendar.LaterDatesHaveLaterDays | crates/model/src/time.rs:270-279 | dates are ordered as their day numbers |
| Timestamps.DigitsAt | crates/model/src/time.rs:236-248 | the digit loop reads a number of fixed width |
| Timestamps.ParseTimestamp | crates/model/src/time.rs:58-147 | the cursor parser computes the grammar of date, time, fraction and offset |
| Timestamps.ParseClock | crates/model/src/time.rs:78-112 | its clock part |
| Timestamps.ParseFraction | crates/model/src/time.rs:96-111 | its fraction loop |
| Timestamps.ParseOffset | crates/model/src/time.rs:113-141 | its offset part |
| Timestamps.WrittenParses | crates/model/src/time.rs:58-147 | every well written text parses to the time it denotes: a date, then perhaps a time behind T, t or a blank with up to nine digits of fraction, then Z, z, an offset with or without colon, or nothing; the offset is taken off local time |
| Timestamps.ParsesExactly | crates/model/src/time.rs:58-147 | a text parses to a time if and only if it is such a text and denotes that time |
| Timestamps.OffsetParses | crates/model/src/time.rs:113-141 | the text of local time with its Z replaced by an offset east or west parses to the time in UTC |
| Timestamps.ParsePrint | crates/model/src/time.rs:58-171 | every timestamp of the years 0 to 9999 parses back from its text, negative seconds and trimmed fractions included |
| Timestamps.PrintIsWritten | crates/model/src/time.rs:149-171 | the printed text has T, Z and a fraction without a zero at its end |
| Timestamps.OtherYearsRefused | crates/model/src/time.rs:58-171 | the texts of all other years are refused |
| Timestamps.PrintInjective | crates/model/src/time.rs:149-171 | with less than a second of nanoseconds, equal texts are equal times, in every year |
| Timestamps.SecondOfNanosLooksLikeATenth | crates/model/src/time.rs:160-168 | that bound is needed: a whole second of nanoseconds is printed like a tenth of one |
| Timestamps.ParsePrintExactly | crates/model/src/time.rs:58-171 | the round trip holds if and only if the year is 0 to 9999 and the nanoseconds are below one second |
| Quantities.UnitRegistry.Register | crates/transform/src/quantity.rs:169-210 | a symbol keeps its first definition for ever; success, failure and the new state are stated exactly |
| Normalization.NormalizingTwice | crates/model/src/normalization.rs:28-49 | a normalized text is its own normal form if and only if there is no white space at its ends |
| Normalization.DashBeforeTab | crates/model/src/normalization.rs:28-49 | the witness: a dash before a tab is normalized to the tab, and that to nothing |
| Normalization.NormalizedIsDashedWords | crates/model/src/normalization.rs:28-49 | a normalized text is its words, split at the five separators, in lower case, with single dashes between them |
| Normalization.SquashedLast | crates/model/src/normalization.rs:11-26 | squashing goes character by character: letters and digits stay, capitals become small, all else is dropped |
| Quantities.RegisteredFindsItself | crates/transform/src/quantity.rs:193-222 | a registered unit is found under its own symbol if and only if there is no white space at the ends of that symbol |
| Quantities.CanonicalExact | crates/transform/src/quantity.rs:265-270 | the canonical amount is exact |
| Quantities.FromCanonicalExact | crates/transform/src/quantity.rs:305-318 | so is the amount expressed from it |
| Quantities.ConvertSucceedsExactly | crates/transform/src/quantity.rs:273-293 | a quantity is converted if and only if it is of the dimension of the target, canonicalizes, and its canonical amount can be expressed in the target |
| Quantities.ConvertExact | crates/transform/src/quantity.rs:273-293 | conversion keeps the dimension and the exact canonical amount |
| Quantities.ConvertThereAndBack | crates/transform/src/quantity.rs:273-293 | conversion there and back restores the amount |
| Quantities.ConvertChain | crates/transform/src/quantity.rs:273-293 | a chain of conversions equals the direct one |
| Quantities.AddQuantitiesExact | crates/transform/src/quantity.rs:321-339 | sums of mixed units are exact |
| Quantities.AddQuantitiesSucceedsExactly | crates/transform/src/quantity.rs:321-339 | two quantities are added if and only if they are of one dimension, both canonicalize, and the canonical sum fits and can be expressed in the first unit |
| Quantities.SubQuantitiesExact | crates/transform/src/quantity.rs:342-352 | so are differences |
| Quantities.SubQuantitiesSucceedsExactly | crates/transform/src/quantity.rs:342-352 | they are formed if and only if the mantissa can be negated and the two can then be added |
| Quantities.CmpQuantitiesExact | crates/transform/src/quantity.rs:355-371 | quantities are compared by exact canonical amount |
| Quantities.CmpQuantitiesSucceedsExactly | crates/transform/src/quantity.rs:355-371 | quantities are compared if and only if they are of one dimension, both canonicalize, and neither absolute value overflows |
| Quantities.UnitsRefused | crates/transform/src/quantity.rs:212-371 | for which unit conversion, sum and comparison are refused: the first that is not registered, else two dimensions |
| Quantities.Sum | crates/transform/src/quantity.rs:374-388 | the accumulating loop |
| Quantities.SumQuantitiesExact | crates/transform/src/quantity.rs:374-388 | it is the exact sum, in the unit of the first; one quantity is returned unchanged, two or more are in registered units of one dimension |
| Quantities.SumSucceedsExactly | crates/transform/src/quantity.rs:374-388 | a sum succeeds if and only if every quantity can be added to the sum of those before it, in the unit of the first |
| SumOrders.SumInCanonicalUnitExactly | crates/transform/src/quantity.rs:374-388 | two or more quantities, the first in a canonical unit: the sum is that of the canonical amounts, and succeeds if and only if all are of one dimension, all canonicalize and that sum does |
| SumOrders.OrderMatters | crates/transform/src/quantity.rs:321-339 | one pound and one kilogram cannot be added up, one kilogram and one pound can, in any registry with the seeded factors |
| SumOrders.SeededPounds | crates/transform/src/quantity.rs:137-163 | the seeded definitions of pound and kilogram are such a registry |
| SumOrders.PoundFirstHasNoSum | crates/transform/src/quantity.rs:374-388 | nothing that begins with one pound and one kilogram has a sum |
| SumOrders.PoundFirstIsNotAggregated | crates/transform/src/rollup.rs:290-316 | no set is aggregated in which the contributions under some label begin so |
| SumOrders.AggregatesDependOnOrder | crates/transform/src/rollup.rs:290-316 | of two members with a pound and a kilogram under one label, which comes first decides whether the set is aggregated |
| SumOrders.CombinesDependOnOrder | crates/transform/src/combine.rs:116-142 | and of two inputs, which is listed first decides whether the combine succeeds |
| Splits.ExecuteSplit | crates/transform/src/split.rs:40-86 | the accumulating loop with its early returns |
| Splits.SplitConserves | crates/transform/src/split.rs:38-86 | carve-outs and remainder make up the parent exactly, none is negative, and the parent is consumed exactly when nothing remains |
| Splits.SplitSucceedsExactly | crates/transform/src/split.rs:38-86 | a split succeeds if and only if there is a carve-out, the parent canonicalizes, every carve-out is not negative, of its dimension, canonicalizes and can be added to those before it, their sum is at most the parent, and the rest fits its unit |
| Splits.OverCarveRefused | crates/transform/src/split.rs:66-71 | carving out more than there is, is refused with the exact amounts |
| Splits.CarveRefused | crates/transform/src/split.rs:46-65 | the first carve-out that is negative, in an unregistered unit or of another dimension is refused as such |
| Combines.ExecuteCombine | crates/transform/src/combine.rs:68-142 | the checking loop and the balance |
| Combines.CheckedExactly | crates/transform/src/combine.rs:79-114 | an input passes if and only if it is of the dimension of the output, not negative, both it and what is available canonicalize, and its number of canonical units is at most that of what is available; the dimension of what is available is not looked at |
| Combines.CombineBalances | crates/transform/src/combine.rs:66-142 | input is output plus loss exactly, whatever the units; the loss is never negative |
| Combines.CombineSucceedsExactly | crates/transform/src/combine.rs:66-142 | a combine succeeds if and only if every input passes, all can be added up in their order, the output is at most the total, and the rest fits and can be expressed in the unit of the output |
| Combines.OverConsumptionRefused | crates/transform/src/combine.rs:95-114 | the first input that asks for more than is available, or for what is not listed, is refused with the exact amounts |
| Combines.NegativeBalanceRefused | crates/transform/src/combine.rs:118-130 | an output above all that goes in is refused with the exact amounts |
| Combines.ChecksAreIndependent | crates/transform/src/combine.rs:95-114 | availability is checked entry by entry, never added up |
| Ledgers.StepKeepsBalance | crates/transform/tests/property_conservation.rs:186-209 | issuing, splitting and combining each keep issued = held + lost |
| Ledgers.StepMoves | crates/transform/tests/property_conservation.rs:117-209 | what each passport holds after a step: it moves just what was issued, carved out or taken |
| Ledgers.RunConserves | crates/transform/tests/property_conservation.rs:203-209 | so does every run |
| Ledgers.RunKeepsSign | crates/transform/tests/property_conservation.rs:117-209 | over every run of combines with distinct inputs and outputs that are not negative, no holding and no loss is negative |
| Ledgers.IssuedIsHeldOrLost | crates/transform/tests/property_conservation.rs:30-209 | from nothing, over every run in one dimension, what was issued is what is held plus what was lost, exactly |
| Ledgers.LossWithinInputsUnlessOutputNegative | crates/transform/src/combine.rs:118-132 | the loss stays within the inputs if and only if the output is not negative, which `combine` does not check |
| Overdrafts.ListedTwiceIsOverdrawn | crates/transform/src/combine.rs:68-142 | for inputs that list a passport twice there is a combine that succeeds and takes the whole of what is available twice |
| Overdrafts.OtherDimensionAccepted | crates/transform/src/combine.rs:95-114 | for inputs of which only something of another dimension is available there is a combine that succeeds all the same |
| Overdrafts.RespectsExactly | crates/transform/src/combine.rs:66-114 | a successful combine of distinct inputs takes from every passport at most what is available of it, in kind and amount, if and only if all that is available is of the dimension of the output |
| Overdrafts.WellListedExactly | crates/transform/src/combine.rs:66-114 | for canonical units: no passport is listed twice and all is available in units of the dimension of the output, if and only if every successful combine so listed respects what is available |
| Overdrafts.NothingToOverdraw | crates/transform/src/combine.rs:95-114 | why units of positive factor are not enough for that: with a factor no amount but zero converts by, even duplicates take no more than is available |
| Overdrafts.OutputBelowZeroAccepted | crates/transform/src/combine.rs:118-132 | an output of minus one is accepted, with a loss above all that went in |
| Overdrafts.KilogramsOverdrawn | crates/transform/src/combine.rs:68-142 | all three in a registry of kilograms and joules, spelled out |
| Commitments.BodyFixesEvent | crates/event/src/payload.rs:319-374 | a body fixes the sequence number, the text of the time and all behind it |
| Commitments.BodyIsTheEvent | crates/event/src/payload.rs:319-374 | with less than a second of nanoseconds, equal bodies are equal events, in every year |
| Commitments.SaltedIsAnotherString | crates/event/src/commitment.rs:25-31 | a salt adds 32 bytes, so salted and unsalted strings of one body differ |
| Commitments.SaltedIsNeverUnsalted | crates/event/src/commitment.rs:25-31 | no salted string is an unsalted one, whatever the events, predecessors and salt |
| Commitments.StringFixesAll | crates/event/src/commitment.rs:25-31 | what is hashed for an event fixes salt, absence included, predecessor and body |
| Commitments.StringFixesSalt | crates/event/src/commitment.rs:25-31 | body and predecessor given, the hashed string fixes the salt, absence included |
| Commitments.StringParts | crates/event/src/commitment.rs:25-31 | both salted or both unsalted, the string fixes salt, predecessor and body |
| Commitments.BindingIsUnique | crates/event/src/commitment.rs:12-21 | a blind parent reference opens to one parent and one salt |
| EventLogs.EventLog.Append | crates/event/src/log.rs:73-99 | only the next event in sequence is taken; nothing sealed is touched |
| EventLogs.EventLog.Verify | crates/event/src/log.rs:102-144 | the verification loop |
| EventLogs.EventLog.VerifyWithSalts | crates/event/src/log.rs:147-169 | the verification loop with salts |
| EventLogs.EventLog.VerifyAgainstAnchor | crates/event/src/log.rs:173-185 | the head is compared with the anchor |
| EventLogs.SaltStore.Remember | crates/event/src/log.rs:301-303 | a salt is stored under its reference |
| EventLogs.VerifiedExactly | crates/event/src/log.rs:102-144 | a log passes if and only if every entry is in place and holds |
| EventLogs.VerifiedWithSaltsExactly | crates/event/src/log.rs:147-169 | the same with salts |
| EventLogs.FirstBrokenIsNamed | crates/event/src/log.rs:102-169 | a log that fails is blamed on its first broken entry, out of sequence or at its place |
| EventLogs.UnsaltedNeedsNoSalts | crates/event/src/log.rs:102-169 | without salted entries the two verifications agree |
| EventLogs.ResumedVerifies | crates/event/src/log.rs:76-144 | what is appended to a verified log verifies with it if and only if it is in sequence; the whitening check never rejects an honest entry |
| EventLogs.HonestLogVerifies | crates/event/src/log.rs:76-144 | so every log reached by appending passes `verify` |
| EventLogs.HonestLogVerifiesWithItsSalts | crates/event/src/log.rs:76-169 | it passes `verify_with_salts` if and only if the store yields the salt of every salted entry |
| EventLogs.HonestLogVerifiesForItsOwner | crates/event/src/log.rs:147-169 | with each salt remembered under a reference of its own it always does |
| EventLogs.RememberedIsFound | crates/event/src/log.rs:299-307 | salts remembered under distinct references are all found again |
| EventLogs.PrefixVerifies | crates/event/src/log.rs:1-9 | a prefix of a verified log verifies |
| EventLogs.HeadFixesHistory | crates/event/src/log.rs:146-185 | two logs verified with salts, each with a store of its own, with one head record one history: length, bodies, salts and chain |
| EventLogs.AnchorFixesSaltedHistory | crates/event/src/log.rs:146-185 | of the logs that verify with salts, an anchor admits exactly those with the witnessed bodies and salts |
| EventLogs.TruncationIsSeenByTheAnchorOnly | crates/event/src/log.rs:1-9 | a strict prefix, salted or not, verifies and is refused by the anchor |
| EventLogs.AnchorFixesUnsaltedTail | crates/event/src/log.rs:102-185 | without salts, two logs that pass `verify` and end in k unsalted entries have one head if and only if these entries agree in place, body and what they follow |
| EventLogs.AnchorFixesHistory | crates/event/src/log.rs:171-185 | so of the logs without salted entries, an anchor admits exactly those with the witnessed bodies |
| EventLogs.SaltedEndMeetsAnyAnchor | crates/event/src/log.rs:102-185 | any verified log with one entry flagged as salted behind it meets any anchor, and passes `verify` unless the anchor is the unsalted commitment of that entry |
| EventLogs.AnchorAdmitsFork | crates/event/src/log.rs:102-185 | nothing before the unsalted tail is fixed: everything up to an entry can be exchanged once it is flagged as salted |
| EventLogs.SaltedFlagAdmitsFork | crates/event/src/log.rs:102-185 | at every place of a witnessed log, flagging an unsalted entry as salted admits a fork that differs just there |
| EventLogs.EditIsSeen | crates/event/src/log.rs:101-144 | which edits of event, number, predecessor, flag and reference `verify` accepts, exactly: for an unsalted entry, the same body unsalted or another body flagged as salted |
| EventLogs.EditIsSeenWithSalts | crates/event/src/log.rs:146-169 | with the salts, exactly the edits that keep number, predecessor, body and salt pass |
| EventLogs.ExchangedExactly | crates/event/src/log.rs:101-144 | any entry of a verified log exchanged for anything: `verify` accepts it if and only if number and predecessor are those of the place, the entry holds by itself, and the commitment is the old one if another entry is behind it |
| EventLogs.ExchangedExactlyWithSalts | crates/event/src/log.rs:146-169 | the same for the verification with salts |
| EventLogs.ResealedLastEntryPasses | crates/event/src/log.rs:101-144 | the last entry exchanged for any event with its number, sealed anew, passes |
| EventLogs.ResealedTailPasses | crates/event/src/log.rs:101-169 | from any place on, the entries of a log exchanged for any unsalted events in sequence, sealed anew: neither verification sees it |
| EventLogs.AnchorSeesResealedTail | crates/event/src/log.rs:171-185 | the anchor admits such a log if and only if its tail is the witnessed one, all unsalted |
| EventLogs.NotAfterIsEarlier | crates/model/src/time.rs:17-21 | below one second of nanoseconds, timestamps are ordered as the instants they denote |
| EventLogs.ImproperOrder | crates/model/src/time.rs:17-21 | that bound is needed: two seconds, written as nanoseconds, are ordered before one |
| EventLogs.AsOfExactly | crates/event/src/log.rs:187-192 | an entry is in the view at t if and only if it and all before it occurred at instants up to that of t |
| EventLogs.AsOfIsComplete | crates/event/src/log.rs:187-192 | the views show all that had occurred, at all times, if and only if the log is in the order of its instants |
| EventLogs.AsOfGrows | crates/event/src/log.rs:187-192 | the view at a later instant extends that at an earlier one |
| EventLogs.StateHashFixesView | crates/event/src/log.rs:194-197 | of logs that verify with salts, two have one state hash at t if and only if they said the same at t |
| CanonicalCodec.CanonicalWriter.WriteTag | crates/model/src/digest.rs:114-116 | appends exactly this encoding to the buffer |
| CanonicalCodec.CanonicalWriter.WriteBytes | crates/model/src/digest.rs:118-121 | appends exactly this encoding to the buffer |
| CanonicalCodec.CanonicalWriter.WriteStr | crates/model/src/digest.rs:123-125 | appends exactly this encoding to the buffer |
| CanonicalCodec.CanonicalWriter.WriteOptStr | crates/model/src/digest.rs:132-140 | appends exactly this encoding to the buffer |
| CanonicalCodec.CanonicalWriter.WriteOptHash | crates/model/src/digest.rs:142-150 | appends exactly this encoding to the buffer |
| CanonicalCodec.CanonicalWriter.WriteU16 | crates/model/src/digest.rs:156-158 | appends exactly this encoding to the buffer |
| CanonicalCodec.CanonicalWriter.WriteU32 | crates/model/src/digest.rs:160-162 | appends exactly this encoding to the buffer |
| CanonicalCodec.CanonicalReader.TakeBytes | crates/model/src/digest.rs:206-216 | result and new position are those of the reading function on the remaining bytes |
| CanonicalCodec.CanonicalReader.Tag | crates/model/src/digest.rs:218-220 | result and new position are those of the reading function on the remaining bytes |
| CanonicalCodec.CanonicalReader.Bytes | crates/model/src/digest.rs:222-225 | result and new position are those of the reading function on the remaining bytes |
| CanonicalCodec.CanonicalReader.Str | crates/model/src/digest.rs:232-235 | result and new position are those of the reading function on the remaining bytes |
| CanonicalCodec.CanonicalReader.OptStr | crates/model/src/digest.rs:237-243 | result and new position are those of the reading function on the remaining bytes |
| CanonicalCodec.CanonicalReader.OptHash | crates/model/src/digest.rs:245-251 | result and new position are those of the reading function on the remaining bytes |
| CanonicalCodec.CanonicalReader.Uint | crates/model/src/digest.rs:257-272 | result and new position are those of the reading function on the remaining bytes |
| CanonicalCodec.BytesExactly | crates/model/src/digest.rs:118-225 | a byte field is read exactly where it stands behind its 32-bit length, and what follows is left |
| CanonicalCodec.StrExactly | crates/model/src/digest.rs:123-235 | so is a text, in well-formed UTF-8 |
| CanonicalCodec.OptStrExactly | crates/model/src/digest.rs:132-243 | so is an optional text, behind a presence byte of zero or one |
| CanonicalCodec.OptHashExactly | crates/model/src/digest.rs:142-251 | so is an optional hash |
| ByteCodec.FrameAllInjective | crates/model/src/digest.rs:94-121 | framed parts can be told apart: none bleeds into the next, none is added or dropped |
| Utf8.DecodesExactly | crates/model/src/digest.rs:123-235 | bytes are read as a text if and only if they are its UTF-8: overlong forms, surrogates and stray bytes are refused |
| Identifiers.NewPassportId | crates/model/src/ids.rs:18-36 | a passport id is made if and only if the trimmed lower-case text is short graphic ASCII, and is that text |
| Identifiers.PassportIdReadsBack | crates/model/src/ids.rs:18-54 | a passport id is its own normal form |
| Tokens.ParsesStatusExactly | crates/model/src/lib.rs:120-143 | a text is read as a status if and only if it is its token up to casing and separators; no two tokens are |
| Tokens.ParsesSafetyExactly | crates/model/src/lib.rs:120-143 | the same for the safety flags |
| Tokens.SuiteOfCode | crates/model/src/trust.rs:87-96 | codes 1 to 5 name the suites, and no other code does |
| Packer.EncodePayload | crates/tier_a/src/packer.rs:79-130 | the writer produces the tagged fields and the projected length, or refuses a signature over 65535 bytes |
| Packer.EncodeSlots | crates/tier_a/src/packer.rs:100-129 | the loop over at most 255 slots |
| Packer.DecodePayload | crates/tier_a/src/packer.rs:133-224 | the tag loop over the moving reader |
| Packer.DecodeField | crates/tier_a/src/packer.rs:147-203 | what it does for each tag |
| Packer.DecodeSlots | crates/tier_a/src/packer.rs:180-201 | the loop over the slots |
| CarrierFields.FieldAtExactly | crates/tier_a/src/packer.rs:147-203 | a field is read exactly where its bytes stand: no field is the beginning of another |
| CarrierFields.RunIsUnique | crates/tier_a/src/packer.rs:133-224 | bytes are one run of fields at most |
| CarrierFields.DecodedExactly | crates/tier_a/src/packer.rs:133-224 | bytes decode to a payload if and only if they are a run of fields in any order, each of which parses, every mandatory tag occurs, and each component is what the last field of its tag parses to, the slots those of all slot fields |
| CarrierFields.MissingTagIsRefused | crates/tier_a/src/packer.rs:205-224 | so without a field of each mandatory tag nothing is decoded |
| CarrierFields.TailIsRun | crates/tier_a/src/packer.rs:133-203 | behind a run of fields only a run of fields is accepted |
| CarrierFields.UnknownTagIsRefused | crates/tier_a/src/packer.rs:202-203 | any other tag is refused, whatever run is in front |
| CarrierFields.TruncatedFieldIsRefused | crates/tier_a/src/packer.rs:133-203 | and so is a field that is cut off anywhere |
| Packer.ReadFieldBack | crates/tier_a/src/packer.rs:79-203 | one turn of the decoding loop undoes one encoded field |
| Packer.DecodeEncode | crates/tier_a/src/packer.rs:79-224 | decoding undoes encoding for at most 255 slots, signatures below 65535 bytes, times of the years 0 to 9999 and a product that prints back to itself |
| Packer.DecodeEncodeExactly | crates/tier_a/src/packer.rs:79-224 | and only then |
| Packer.LongSignatureIsLost | crates/tier_a/src/packer.rs:69-125 | a signature of 65535 bytes collides with the placeholder mark and comes back as none |
| Packer.LongSignatureNeverReturns | crates/tier_a/src/packer.rs:69-224 | so such a payload never decodes to itself, whatever is read from its bytes |
| Packer.SlotLength | crates/model/src/trust.rs:133-142 | a signed slot takes four bytes more than `projected_len` reports: the length prefix of the key |
| Packer.ProjectedIsTheSum | crates/tier_a/src/packer.rs:100-130 | the projected length is the header, two bytes and the slots with their reserves |
| Packer.SigningKeepsBudget | crates/tier_a/src/packer.rs:100-130 | signing placeholders leaves the projected length as it is; fully signed, the encoded length is exactly it |
| Qr.VersionHoldsExactlyFrom | crates/tier_a/src/qr.rs:50-53 | the version found is the least that holds the bytes, and exactly the versions from it on do |
| Qr.CapacityGrows | crates/tier_a/src/qr.rs:17-48 | a larger symbol holds more, at every correction level |
| Packer.PackTakesTheLeastVersion | crates/tier_a/src/packer.rs:226-256 | packing succeeds if and only if the largest version allowed holds the projected bytes, takes the least version that does and carries the encoded bytes; else it reports both sizes |
| Packer.PackedReadsBack | crates/tier_a/src/packer.rs:79-256 | what is in the symbol decodes to the payload exactly under the conditions of the round trip |
| Packer.SignedStillFits | crates/tier_a/src/packer.rs:226-256 | what was packed with placeholders fits the same symbol when signed |
| Provenance.Walk | crates/transform/src/provenance.rs:52-70 | the worklist ends on every graph, cycles included, with exactly the nodes reached by one edge or more |
| Provenance.ProvenanceGraph.RecordSplit | crates/transform/src/provenance.rs:25-36 | both maps get the edges of the split |
| Provenance.ProvenanceGraph.RecordCombine | crates/transform/src/provenance.rs:39-50 | both maps get the edges of the combine |
| Provenance.ProvenanceGraph.Ancestors | crates/transform/src/provenance.rs:72-75 | the nodes reached upwards |
| Provenance.ProvenanceGraph.Descendants | crates/transform/src/provenance.rs:77-81 | the nodes reached downwards |
| Provenance.ProvenanceGraph.RecallSet | crates/transform/src/provenance.rs:83-90 | the root with its descendants |
| Provenance.ProvenanceGraph.TaintsOf | crates/transform/src/provenance.rs:92-108 | the union over the passport and its ancestors |
| Provenance.SplitEdges | crates/transform/src/provenance.rs:25-36 | a split adds an edge from the parent to each child and no other |
| Provenance.CombineEdges | crates/transform/src/provenance.rs:39-50 | a combine adds an edge from each input to the output and no other |
| Provenance.RecordingsKeepConverse | crates/transform/src/provenance.rs:25-50 | whatever is recorded, the two maps stay converse and no edge is lost |
| Provenance.AncestorIffDescendant | crates/transform/src/provenance.rs:72-81 | a is an ancestor of b if and only if b is a descendant of a |
| Provenance.EffectiveExactly | crates/transform/src/provenance.rs:83-108 | a taint is effective on a passport exactly if it lies in the recall set of a source that carries it |
| Provenance.TaintFlowsDown | crates/transform/src/provenance.rs:92-108 | all taints of a passport are effective on everything downstream, and so is voiding from the beginning, which is for the kinds misissued and fraud |
| Provenance.TaintsNeverShrink | crates/transform/src/provenance.rs:25-108 | recording more edges never removes a taint |
| Provenance.InheritTaints | crates/transform/src/combine.rs:144-157 | the union of the taints of the inputs |
| Provenance.InheritedIsEffective | crates/transform/src/combine.rs:144-157 | what a combine inherits is effective on its output once recorded |
| Taints.TaintSet.Add | crates/transform/src/taint.rs:122-124 | adds one entry |
| Taints.TaintSet.Merge | crates/transform/src/taint.rs:126-130 | the insertion loop is set union |

## Left out

- SHA-256 itself: a parameter of the model, see above.
- Serialization by serde and the hexadecimal form of hashes; of the JSON body of an event only the sequence number and the
  timestamp are looked into, the text behind them is kept as it is (untagged enumerations make the rest ambiguous).
- `Timestamp::now`: the time is a parameter of `Attestations.Build`.
- The range of `i64`: seconds, days and years are unbounded integers, so overflow at the far ends of the calendar does not show.
- `usize` and `u64`: counters are unbounded; where eight bytes of them are written, fitting 64 bits is a condition.
- DecimalText.ParsePrint: does not cover the least `i128` as mantissa, which the source cannot print.
- Rollups.NewTraversalSet: works on a value and returns the sorted list; the in-place sort of the library is not part of the model.
- Attestations.VerifyRollup: where the aggregates cannot be computed it carries the error, not the text of its message.
- Packer.DecodePayload: errors carry their kind, not their message.
- Of errors that name two units or carry a message only the kind is kept, with the amounts and passports in question.
- Packer.DecodeEncode: the product identifier is abstract, anything that can be printed and parsed; identifier schemes are not
  part of this model.
- Packer.DecodeEncodeExactly: assumes that every text fits its 32-bit length; a longer one is written behind a truncated length.
- The seeded ISO 80000 registry, parsing and display of quantities, dimensions and units.
- Stamp contexts are carried along unread; the taint index and availability are maps given by the caller, as in the source.
- Event payloads, the status machine, replay of status, safety flag and custodian: one-line folds over opaque payloads.
- `Spine` beyond commitments: segment contents and publication.
- Roles, resolution, verdict ladder, onboarding, lifecycle, profile mapping, multilingual tags and uncertainty arithmetic:
  finite tables or single decisions.
