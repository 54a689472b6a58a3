# Linvesther: verified core

A Dafny model of the parts of Linvesther whose correctness an outsider relies on:
the Merkle commitments a proof is checked against, the canonical text consent is
signed over, the indexer that follows a chain through reorgs, the performance
figures, the calendar that says when a checkpoint is missing, and the guards in
front of the API. `dafny verify dfyconfig.toml` checks the whole project.

## Main results

- **Commitments.** A root determines the whole ordered leaf list, whatever the two
  lengths, although odd levels duplicate their last node. A proof is accepted
  against a built root exactly when it is the proof the tree itself gives for the
  leaf at that index. Every statement holds for an arbitrary hash function `h`:
  either it is true or two of the byte strings actually hashed collide. The
  candidate strings are an explicit finite set, because a bare "some collision
  exists" is true of every 32-byte hash. The framing has a decoder that reads `b` as
  `(tag, fields)` if and only if `b` frames them.
- **Consent text.** Two claim sets have the same canonical text if and only if they
  mean the same, objects being maps from key to meaning. The hard half is a parser
  that recovers the value from the text, escapes, lone surrogates and undefined
  members included. Among all values, the text determines the meaning exactly when no
  array is empty or holds one undefined item alone: those two print alike.
- **Indexer.** One tick of the stateful indexer does exactly what a specification on
  values says, to the view, the tags, the report and both store logs; it fails only
  when the node does not know the local tip, and then changes nothing. Over any run
  the view is the node's own blocks up to its included tip exactly when the node knows
  the local tip and that tip is not below the last shared block; the tags are those
  the last successful snapshot allows; and no block ever tagged finalized is reverted.
- **FIFO win rate.** After every fill the lot queue is the run-length form of a queue
  of single units, exactly when no sell reaches a lot of no positive quantity; what
  stays open is the largest suffix sum of bought minus sold.
- **Returns.** The time-weighted index is the unit price of a simulated fund. The
  combined curve of flow-free accounts is the ratio of total value to starting value,
  and each step factor lies between those of the accounts counted. The two drawdown
  routines agree, and a reported recovery follows the trough exactly when the series
  does not touch its peak level in between.
- **Exact totals.** The returned string reads back as the exact sum at the widest
  scale, and neither grouping nor order can be seen in it.
- **Calendar.** Derived gaps have a closed form in 64-bit arithmetic, and segments
  and gaps cover each instant of the track exactly once.
- **Guards.** One key gets at most the maximum in each window, and at most twice that
  in any interval as long as the window in which a window opens, exactly when the
  maximum is at least one: the call that opens a window always passes. Sweeping never changes an answer; the SQL counter agrees with the
  in-memory one exactly when the maximum is at least one. A nonce is accepted at most
  once, only while it lives, and always if fewer than the capacity were issued since.
- **Ledger and valuation.** Every reachable ledger equals the sum of its recorded
  events counted once, in any order and with any repetition; reconstruction between
  two cuts moves by exactly the deltas between them.

## How the source is modelled

Code that loops or updates fields is a method or a class here, proved against a
function on values; what the source promises is then proved about that function.
A value stands for an exception or an error return. The hash function, the decimal
parser, the clock, random nonces and the node's answers are parameters. Decimals are
exact rationals (`real`), or whole numbers of their smallest step where units are
counted; `i64` is a bounded type, and an overflowing sum is a value of its own.
Lemmas that end in `InFull` pin down what such a function computes in terms of the
data alone: which byte, which side, which order. `hide` statements only keep definitions out of a proof that does not need them.

Where code and comments disagree, the model follows the code:

- `max_drawdown` is documented to give nothing for an empty series; it also gives
  nothing when no value is positive (`crates/domain/metrics/src/drawdown.rs:44`).
- `recovery_time` is documented as a scan at or after the peak; it is strictly after
  the peak and can stop before the trough (`crates/domain/metrics/src/drawdown.rs:77-83`).
- `segments_between` asks only for sorted, non-overlapping gaps; a gap that begins past
  the track's end also makes a segment overrun it
  (`crates/domain/checkpoint/src/continuity.rs:14-27`).
- At the very deadline a gap is already listed while `recover_late` still calls the
  recovery not late (`crates/domain/checkpoint/src/continuity.rs:66-72`).
- A limiter with a maximum below one still lets the first call of each window through
  (`apps/api/src/auth/rateLimiter.ts:26-33`).
- When a node's included tip lies below the last block it shares with the local view,
  the view keeps the blocks above that tip
  (`services/chain-worker/src/indexer/indexer.ts:62-64`).
- The first number to index is documented to matter only on a cold start; it matters
  again after a reorg has emptied the view, and whenever else the view is empty
  (`services/chain-worker/src/indexer/indexer.ts:31-46`).
- A lot of no positive quantity counts as a closed round trip when a sell reaches it,
  though nothing is matched (`crates/domain/metrics/src/winrate.rs:63-81`).

## Model

| member | source | states |
|---|---|---|
| `Merkle.RootBinds` | crates/commitments/src/merkle.rs:75-96 | equal roots mean equal ordered leaf lists of any lengths, empty included, or two byte strings hashed in the two builds collide |
| `Merkle.AcceptedIffGenuine` | crates/commitments/src/merkle.rs:167-204 | against a built root a proof is accepted exactly when index, count, leaf and every sibling are the tree's own, up to a collision; nothing verifies against the empty tree |
| `Merkle.ProofAccepted` | crates/commitments/src/merkle.rs:104-134 | completeness without any assumption on the hash: the proof made for leaf `i` is accepted |
| `Merkle.LevelsHeight` | crates/commitments/src/merkle.rs:149-160 | the height computed from the count is the number of reductions the build makes |
| `Merkle.Build` | crates/commitments/src/merkle.rs:75-96 | the loop over levels yields the levels, count and root of the recursive tree, and the empty tree's own root |
| `Merkle.TreeInFull` | crates/commitments/src/merkle.rs:75-96 | the levels start with the leaves, each next one hashes the pairs of the one before, left before right and an odd last node with itself, the last is one node, and the root frames the eight-byte count and that node; the empty tree's root is spelt out |
| `Merkle.ReduceLevel` | crates/commitments/src/merkle.rs:137-147 | each pair hashed in order, an unpaired last node with itself |
| `Merkle.ReduceInFull` | crates/commitments/src/merkle.rs:43-45 | node `i` of the next level is the hash of the framing of nodes `2i` and `2i + 1`, in that order, or of the last node twice |
| `Merkle.Prove` | crates/commitments/src/merkle.rs:104-134 | the sibling at every level from leaf to root, or the error for an empty tree or an index past the count |
| `Merkle.ExpectedHeight` | crates/commitments/src/merkle.rs:149-160 | the number of rounded-up halvings that bring the count to one |
| `Merkle.VerifyInclusion` | crates/commitments/src/merkle.rs:167-204 | succeeds exactly on proofs that fold to the root with the right sibling count, and says which check failed otherwise |
| `Merkle.DomainsSeparated` | crates/commitments/src/merkle.rs:13-16 | leaf, node, tree and empty preimages are pairwise distinct |
| `Merkle.PreimagesDecode` | crates/commitments/src/merkle.rs:34-53 | a decoder reads each preimage back as its tag and its parts in order: salt then record, left then right, count then top |
| `Merkle.TagBytes` | crates/commitments/src/merkle.rs:13-16 | the four tags byte by byte |
| `Merkle.RecordLeafInFull` | crates/commitments/src/merkle.rs:34-38 | a record's leaf hashes the framing of its salt and its canonical bytes |
| `Merkle.RecordsBound` | crates/commitments/src/merkle.rs:34-38 | a root over salted records binds every salt and every canonical record, up to a collision |
| `AccountSet.VerifyAccountSetRoot` | crates/verifier/src/root.rs:13-32 | accepts exactly when the root rebuilt from the hashes of the ids, in the order given, is the claimed one |
| `AccountSet.MembersInFull` | crates/verifier/src/root.rs:13-26 | the leaves are the hashes of the ids, in the order given |
| `AccountSet.AtMostOneMembership` | crates/verifier/src/root.rs:17-32 | one root is accepted for at most one ordered list of member ids, up to a collision |
| `Framing.DecodeIffFramed` | crates/commitments/src/framing.rs:1-36 | bytes decode to a tag and fields exactly when they are the framing of those parts, for any number and lengths of fields |
| `Framing.FrameInjective` | crates/commitments/src/framing.rs:8-12 | different tags or fields never share a preimage |
| `Framing.FrameInFull` | crates/commitments/src/framing.rs:27-36 | the preimage is four bytes of tag length, the tag, and then every field in order behind eight bytes of its length |
| `Framing.BytesStandFor` | crates/commitments/src/framing.rs:38-48 | four and eight length bytes stand for their big-endian value |
| `Framing.FrameHash` | crates/commitments/src/framing.rs:27-48 | hashes exactly the framing, or reports the first length that does not fit its prefix |
| `Framing.BigEndianRoundTrip` | crates/commitments/src/framing.rs:38-48 | a length within its width survives its fixed-width big-endian prefix |
| `CanonicalJsonMeaning.SameTextIffSameMeaning` | apps/web/lib/claimConsent.ts:10-19 | values with no array of one undefined item, as all claim sets are, have the same text exactly when they mean the same: key insertion order never matters and everything else does |
| `CanonicalJsonMeaning.TextDeterminesMeaningIff` | apps/web/lib/claimConsent.ts:11-19 | among all values the text determines the meaning exactly when no array in the value, at any depth, is empty or holds one undefined item alone |
| `CanonicalJsonProofs.SameTextIffSameShown` | apps/web/lib/claimConsent.ts:11-19 | any two values have the same text exactly when they differ at most in key order and in arrays of one undefined item written for empty ones |
| `CanonicalJsonMeaning.BlankIsLost` | apps/web/lib/claimConsent.ts:13 | an array of one undefined item and the empty array are different values with one text |
| `CanonicalJsonProofs.CanonicalParses` | apps/web/lib/claimConsent.ts:11-19 | a parser recovers what the text shows of a value, whatever text follows, unless a final number is followed by more of a number |
| `CanonicalJsonProofs.QuoteParses` | apps/web/lib/claimConsent.ts:12 | every string, control characters and lone surrogates included, is recovered from its quoted form (section 7 of RFC 8259) |
| `CanonicalJson.SortKeysSorts` | apps/web/lib/claimConsent.ts:15-16 | keys come out ascending by `Less`, none added or lost (section 3.2.3 of RFC 8785) |
| `CanonicalJsonText.LessMeansPrecedes` | apps/web/lib/claimConsent.ts:15-16 | one key is before another exactly when it ends first or has the smaller code unit where the two part |
| `CanonicalJsonText.ObjectInFull` | apps/web/lib/claimConsent.ts:14-18 | an object prints its members in ascending order of their keys' code units, each a quoted key, a colon and the text of that key's value, inside braces |
| `CanonicalJsonText.ArrayInFull` | apps/web/lib/claimConsent.ts:13 | an array prints its items in order inside brackets, an undefined one left blank |
| `CanonicalJsonText.JoinInFull` | apps/web/lib/claimConsent.ts:13-18 | a comma stands between each text and the next |
| `CanonicalJsonText.QuoteInFull` | apps/web/lib/claimConsent.ts:12 | a quoted string unit by unit, surrogate pairs as they are |
| `CanonicalJsonText.EscapeInFull` | apps/web/lib/claimConsent.ts:12 | the seven short escapes, four lower-case hexadecimal digits for other controls and lone surrogates, and every other unit as it is (section 7 of RFC 8259) |
| `CanonicalJson.AscendingUnique` | apps/web/lib/claimConsent.ts:15-16 | a set of keys has only one ascending listing |
| `Indexing.Indexer.SyncOnce` | services/chain-worker/src/indexer/indexer.ts:40-69 | one tick leaves the specified view and tags, gives the specified report, extends the apply log by exactly the applied blocks and the revert log by the abandoned ones, tip first and position by position, and fails without effect only when the node does not know the local tip |
| `Indexing.Indexer.FindDivergence` | services/chain-worker/src/indexer/indexer.ts:71-87 | stopping at the first match from the tip finds the lowest block off the canonical chain, or none |
| `Indexing.Indexer.ExtendTo` | services/chain-worker/src/indexer/indexer.ts:89-99 | applies and appends exactly the node's blocks of the range with their tags; the store never refuses one as a duplicate |
| `Indexing.Indexer.Reorganise` | services/chain-worker/src/indexer/indexer.ts:52-61 | the diverged blocks are reverted tip first, the agreed ones kept, the canonical ones applied, and all three are reported |
| `Indexing.Indexer.RevertAll` | services/chain-worker/src/indexer/indexer.ts:54-57 | every revert finds its block in the store, and what stays applied is the kept prefix |
| `Indexing.Indexer.Retag` | services/chain-worker/src/indexer/indexer.ts:101-106 | every kept block carries the tag of the latest snapshot and nothing else changes |
| `Indexing.MemoryProjectionStore.Apply` | services/chain-worker/src/indexer/memoryProjectionStore.ts:17-24 | appends and logs a new block; refuses a key already applied without effect; keeps the applied blocks those the two logs say survive |
| `Indexing.MemoryProjectionStore.Revert` | services/chain-worker/src/indexer/memoryProjectionStore.ts:26-33 | removes and logs an applied block; refuses any other without effect; keeps the applied blocks those the two logs say survive |
| `Indexing.MemoryProjectionStore.Current` | services/chain-worker/src/indexer/memoryProjectionStore.ts:35-39 | of every key applied more often than reverted the last block logged, in the order logged, and nothing else |
| `Indexing.SurvivorsHas` | services/chain-worker/src/indexer/memoryProjectionStore.ts:35-39 | a key survives exactly when it is in the apply log and was applied more often than reverted |
| `IndexerSpec.LinksFixPrefix` | services/chain-worker/src/indexer/indexer.ts:71-87 | two hash-linked chains that meet in one header agree on everything below it |
| `IndexerSpec.AgreedIsACut` | services/chain-worker/src/indexer/indexer.ts:76-87 | a matching hash settles everything at and below it, a differing one everything at and above it |
| `IndexerSpec.SyncedIsCanonical` | services/chain-worker/src/indexer/indexer.ts:40-69 | after a tick the view is canonical headers, contiguous from the first indexed number, up to the included tip unless that lies below the agreed part |
| `IndexerSpec.RunFollowsTheNode` | services/chain-worker/src/indexer/indexer.ts:40-69 | in any run of ticks with arbitrary reorgs, after a tick the local headers are the node's blocks from the first indexed number to the included tip exactly when the node knows the local tip and its included tip is not below the last shared block |
| `IndexerSpec.LaggingTipIsNotFollowed` | services/chain-worker/src/indexer/indexer.ts:62-64 | a three-block view stays three blocks long when the same node reports number 1 as included |
| `IndexerSpec.FirstNumberMattersIff` | services/chain-worker/src/indexer/indexer.ts:31-46 | two first numbers give a tick different views exactly when the view is empty, they differ, and one is not above the included tip |
| `IndexerSpec.EmptiedIff` | services/chain-worker/src/indexer/indexer.ts:52-61 | a tick leaves the view empty exactly when it was empty and starts above the included tip, or when none of it is canonical and all of it lay above that tip |
| `IndexerSpec.FirstNumberMattersAgain` | services/chain-worker/src/indexer/indexer.ts:31-46 | a run whose view a reorg empties, after which starting from 1 and from 2 give different views |
| `IndexerSpec.RunKeepsChainOk` | services/chain-worker/src/indexer/indexer.ts:24-29 | the local view stays contiguous and hash-linked all along a run |
| `IndexerSpec.RevertedAreNotCanonical` | services/chain-worker/src/indexer/indexer.ts:52-61 | everything a tick reverts is off the canonical chain |
| `IndexerSpec.ReportInOrder` | services/chain-worker/src/indexer/indexer.ts:52-61 | there is a report exactly after a reorg; its reverted blocks are the abandoned ones from the old tip down to just above the common ancestor, its applied ones the node's from there up to the included tip |
| `IndexerSpec.FinalizedNeverReverted` | services/chain-worker/src/indexer/indexer.ts:1-7 | if nodes keep what they reported finalized, no block ever tagged finalized appears in a later report's reverted list |
| `IndexerSpec.TagsInOrder` | services/chain-worker/src/indexer/indexer.ts:11-15 | after every tick of a run, failed ones included, each tag of the view is held exactly by the blocks the last successful snapshot allows it, in the order finalized, safe, included, and all blocks are that node's |
| `WinRate.ComputeWinRate` | crates/domain/metrics/src/winrate.rs:50-93 | the counts of the lot queue over the stably sorted fills, wins at most closed at most the number of fills, the exact rate, and the error exactly when nothing closed |
| `WinRate.ChronologicalIsStable` | crates/domain/metrics/src/winrate.rs:55-56 | matching runs over the same fills, earliest first, ties in input order |
| `FifoMeaning.AfterEveryFill` | crates/domain/metrics/src/winrate.rs:58-82 | after every fill the lots are the run-length form of the unit queue, and closed and won round trips are the lots touched and the cheaper lots touched, exactly when no sell reaches a lot of no positive quantity |
| `FifoMeaning.ExchangeFillsRefine` | crates/domain/metrics/src/winrate.rs:58-82 | buys of positive quantity, in any order, never meet that exception and leave only positive lots |
| `FifoMeaning.EmptyBuyIsCounted` | crates/domain/metrics/src/winrate.rs:63-81 | a buy of zero and a sell after it count as one closed round trip though no unit changed hands |
| `FifoMeaning.SellRefines` | crates/domain/metrics/src/winrate.rs:63-81 | the inner loop takes exactly the first units of the queue, counting one round trip per lot, as long as the lots it reaches are positive |
| `FifoMeaning.OldestGoFirst` | crates/domain/metrics/src/winrate.rs:7-10 | the unit queue is all that was bought, in order, less as many of the oldest units as were matched |
| `FifoMeaning.TallyIsBook` | crates/domain/metrics/src/winrate.rs:50-93 | the counts agree with the unit-by-unit queue after every fill exactly in the same case, and the counts reported then do too |
| `FifoMeaning.UnitsConserved` | crates/domain/metrics/src/winrate.rs:45-49 | in the unit queue matched plus open is bought, matched plus skipped is sold |
| `FifoMeaning.OpenIsLargestSuffix` | crates/domain/metrics/src/winrate.rs:45-49 | in the unit queue what stays open is the largest of bought minus sold over the suffixes of the history |
| `FifoMeaning.LotsHoldLargestSuffix` | crates/domain/metrics/src/winrate.rs:50-82 | after every fill, while no sell reaches a lot of no positive quantity, the open lots hold what was bought and not matched, which is the largest of bought minus sold over the suffixes of the fills so far |
| `FifoMeaning.ExchangeLotsSum` | crates/domain/metrics/src/winrate.rs:50-82 | with buys of positive quantity the plain sum of the open lots is that largest suffix sum after every fill |
| `Twr.ComputeTwr` | crates/domain/returns/src/twr.rs:76-105 | the accumulating loop gives the composed result of the events' closings, or the first refusal |
| `Twr.IndexIsUnitPrice` | crates/domain/returns/src/twr.rs:1-33 | while valuations are positive the index is the final unit price of a fund whose flows trade units at the standing price |
| `Twr.RefusedIff` | crates/domain/returns/src/twr.rs:81-92 | refused exactly when some valuation closes on a baseline that is not positive, and the first such baseline is reported |
| `Twr.SubReturnsInFull` | crates/domain/returns/src/twr.rs:81-105 | each sub-return takes the value standing before its valuation to the value it gives, flows added in between, and the index compounds them |
| `Twr.SplitAtValuation` | crates/domain/returns/src/twr.rs:3-6 | splitting at a valuation multiplies the indexes and concatenates the sub-returns, refusals included |
| `Twr.FlowIsNeutral` | crates/domain/returns/src/twr.rs:24-27 | a flow and its matching revaluation leave the index unchanged and add a zero sub-return |
| `Twr.ScaleInvariant` | crates/domain/returns/src/twr.rs:76-105 | measuring all amounts in another unit changes no return |
| `Twr.ReturnsCompound` | crates/domain/returns/src/twr.rs:61-71 | returns over adjacent spans compound to the return over both |
| `Twr.CumulativeInFull` | crates/domain/returns/src/twr.rs:61-71 | the return between two points takes the first index to the second, or names the first when it is not positive |
| `Combine.CombineReturns` | apps/api/src/profile/combine.ts:21-49 | the cursor merge gives, at every distinct time in order, the product of the step factors so far |
| `Combine.Sample` | apps/api/src/profile/combine.ts:29-33 | every cursor ends at the last point of the leading run not after the time |
| `Combine.TimelineIsUnion` | apps/api/src/profile/combine.ts:22 | the times are exactly those of all points, ascending and once each |
| `Combine.StandsAtLastPoint` | apps/api/src/profile/combine.ts:29-31 | for points in time order an account stands at its last point not after the current time |
| `Combine.CurveIsTotalValue` | apps/api/src/profile/combine.ts:17-20 | for accounts with a shared start and no flows the curve is the ratio of total value to starting total value at every time |
| `Combine.FactorWithin` | apps/api/src/profile/combine.ts:34-44 | a step factor lies between the smallest and largest factor of the accounts counted; with nothing of value counted the curve stands still |
| `CombineLaws.FactorInFull` | apps/api/src/profile/combine.ts:34-44 | over accounts with points at both ends and a usable opening index, flows allowed, the step factor times the opening navs is those navs carried on at each index ratio; with nothing of value held the curve stands still |
| `CombineLaws.OneAccount` | apps/api/src/profile/combine.ts:21-49 | for one account in time order with positive navs and indexes, flows allowed, the curve is its current index over its first |
| `CurveSummary.MaxDrawdownOf` | apps/api/src/profile/combine.ts:51-59 | the largest fall below a positive running maximum, zero when there is none |
| `CurveSummary.DrawdownsAgree` | apps/api/src/profile/combine.ts:51-59 | the curve's drawdown is the magnitude of the worst episode of the same values |
| `CurveSummary.AtMostDaily` | apps/api/src/profile/combine.ts:8-15 | at most one point a day, the day's last, days in the order they first appear and ascending when the points are; the step reported is the given one or a day, whichever is longer |
| `Drawdown.MaxDrawdown` | crates/domain/metrics/src/drawdown.rs:38-75 | nothing exactly when no value is positive; otherwise the earliest trough whose fall from its running maximum is largest, with the earliest peak reaching that maximum |
| `Drawdown.ZeroHasNoEpisode` | crates/domain/metrics/src/drawdown.rs:38-75 | a series of one zero is not empty and has no worst episode |
| `Drawdown.TiesGoToTheOldest` | crates/domain/metrics/src/drawdown.rs:1-6 | among equal falls the oldest peak wins, and below it the oldest trough |
| `Drawdown.MagnitudeRange` | crates/domain/metrics/src/drawdown.rs:28-29 | the magnitude is never negative and at most one exactly for a trough that is not negative |
| `Drawdown.MagnitudeInFull` | crates/domain/metrics/src/drawdown.rs:28-29 | the magnitude of the peak is the fall from it |
| `Drawdown.RecoveryTime` | crates/domain/metrics/src/drawdown.rs:81-90 | the first point after the peak's time that is back at its level, or still open exactly when there is none |
| `Drawdown.RecoveryAfterTroughIff` | crates/domain/metrics/src/drawdown.rs:77-90 | the reported recovery falls after the trough exactly when the series does not revisit the peak level before it |
| `Drawdown.RecoveryBeforeTrough` | crates/domain/metrics/src/drawdown.rs:77-90 | a series whose recovery is reported before its own trough |
| `Totals.SumDecimals` | apps/api/src/readonly/totals.ts:14-29 | the two loops give the rendered total at the widest scale, or nothing when a value is no figure |
| `Totals.ParseIff` | apps/api/src/readonly/totals.ts:12 | a string is read as a figure exactly when it is how that figure is written |
| `TotalsText.FigureInFull` | apps/api/src/readonly/totals.ts:12 | a figure is an optional minus, digits, and optionally a point and more digits |
| `TotalsText.TrimInFull` | apps/api/src/readonly/totals.ts:18 | trimming takes white space off both ends and nothing else |
| `TotalsLaws.SumIsExact` | apps/api/src/readonly/totals.ts:1-11 | the returned string reads back as the exact sum of the values at the widest input scale, and is withheld exactly when some value is no figure |
| `TotalsLaws.RenderReads` | apps/api/src/readonly/totals.ts:31-36 | the output always re-parses, with exactly the asked decimals and the given value |
| `TotalsText.RenderInFull` | apps/api/src/readonly/totals.ts:31-36 | a minus exactly below zero, a whole part without a leading zero unless it is "0", and exactly `scale` decimals behind a point |
| `TotalsText.ScaleInFull` | apps/api/src/readonly/totals.ts:22 | the scale of a sum is the widest of its figures, zero when there is none |
| `TotalsLaws.GroupingIsInvisible` | apps/api/src/readonly/totals.ts:14-29 | summing sub-totals gives the identical string as summing everything at once |
| `TotalsLaws.OrderIsInvisible` | apps/api/src/readonly/totals.ts:14-29 | the order of the values cannot be seen in the result |
| `Calendar.DeriveGaps` | crates/domain/checkpoint/src/calendar.rs:20-41 | exactly the intervals missed by now, in order, up to the first that is not; refused exactly when an iteration reached before that needs a sum that does not fit |
| `Calendar.GapsClosedForm` | crates/domain/checkpoint/src/calendar.rs:25-41 | the number of gaps is the floor-division count and gap `k` is the `k`-th interval after the last committed end |
| `Calendar.MissedIff` | crates/domain/checkpoint/src/calendar.rs:29-33 | interval `k` is missed exactly when it is below that count |
| `Calendar.NoOverflow` | crates/domain/checkpoint/src/calendar.rs:29-30 | no sum overflows when the first deadline and now plus interval fit |
| `Calendar.GapsOnlyGrow` | crates/domain/checkpoint/src/calendar.rs:20-24 | gaps at an earlier time are a prefix of the gaps at any later time |
| `Continuity.SegmentsBetween` | crates/domain/checkpoint/src/continuity.rs:16-35 | the cursor loop gives the recursive split of the track |
| `Continuity.Partition` | crates/domain/checkpoint/src/continuity.rs:14-35 | each instant of the track is in exactly one segment or gap, none before it is in a segment, and past its end exactly those uncovered with a gap ahead are |
| `Continuity.SegmentsAreWhole` | crates/domain/checkpoint/src/continuity.rs:16-35 | no segment is empty, each runs from the start or the end of a gap to the start of a gap or the end, and they come in order |
| `Continuity.StaysInTrackIff` | crates/domain/checkpoint/src/continuity.rs:16-35 | the segments stay inside the track exactly when no gap begins past its end with open time before it |
| `Continuity.SegmentOverruns` | crates/domain/checkpoint/src/continuity.rs:16-35 | a track of five instants with one gap from 10 to 12 gets a segment of ten |
| `Continuity.DerivedGapsFit` | crates/domain/checkpoint/src/continuity.rs:16-35 | gaps derived from the calendar come in order and never make a segment overrun the time they were derived at |
| `Continuity.LateMeansListed` | crates/domain/checkpoint/src/continuity.rs:58-77 | a late recovery is accepted exactly when the gap is in the list derived an instant earlier; in the list derived at that time it stands in its own place exactly when it is accepted or the time is the very deadline |
| `Continuity.RecoverLateInFull` | crates/domain/checkpoint/src/continuity.rs:61-77 | late means strictly after the gap's end and the grace; what is recorded or refused names the gap, the time and the deadline |
| `Continuity.LateMeansMissed` | crates/domain/checkpoint/src/continuity.rs:66-72 | the same through the closed-form count of missed intervals, with no list derived |
| `RateLimits.RateLimiter.Allow` | apps/api/src/auth/rateLimiter.ts:22-36 | answers and updates one key's window, sweeping first when the table is full |
| `RateLimits.RateLimiter.Sweep` | apps/api/src/auth/rateLimiter.ts:38-43 | keeps exactly the windows that have not ended |
| `RateLimits.PostgresRateLimiter.Allow` | apps/api/src/auth/rateLimiter.ts:71-89 | upserts one row, counting refused calls too, and may delete ended rows |
| `RateLimits.SweepingIsInvisible` | apps/api/src/auth/rateLimiter.ts:38-43 | when and whether ended windows are swept changes no answer of any run |
| `RateLimits.MaximumPerWindowIff` | apps/api/src/auth/rateLimiter.ts:22-36 | a window grants one key at most the configured maximum exactly when that is at least one (zero, for windows of no length) |
| `RateLimits.WindowGrantsExactly` | apps/api/src/auth/rateLimiter.ts:22-36 | a window grants a key's first calls up to the maximum, or the opening call alone below one, and refuses every one after |
| `RateLimits.AllowInFull` | apps/api/src/auth/rateLimiter.ts:22-43 | one call in terms of the table alone: when a window opens, when a call counts, and that no other key's window changes |
| `RateLimits.RowInFull` | apps/api/src/auth/rateLimiter.ts:71-89 | one call on rows: every call counts, and it is allowed when the count it leaves is within the maximum |
| `RateLimits.TwiceTheMaximumIff` | apps/api/src/auth/rateLimiter.ts:22-43 | in a half-open interval as long as the window one key is granted at most twice the maximum exactly when that is at least one, or zero with no window opening in the interval by the times of the calls alone |
| `RateLimits.ZeroMaximumGrants` | apps/api/src/auth/rateLimiter.ts:26-30 | with a maximum of zero a single call is let through |
| `RateLimits.TwiceTheQuota` | apps/api/src/auth/rateLimiter.ts:22-43 | whatever the maximum, at most twice what one window can grant, whose first call always passes |
| `RateLimits.LimitersAgreeIff` | apps/api/src/auth/rateLimiter.ts:48-89 | on any non-empty run the two limiters answer alike exactly when the maximum is at least one |
| `NonceStore.MemoryNonceStore.Issue` | apps/api/src/auth/nonceStore.ts:26-40 | evicts expired and then the oldest entries only as far as needed, and appends the new one |
| `NonceStore.IssueInFull` | apps/api/src/auth/nonceStore.ts:26-40 | below capacity nothing is evicted; at capacity the expired entries go, and then the oldest, until one place is free |
| `NonceStore.MemoryNonceStore.Consume` | apps/api/src/auth/nonceStore.ts:42-49 | removes the nonce and accepts exactly a held, unexpired one |
| `NonceStore.MemoryNonceStore.EvictExpired` | apps/api/src/auth/nonceStore.ts:51-55 | keeps exactly the unexpired entries, in order |
| `NonceStore.AcceptedOnce` | apps/api/src/auth/nonceStore.ts:18-19 | over any run with fresh nonces a nonce is accepted at most once |
| `NonceStore.AcceptedWasIssued` | apps/api/src/auth/nonceStore.ts:18-19 | a nonce is accepted only after it was issued and before its time to live ends |
| `NonceStore.NeverOverCapacity` | apps/api/src/auth/nonceStore.ts:14-16 | the table never holds more than its capacity |
| `NonceStore.LiveNonceIsAccepted` | apps/api/src/auth/nonceStore.ts:26-49 | an unconsumed, unexpired nonce followed by fewer issues than the capacity is accepted |
| `Reconstruct.ReconstructQuantity` | crates/domain/valuation/src/reconstruct.rs:44-82 | the quantity at a cut on either side of the snapshot, refused exactly when an event coincides with the snapshot |
| `Reconstruct.AtSnapshot` | crates/domain/valuation/src/reconstruct.rs:23-27 | at the snapshot's own time the quantity is what was free and what was locked |
| `Reconstruct.OneMoreEvent` | crates/domain/valuation/src/reconstruct.rs:49-82 | one more event adds its delta at cuts from its time on when it is later than the snapshot, and takes it off at cuts before its time when it is not |
| `Reconstruct.MovesByDeltas` | crates/domain/valuation/src/reconstruct.rs:49-82 | between any two cuts the quantity moves by exactly the deltas between them, wherever the snapshot lies |
| `Reconstruct.SnapshotsAgreeIff` | crates/domain/valuation/src/reconstruct.rs:49-82 | two snapshots agree at one cut exactly when at every other, and exactly when one reconstructs the other |
| `Reconstruct.OrderIsInvisible` | crates/domain/valuation/src/reconstruct.rs:44-46 | the order of the events changes neither the quantity nor the refusal |
| `PortfolioValue.ValueAtCut` | crates/domain/valuation/src/valuation.rs:43-87 | every asset at its reconstructed quantity and given price, valued at their product, and their sum, or refuses the whole valuation for the first unusable asset |
| `PortfolioValue.NavMovesByDeltas` | crates/domain/valuation/src/valuation.rs:50-87 | at fixed prices the portfolio moves by the price-weighted deltas |
| `Ledger.Book.Ingest` | crates/domain/ledger/src/ledger.rs:40-71 | records a new event once and applies all its legs; a repeat and every refusal change nothing, and a refusal names its cause; each balance stays the sum of the recorded events |
| `Ledger.IngestMovesBalances` | crates/domain/ledger/src/ledger.rs:49-71 | a newly recorded event moves each balance by the parsed amounts of its credits less those of its debits, the fee included |
| `Ledger.BalanceInFull` | crates/domain/ledger/src/ledger.rs:73-75 | a balance is the parsed credits less the parsed debits of the recorded events, fees included, in whatever order they are listed |
| `Ledger.Book.Balance` | crates/domain/ledger/src/ledger.rs:73-75 | the signed legs and fees of every recorded event in the asset, each event once |
| `Ledger.ReachableIsReconciled` | crates/domain/ledger/src/ledger.rs:49-75 | in every reachable ledger each balance is the sum of signed legs and fees of the recorded events, each once |
| `Ledger.OrderAndRepeatsAreInvisible` | crates/domain/ledger/src/ledger.rs:40-48 | any order and repetition of a conflict-free list of events that parse leaves the same ledger |
| `Ledger.EventsDetermineLedger` | crates/domain/ledger/src/ledger.rs:21-24 | a reconciled ledger is determined by the set of events it recorded |

## Left out

- Indexing.Indexer.SyncOnce: a node whose chain changes during one tick is not modelled; each tick sees one hash-linked chain, and one hash belongs to one header. Ticks are atomic, as the promise chain makes them. Only the headers of `current()` are tied to the view, since the store keeps the tag a block was applied with.
- Twr.ComputeTwr: decimal rounding and the range error of `checked_add`, `checked_div` and `checked_mul` are not modelled.
- Combine.CombineReturns: floating-point rounding, and points whose numbers do not parse, are not modelled.
- RateLimits.PostgresRateLimiter.Allow: the 32-bit range of the counter column and concurrent statements are not modelled.
- Merkle.Build: a leaf count of `2^64` or more, which no vector can hold, is excluded.
- CanonicalJson: functions, symbols and big integers are not modelled, and undefined stands only inside an array or an object. A number is the decimal it prints as, so zero and minus zero are one; what prints as null stands as null.
- Totals: strings are sequences of characters; the output of the big-integer printer is modelled by its digits.
- Ledger: parsing a decimal string belongs to a library and is a parameter, the same for a whole run.
- JCS canonicalisation of private records (`crates/commitments/src/canonical.rs`) and the TypeScript mirror of the Merkle and framing code.
- `cagr`, Sharpe, Sortino and volatility, which rest on library powers and roots.
- The PostgreSQL projection and nonce stores, whose effect depends on the schema.
- Pages, routes, the MCP server, collectors, wallets, passkeys and the on-chain contracts: input, output and foreign code.
