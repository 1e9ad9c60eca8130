# A verified model of Fervor's core

Fervor is a Solana trading terminal. This project models the parts of it whose correctness rests on exact
arithmetic, exact byte formats or the interleaving of many workers, and proves what those parts are for.

Each module follows one component. Where the program mutates state in loops, a method does the same and is proved
against a specification function or predicate; the lemmas then say what that specification means. The lemmas whose
names end in `Means` or `Exactly` say so without those functions: of bytes, rows, events and numbers alone.

| modules | component |
|---|---|
| `ShortVec`, `SolanaTransaction`, `SolanaRoundTrip`, `SolanaMeaning`, `SolanaParser`, `SolanaResolve` | wire format of legacy and v0 transactions, its printer and parser, what the bytes of a transaction are, resolution against lookup tables |
| `CarStream`, `CarMeaning` | the length-prefixed section stream of an archive and its grouping into blocks |
| `DataFrames`, `ArchiveBlock`, `RecordPayload`, `ArchiveMeaning` | the CID-linked content graph of an archive block |
| `InstructionOrder` | canonical instruction order, its scan, and the two adapters that flatten nested instructions |
| `FxTape`, `FxOrder`, `FxMedian`, `FxPrices`, `FxSelection`, `FxEvidence`, `FxFailure`, `FxMeaning`, `FxBuild` | the SOL/USD reference tape |
| `Arithmetic`, `PumpDecimal`, `PumpCurve`, `PumpLifecycle`, `PumpHistory`, `PumpMeaning`, `PumpReplay` | long division and the bonding-curve lifecycle |
| `Outbox`, `OutboxTable` | the transactional outbox and its publishing workers |
| `AlertFence`, `AlertEventWriter` | the generation fence between alert edits and matched candidates |
| `NotificationDelivery`, `DeliveryTables`, `DeliveryFence`, `DeliveryRetries` | notification deliveries: leased claims, provider calls, deferrals, retries |
| `AlertPipeline` | fence, outbox workers, other producers, deliveries and retries together, from candidate to provider call |
| `SlidingWindow`, `SlidingRuns`, `SlidingMeaning`, `SlidingLimit`, `SlidingExact`, `SlidingConditions` | the atomic sliding-window reservation script, its runs on any clock, and exactly when limits are kept |
| `SlotIndex`, `RangeDownload` | slot index parsing and the resumable, metered range download |
| `ThresholdIndex`, `AlertShard`, `AlertMatcher` | the sorted alert index, its shards, and the backend's twin of it |
| `MarketJournal` | the append-only market journal and its checkpoints |
| `Common`, `Ordering` | shared vocabulary: results, bytes, sorting, selection |

SQL transactions and Redis scripts are single atomic steps; crashes, lost replies, expired leases, expired markers,
redelivery and unreliable servers are steps of the environment, in any order and number. Unsigned 64- and 128-bit
checked arithmetic is written out as explicit bounds on unbounded integers.

Some properties hold only on conditions the code does not check. Each condition is stated exactly:

- Sliding windows, named keys: a call can push a key over its limit if and only if it names a key twice
  (`RepeatedKeysExactly`; empty windows aside).
- Sliding windows, clock: a limit of two or more is kept in every run over some clock readings if and only if no grant
  made at one of them is forgotten and then less than a window away from a later reading (`KeptExactly`; a limit of one
  has its own two conditions, `KeptExactly` for calls of one key and `KeptAmongOthersExactly`). Every step back of the
  clock, however small, can lose a limit of two or more; a limit of one is lost only to steps longer than the
  1000 ms by which a set outlives its window (`BackwardStepExactly`).
- Sliding windows, limit: a limit of zero is served like a limit of one (`ZeroServedAsOne`), so on a steady clock a
  limit is kept if and only if it is at least one or its window is empty (`LimitKeptExactly`).
- The only caller passes one key with a limit of at least one (backend/src/services/jupiterRateService.ts:78-82,
  backend/src/config/env.ts:162-163). Of these three conditions only the clock's can fail in the program today.
- Notifications: an alert event stores twelve decimals of the matched value (db/core/migrations/V001__baseline.sql:531),
  its notification carries all of them, and a delivery is begun only if the two are equal
  (backend/src/services/notifications/NotificationDeliveryService.ts:88-95). So a notification is taken up if and only
  if the value has at most twelve decimals (`NewJobMatches`, `TakenUpExactly`), and otherwise nobody is ever notified of
  that alert (`CalledOnlyIfStorable`). Token prices are floating-point numbers that nothing rounds, so this can occur;
  `SmallPriceMismatch` is an instance.
- Messages: a legacy message survives printing and parsing if and only if it has fewer than 128 signers
  (`RoundTripExactly`, `ManySignersLost`).
- Archive length prefixes, unlike transaction lengths, are not all canonical: an accepted prefix is the printed one if
  and only if it is one byte or its last byte is not zero (`LengthCanonicalExactly`, `LongFormAccepted`).
- Long division fails if and only if some remainder is at least a tenth of 2^128 (`DivisionFailure`), as 2^127 over
  2^127 + 1 shows (`LargeDivisionFails`). No caller reaches this: their denominators are at most a tenth of 2^128
  (`RatioDefined`).
- The `FervorTx` order scan refuses a canonical list if and only if it contains the index 2^32 - 1 (`ScanOrder`).

## Model

| member | source | states |
|---|---|---|
| ShortVec.ShortRoundTrip | backend/src/services/solanaTransaction.ts:75-91 | every value below 65536 is read back from its compact-u16 form, whatever bytes follow |
| ShortVec.ShortCanonical | backend/src/services/solanaTransaction.ts:75-91 | whatever prefix is accepted is the one printed form of the value read: no second encoding is accepted |
| SolanaMeaning.SizeRefused | backend/src/services/solanaTransaction.ts:75-91 | a size is cut, exceeds 16 bits or is not canonical exactly by its bytes |
| ShortVec.ReadShort | backend/src/services/solanaTransaction.ts:75-91 | the three-step loop reads exactly what the grammar says at that position, with the same errors |
| SolanaTransaction.RolesRecoverHeader | backend/src/services/solanaTransaction.ts:144-156 | the header counts are recovered from the signer and writable flags derived from them |
| SolanaTransaction.HeaderRecoversRoles | backend/src/services/solanaTransaction.ts:207-214 | the flags of accounts in role order are recovered from the header counts |
| SolanaTransaction.CheckIxsExact | backend/src/services/solanaTransaction.ts:196-205 | the index loop passes exactly when every program index is a static non-payer key and every account index is in range |
| SolanaRoundTrip.ParseInvertsPrint | backend/src/services/solanaTransaction.ts:250-286 | parsing the serialisation of any well-formed legacy or v0 transaction returns it |
| SolanaRoundTrip.PrintInvertsParse | backend/src/services/solanaTransaction.ts:135-225 | serialising the parse of any accepted bytes gives those exact bytes, and what is accepted is well formed |
| SolanaRoundTrip.AcceptedExactlyPrinted | backend/src/services/solanaTransaction.ts:250-286 | bytes within the size limit are accepted if and only if they are the serialisation of some well-formed transaction |
| SolanaMeaning.TransactionExactly | backend/src/services/solanaTransaction.ts:135-286 | bytes are accepted as a transaction if and only if they fit the limit and are laid out as it, byte range by byte range: signatures, header counts and the roles they give, distinct addresses, blockhash, instructions with indexes in range, lookups, nothing after them |
| SolanaMeaning.BodyReported | backend/src/services/solanaTransaction.ts:167-205 | a body whose parts are all in place is refused for bytes after them, then for more than 256 accounts, then for its first index at fault, each with its own error, and otherwise accepted |
| SolanaMeaning.KeysReported | backend/src/services/solanaTransaction.ts:144-165 | why header and keys are refused: cut bytes, a size at fault, counts that do not fit, repeated addresses |
| SolanaRoundTrip.PrintInjective | backend/src/services/solanaTransaction.ts:250-286 | two well-formed transactions with the same bytes are the same transaction |
| SolanaRoundTrip.RoundTripExactly | backend/src/services/solanaTransaction.ts:135-142 | a structured message survives printing and parsing if and only if it is v0 or has fewer than 128 signers |
| SolanaRoundTrip.ManySignersLost | backend/src/services/solanaTransaction.ts:137-141 | counterexample: a legacy message of 128 signers is not read back |
| SolanaParser.ReadIxs | backend/src/services/solanaTransaction.ts:112-133 | the cursor loop over instructions agrees with the instruction grammar from any start |
| SolanaParser.ReadLookups | backend/src/services/solanaTransaction.ts:172-193 | the cursor loop over address lookups agrees with the lookup grammar and sums the loaded keys |
| SolanaParser.ReadKeys | backend/src/services/solanaTransaction.ts:144-165 | header and key reading agrees with the grammar, including the header bounds and the duplicate-key error |
| SolanaParser.ParseMessageBytes | backend/src/services/solanaTransaction.ts:135-225 | the whole message parser, check for check, computes the grammar's result |
| SolanaParser.ParseBytes | backend/src/services/solanaTransaction.ts:250-286 | the transaction parser computes the grammar's result on every byte string, errors included |
| SolanaResolve.AllIndexesInRange | backend/src/services/solanaTransaction.ts:196-205 | the parser's range checks make every compiled index resolvable once the tables are loaded |
| SolanaResolve.ResolvedRoles | backend/src/services/solanaTransaction.ts:297-334 | resolved addresses are distinct, signers are exactly the required signers, programs are static and never the fee payer |
| SolanaResolve.LoadExact | backend/src/services/solanaTransaction.ts:302-319 | loading brings one account per requested table entry, in request order, with that entry's address |
| SolanaResolve.WantedPlaces | backend/src/services/solanaTransaction.ts:302-319 | the i-th index of a lookup stands right after those of the lookups before it, under that lookup's table |
| SolanaResolve.LoadRefused | backend/src/services/solanaTransaction.ts:302-310 | loading fails at the first lookup that is not served: its table is unknown, or it holds no 32 bytes at some index |
| SolanaResolve.ResolvedSources | backend/src/services/solanaTransaction.ts:320-333 | accounts are the static ones with their addresses and flags, then the wanted writable entries, then the read-only ones; instruction i runs the static program at its compiled index on the accounts at its account indexes, with its data |
| SolanaResolve.ResolvesExactly | backend/src/services/solanaTransaction.ts:297-334 | a message resolves if and only if every requested entry is served with 32 bytes and all static and loaded addresses are distinct |
| DataFrames.ContinuationUnique | fervor-feed-rs/src/old_faithful.rs:760-821 | a root frame has at most one acyclic, well-numbered, intact continuation |
| ArchiveMeaning.ReachedExactly | fervor-feed-rs/src/old_faithful.rs:768-805 | following the links batch by batch is listing all links in order, where only the last frame linked so far may link further |
| ArchiveMeaning.ContinuationExactly | fervor-feed-rs/src/old_faithful.rs:760-821 | a list of frames continues a root if and only if it lists all links in order without repetition, repeats total and hash, numbers on to the total, stays within 16 MiB and matches one of the two checksums over the data in that order |
| CarStream.LengthRoundTrip | fervor-feed-rs/src/old_faithful.rs:908-935 | every 64-bit length is read back from its shortest form, whatever follows |
| CarStream.LengthCanonicalExactly | fervor-feed-rs/src/old_faithful.rs:908-935 | an accepted length prefix is the printed one if and only if it is one byte or its last byte is not zero |
| CarStream.LongFormAccepted | fervor-feed-rs/src/old_faithful.rs:908-935 | the shortest instance: two bytes for zero are accepted and are not the printed form |
| CarMeaning.LengthExactly | fervor-feed-rs/src/old_faithful.rs:908-935 | a length is read if and only if the bytes are one of at most ten groups of seven bits that fits 64 bits |
| CarStream.DecodeVarint | fervor-feed-rs/src/archive.rs:1215-1227 | the plan check's reader takes the same value and byte count as the archive reader's |
| CarStream.CutExactly | fervor-feed-rs/src/old_faithful.rs:268-338 | a cut stream is accepted if and only if the cut ends some number of its blocks, and then it reads as exactly those |
| CarStream.CutNoticed | fervor-feed-rs/src/old_faithful.rs:268-338 | a stream cut anywhere before its end is refused or reads as a proper prefix of its blocks: no cut changes or invents a block |
| CarStream.BlocksRead | fervor-feed-rs/src/old_faithful.rs:268-338 | a printed archive of blocks in increasing slots is read back block by block |
| CarStream.SlotsIncrease | fervor-feed-rs/src/old_faithful.rs:281-296 | accepted blocks have strictly increasing slots of the requested range and are built from their own sections |
| CarMeaning.StreamExactly | fervor-feed-rs/src/old_faithful.rs:268-338 | a stream is accepted as a list of blocks if and only if it is their sections, each framed by a length of 1 to 33,554,432 bytes, each block closed by its only block node, slots increasing within the requested range |
| CarStream.ArchiveReader.ReadUvarint | fervor-feed-rs/src/old_faithful.rs:908-935 | the byte loop reads exactly the specified value and position, and tells the end of the stream from a cut value |
| CarStream.ArchiveReader.Next | fervor-feed-rs/src/old_faithful.rs:319-338 | one section is read exactly as specified, or the end or an error is reported |
| CarStream.ArchiveReader.ReadBlock | fervor-feed-rs/src/old_faithful.rs:268-296 | sections up to a block node become one block in order, and only a returned block moves the last slot |
| DataFrames.CheckFrame | fervor-feed-rs/src/old_faithful.rs:775-795 | the checks on one linked CID pass exactly when it continues the root at its position within the size limit |
| DataFrames.AssembleBatch | fervor-feed-rs/src/old_faithful.rs:768-805 | one round over the pending links keeps the progress invariant or proves that no continuation exists |
| DataFrames.AssembleFrame | fervor-feed-rs/src/old_faithful.rs:760-821 | terminates on every node map, cyclic ones included, and succeeds exactly when a continuation exists, returning its CIDs and joined data |
| ArchiveBlock.IndexNodes | fervor-feed-rs/src/old_faithful.rs:457-464 | succeeds exactly when no CID repeats, and then maps every CID to its node and position |
| ArchiveBlock.AllReferenced | fervor-feed-rs/src/old_faithful.rs:523-536 | comparing counts is enough: all nodes of a kind are referenced if and only if the counts agree |
| ArchiveBlock.CollectJobs | fervor-feed-rs/src/old_faithful.rs:487-521 | succeeds exactly on listed entries whose transactions are distinct and numbered 0, 1, 2, ..., giving their jobs in order |
| ArchiveBlock.BuildBlock | fervor-feed-rs/src/old_faithful.rs:434-536 | accepts exactly the well-linked groups: every entry and transaction node referenced once, one rewards node, the block's own |
| ArchiveMeaning.LinkedExactly | fervor-feed-rs/src/old_faithful.rs:434-536 | all that links a group and nothing else: one block node at the end, distinct CIDs, the block's own intact rewards, every entry and every transaction listed once, numbers by place, slots, hash and times |
| ArchiveMeaning.JobsExactly | fervor-feed-rs/src/old_faithful.rs:487-536 | the jobs of a linked group are its transaction nodes in listed order, numbered by place, each with an entry that lists it |
| RecordPayload.PayloadOfSet | fervor-feed-rs/src/old_faithful.rs:860-891 | any order and repetition of the same contributing CIDs gives identical bytes, or the same refusal |
| RecordPayload.PayloadDecodes | fervor-feed-rs/src/old_faithful.rs:876-890 | a payload can be decoded back to the ordered CID and node bytes it was made from |
| RecordPayload.PayloadInjective | fervor-feed-rs/src/old_faithful.rs:860-891 | equal payloads, even from different groups, come from the same ordered nodes |
| ArchiveMeaning.PayloadExactly | fervor-feed-rs/src/old_faithful.rs:860-891 | the bytes are the format's name, the count, and of each contributing node in the group's order its two lengths, CID and data; there are none exactly if a node is missing or no bytes can say that |
| RecordPayload.WriteRecord | fervor-feed-rs/src/old_faithful.rs:860-891 | the sorting, deduplicating, appending loop writes exactly the specified payload |
| InstructionOrder.CanonicalIsChained | fervor-feed-rs/src/fervor_tx.rs:564-587 | looking at neighbours only is equivalent to being the flattening of some grouping 0..n with inner indexes 0..m |
| InstructionOrder.ScanOrder | fervor-feed-rs/src/fervor_tx.rs:564-587 | the scan accepts a list shorter than 2^32 if and only if it is such a flattening, and states the one exception for longer ones |
| InstructionOrder.MappedCanonical | fervor-feed-rs/src/old_faithful.rs:681-717 | whatever the adapters flatten is canonical |
| InstructionOrder.MappedMeans | fervor-feed-rs/src/old_faithful.rs:681-717 | where each outer instruction starts, that it has no stack height, and that its inner ones follow it with theirs, program, accounts and data |
| InstructionOrder.FlatteningLossless | fervor-feed-rs/src/old_faithful.rs:681-717 | the outer instructions and each one's inner ones can be read back from the flattened list |
| InstructionOrder.GroupOrderIrrelevant | fervor-feed-rs/src/yellowstone.rs:185-238 | the order in which inner groups are listed does not change the flattening |
| InstructionOrder.MapArchive | fervor-feed-rs/src/old_faithful.rs:670-718 | the archive adapter accepts exactly valid groups whose indexes fit 32 bits, and produces the flattening |
| InstructionOrder.MapYellowstone | fervor-feed-rs/src/yellowstone.rs:185-238 | the streaming adapter accepts exactly valid groups and produces the flattening |
| InstructionOrder.AdaptersAgree | fervor-feed-rs/src/yellowstone.rs:185-238 | both adapters accept alike and map alike on the same groups in any order, and the scan accepts the result |
| FxOrder.TimeAllExact | fervor-feed-rs/src/fx.rs:141-160 | the observations are accepted exactly when each is usable and no source event repeats |
| FxMeaning.UsableExactly | fervor-feed-rs/src/fx.rs:138-169 | an observation is used exactly if its source and amounts pass, with its price the floored quotient and its time in milliseconds |
| FxOrder.TapeIgnoresOrder | fervor-feed-rs/src/fx.rs:138-293 | every permutation of the input fails alike or gives the identical tape |
| FxPrices.VwapBetween | fervor-feed-rs/src/fx.rs:200-205 | the floored volume-weighted price lies between any bounds on the prices it averages |
| FxMedian.MedianExactly | fervor-feed-rs/src/fx.rs:334-348 | the median is the value that leaves at most half of the values below and at most half above it, or the floored mean of the two middle values; it fails only without values or when those two do not fit 128 bits |
| FxMedian.MedianUnique | fervor-feed-rs/src/fx.rs:334-348 | only one value is in the middle in that sense |
| FxPrices.MedianBetween | fervor-feed-rs/src/fx.rs:334-348 | the median lies between the least and the greatest value |
| FxPrices.PublishedBand | fervor-feed-rs/src/fx.rs:186-247 | a price and a pool average near one center, the average within the spread of the published price, are within 12.75% of it |
| FxSelection.PublishedPositive | fervor-feed-rs/src/fx.rs:237-244 | the published price is positive, so the spread division cannot fail |
| FxEvidence.TapeCertified | fervor-feed-rs/src/fx.rs:186-293 | buckets strictly increase, observed times lie in their bucket, totals are exact sums, every listed price is within 1275 basis points of the published one |
| FxEvidence.ListedSource | fervor-feed-rs/src/fx.rs:180-221 | a listed source event is an input observation of that pool and bucket |
| FxEvidence.ListedOnce | fervor-feed-rs/src/fx.rs:139-148 | each source event is listed at most once, under one pool of one point |
| FxSelection.BucketItemsExact | fervor-feed-rs/src/fx.rs:161-177 | a bucket holds exactly its usable observations, ordered by time and then source event |
| FxSelection.QualifiedUnique | fervor-feed-rs/src/fx.rs:186-229 | a bucket's observations determine its pools and everything stated about them |
| FxSelection.BucketSelected | fervor-feed-rs/src/fx.rs:230-290 | a bucket has a point exactly when a pool qualifies and, of several, the spread is at most 200 basis points |
| FxSelection.TapeSelected | fervor-feed-rs/src/fx.rs:171-293 | every point lists exactly its qualified pools and each pool exactly its observations near the median; spread, quality, confidence, times and counts are those of the pools |
| FxFailure.TapeExactly | fervor-feed-rs/src/fx.rs:138-293 | the tape is built if and only if every observation is usable, no source event repeats, and in each bucket the medians, totals, averages, spread and dates stay in range |
| FxMeaning.TapeExists | fervor-feed-rs/src/fx.rs:138-293 | a tape exists if and only if every observation is usable, no source event repeats and each bucket's numbers stay in range, in plain arithmetic on the observations |
| FxMeaning.TapeMeans | fervor-feed-rs/src/fx.rs:138-293 | what each point says in plain arithmetic: its pools are those whose observations near their median reach the least count and volume, its price the median of their averages, its times, totals, spread and grade theirs; a bucket has a point exactly if its pools can be published |
| FxBuild.SumChecked | fervor-feed-rs/src/fx.rs:358-364 | a running total that stops at the first overflow agrees with checking the whole sum |
| FxBuild.FileObservations | fervor-feed-rs/src/fx.rs:139-169 | the filing loop accepts exactly usable distinct observations and files each under its bucket in input order |
| FxBuild.BuildFxTape | fervor-feed-rs/src/fx.rs:138-293 | the builder over ordered maps computes the tape function |
| PumpDecimal.DecimalRatio | fervor-feed-rs/src/pump.rs:869-886 | the digit loop computes the specified decimal, or fails on a zero denominator or an overflowing remainder |
| PumpDecimal.RatioExact | fervor-feed-rs/src/pump.rs:869-886 | the decimal has 18 digits, each 0 to 9, and denotes exactly the floor of n * 10^18 / d |
| PumpDecimal.RatioDefined | fervor-feed-rs/src/pump.rs:464-471 | no remainder overflows for any denominator up to a tenth of 2^128, which all callers' denominators are |
| PumpDecimal.DivisionFailure | fervor-feed-rs/src/pump.rs:876-884 | the loop fails if and only if some remainder is at least a tenth of 2^128 |
| PumpDecimal.LargeDivisionFails | fervor-feed-rs/src/pump.rs:876-884 | an instance that no caller reaches: 2^127 over 2^127 + 1 fails |
| PumpDecimal.RatioMonotone | fervor-feed-rs/src/pump.rs:869-886 | a larger ratio never prints as a smaller decimal |
| PumpLifecycle.AcceptedExactly | fervor-feed-rs/src/pump.rs:248-407 | a list is accepted if and only if the mint's events form an admissible lifecycle, said on the events alone |
| PumpMeaning.AcceptedMeans | fervor-feed-rs/src/pump.rs:248-407 | a list is accepted if and only if the mint's events, in order, are one lifetime, said rule by rule on their fields with every limit as a number |
| PumpLifecycle.ProjectionShape | fervor-feed-rs/src/pump.rs:336-407 | Create, trades, at most one completion beside the final trade in its instruction, at most one withdrawal; counters equal counts; only the last point can be complete, exactly when it names the completion, at zero real tokens |
| PumpLifecycle.PricesFollowSide | fervor-feed-rs/src/pump.rs:450-473 | between neighbouring points a buy never lowers the 18-digit price and value, a sell never raises them |
| PumpHistory.ProjectionTells | fervor-feed-rs/src/pump.rs:279-388 | every field of the projected state and curve is tied to the mint's events: create terms, first and last slot, buys and sells, last trade, completion and migration times, one point per trade in order |
| PumpHistory.PointValues | fervor-feed-rs/src/pump.rs:450-531 | each point's price is floor(virtualSol * 10^decimals * 10^18 / (virtualToken * 10^9)), its value and liquidity the like ratios of its own reserves |
| PumpMeaning.PricesExactly | fervor-feed-rs/src/pump.rs:450-473 | price and value exist if and only if there are tokens and the price's numerator fits 128 bits, and are the floored ratios of the reserves to 18 digits |
| PumpMeaning.ProjectionMeans | fervor-feed-rs/src/pump.rs:279-531 | every field of the state and of each point of the curve is given from the mint's events in plain arithmetic |
| PumpReplay.ReconstructLoop | fervor-feed-rs/src/pump.rs:248-407 | the loop over one mutable state computes the projection, error for error |
| PumpReplay.ReplayEvent | fervor-feed-rs/src/pump.rs:255-390 | one round of the loop has exactly the effect of one replay step |
| PumpReplay.PumpState.RefreshPrice | fervor-feed-rs/src/pump.rs:450-473 | fails exactly without tokens or when the price's numerator exceeds 128 bits; otherwise price and value are the floored ratios of the stored reserves |
| PumpReplay.PumpState.ApplyTrade | fervor-feed-rs/src/pump.rs:411-432 | succeeds exactly when the phase, the reserve direction, the counters and the prices allow it, with the whole new state |
| PumpReplay.PumpState.ApplyComplete | fervor-feed-rs/src/pump.rs:434-448 | completes exactly a sold-out curve of the same address, and changes nothing otherwise |
| PumpReplay.PumpState.ApplyWithdraw | fervor-feed-rs/src/pump.rs:374-387 | migrates exactly a completed curve of the same address, and changes nothing otherwise |
| Outbox.MarkerKeyInjective | backend/src/services/redisStreamService.ts:310-318 | two outbox rows never share a deduplication marker |
| Outbox.StepKeeps | backend/src/services/eventOutbox.ts:50-144 | every statement, script run, lost reply, crash or marker expiry keeps the outbox invariant |
| Outbox.StepMeans | backend/src/services/eventOutbox.ts:24-144 | each step row by row: one insert per key, a claim counts an attempt and leases the row, only the lock's holder finishes it, one entry per life of a marker |
| Outbox.PublishedIsOnStream | backend/src/services/eventOutbox.ts:50-69 | in every run a published row's exact payload is on its stream |
| Outbox.EntriesPerMarker | backend/src/services/redisStreamService.ts:303-320 | attempts never exceed the maximum; a key has one stream entry per life of its marker, so at most one while no marker of it has expired |
| Outbox.FinishedRowsStay | backend/src/services/eventOutbox.ts:81-144 | published and failed rows never change again; no row is lost or has its payload replaced |
| OutboxTable.EventOutbox.Enqueue | backend/src/services/eventOutbox.ts:24-48 | fails exactly on another payload under a used key; a used key changes nothing, a new one gets one pending row, due at once, with no lock and no attempts |
| OutboxTable.EventOutbox.Claim | backend/src/services/eventOutbox.ts:81-109 | claims up to the limit of due unlocked rows with attempts left, those due longest first and of equally due ones the oldest, and skips none while below the limit; a claimed row counts one more attempt and is leased to the worker for the lease time |
| OutboxTable.EventOutbox.MarkPublished | backend/src/services/eventOutbox.ts:111-123 | without the lock nothing changes; with it the row is published for good and unlocked, payload and attempts as they were, every other row untouched |
| OutboxTable.EventOutbox.MarkFailed | backend/src/services/eventOutbox.ts:125-144 | without the lock nothing changes; with it the row is unlocked and due again after the delay, or failed for good on the last attempt, every other row untouched |
| AlertFence.StoredExactly | db/core/migrations/V001__baseline.sql:531 | the stored value is the nearest one of twelve decimals, a tie going away from zero; a value survives storage if and only if it has at most twelve decimals |
| AlertFence.EnqueueFresh | backend/src/services/alertEventWriter.ts:132-162 | whatever other producers put in the outbox, the three inserts of a new event never conflict and add exactly its three rows |
| AlertFence.OneEventPerGeneration | backend/src/services/alertEventWriter.ts:59-164 | in every interleaving, edits, merges, deletions of users and other producers of the outbox included, each alert and generation has at most one event, and of the event-keyed rows the outbox holds exactly three per event |
| AlertFence.SnapshotsNeverDisagree | backend/src/routes/alerts.ts:172-199 | a past version of a row with the row's generation has its threshold, condition and the rest of its definition but the owner |
| AlertFence.StatementsMean | backend/src/routes/alerts.ts:172-209 | which rows an insert, edit, deletion, merge or foreign message touches, and each field's new value: generation, activity and trigger included |
| AlertFence.CandidateOutcome | backend/src/services/alertEventWriter.ts:59-84 | a candidate is stale if and only if the row is gone, its generation differs, it is not active or it has triggered; otherwise it fails only for a merged owner, a value too large for its column or a used idempotency key; stale or failed, nothing changes |
| AlertFence.CreatedExactly | backend/src/services/alertEventWriter.ts:59-164 | in any database a candidate creates its event if and only if the fence is open, the row is still what was matched, event and idempotency key are new, the value fits its column and its messages meet no others under their keys |
| AlertFence.PausedNeverFires | backend/src/services/alertEventWriter.ts:59-67 | in every run, after an owner switched an alert off and until it is switched on again, every candidate of it is stale and changes neither database nor events |
| AlertFence.CreatedEffect | backend/src/services/alertEventWriter.ts:75-162 | a created event carries the fired row's whole definition and the value as stored, the row is spent, and three pending messages are added under its keys |
| AlertEventWriter.AlertDatabase.WriteCandidateTx | backend/src/services/alertEventWriter.ts:58-171 | the statement sequence with rollback has exactly the transaction's effect |
| AlertEventWriter.AlertDatabase.UpdateAlert | backend/src/routes/alerts.ts:172-209 | only the owner changes an alert; a field not given keeps its value; the generation moves exactly when a threshold, a condition or an activation is given, and triggered clears exactly on activation; other fields and alerts are untouched |
| NotificationDelivery.NewJobMatches | backend/src/services/notifications/NotificationDeliveryService.ts:74-95 | the job of a new event matches the stored event if and only if the matched value has at most twelve decimals |
| NotificationDelivery.SmallPriceMismatch | backend/src/services/notifications/NotificationDeliveryService.ts:88-95 | counterexample: the job of a matched price of 10^-13 never matches its event |
| NotificationDelivery.RetryKeyInjective | backend/src/services/notifications/NotificationRetryService.ts:94-101 | two retries share an outbox key only if they are of one delivery, one retry number and one attempt count |
| DeliveryTables.NotificationTables.TakeUp | backend/src/services/notifications/NotificationDeliveryService.ts:119-177 | a job ends at the one delivery under its key, inserted pending and without attempts if there is none, or at the stated error |
| DeliveryTables.NotificationTables.ClaimDelivery | backend/src/services/notifications/NotificationDeliveryService.ts:191-274 | claims exactly a delivery that is due and has attempts left: one more attempt and claim number, a lease under the token for the lease time, an open attempt beside it; an expired claim is parked with its attempt and an exhausted delivery dead-lettered |
| DeliveryTables.NotificationTables.DeferClaimed | backend/src/services/notifications/NotificationDeliveryService.ts:287-312 | only the holder of the open attempt gives a claim back, due again at the given time, the attempt uncounted, under a new retry number |
| DeliveryTables.NotificationTables.ApplyProviderResult | backend/src/services/notifications/NotificationDeliveryService.ts:327-441 | only the current claim records an answer; answer by answer: accepted is sent and delivered, unknown is ambiguous, without effect is scheduled again or dead-lettered on the last attempt, permanent is suppressed or failed; the attempt says so, the lease is gone, everything else stays |
| DeliveryTables.NotificationTables.RepublishDue | backend/src/services/notifications/NotificationRetryService.ts:9-105 | the scan's statements and insert loop have exactly the scan's effect, or none if an insert throws |
| DeliveryRetries.ScanMeans | backend/src/services/notifications/NotificationRetryService.ts:9-105 | the scan parks expired claims with their open attempts, dead-letters used-up deliveries, and makes picked ones pending; it picks only due retries whose event is stored, and touches nothing else |
| DeliveryRetries.RetryMeans | backend/src/services/notifications/NotificationRetryService.ts:44-101 | a retry's message is the stored event, under the delivery's number of retries and attempts |
| DeliveryFence.StepKeeps | backend/src/services/notifications/NotificationDeliveryService.ts:119-441 | every worker step, crash and late answer keeps the invariant: one open attempt per lease, one live claim per event, calls apart |
| DeliveryFence.HistoryMeans | backend/src/services/notifications/NotificationDeliveryService.ts:327-441 | a call is on record as without effect only by its own current claim's answer; a call is made once per held claim; tickets are what was claimed |
| DeliveryFence.FencesHold | backend/src/services/notifications/NotificationDeliveryService.ts:215-243 | the fences never find the tables inconsistent: those exceptions are unreachable |
| DeliveryRetries.CascadeKeeps | db/core/migrations/V001__baseline.sql:706 | deleting events with their deliveries and attempts keeps it as well |
| DeliveryRetries.RetriesEnqueued | backend/src/services/notifications/NotificationRetryService.ts:94-101 | every picked retry is inserted as a new pending row: no key repeats one of the outbox or of the scan |
| AlertPipeline.NotificationsOfOneEvent | backend/src/services/eventOutbox.ts:50-69 | in every run, marker expiry and retries included, any two messages on the notification stream about one generation of an alert are about the same event, and if neither is a retry a marker has expired |
| AlertPipeline.NotifiedOnce | backend/src/services/notifications/NotificationDeliveryService.ts:327-441 | in every run a provider is called again for one generation of an alert only if every earlier call is on record as a failure without effect |
| AlertPipeline.FencesNeverFail | backend/src/services/notifications/NotificationDeliveryService.ts:191-441 | in every run claims, deferrals and answers never find the tables inconsistent, and no delivery exceeds its attempts |
| AlertPipeline.RetriesNeverSwallowed | backend/src/services/notifications/NotificationRetryService.ts:44-101 | in every run a retry scan succeeds and adds one new pending row per picked delivery, with its event's job |
| AlertPipeline.TakenUpExactly | backend/src/services/notifications/NotificationDeliveryService.ts:74-95 | in every run a message on the notification stream is taken up if and only if its event is not deleted and its value has at most twelve decimals |
| AlertPipeline.CalledOnlyIfStorable | backend/src/services/notifications/NotificationDeliveryService.ts:74-95 | in every run a provider is called only for events whose own notification repeats the stored event, so never for a value of more than twelve decimals |
| SlidingWindow.GrantedExactly | backend/src/services/redisStreamService.ts:132-152 | a call is granted if and only if none of its keys is both full and in use, whatever its limits |
| SlidingWindow.WaitIsExact | backend/src/services/redisStreamService.ts:138-144 | with no competing reservation a refused call succeeds from its returned wait on, and not before |
| SlidingMeaning.AnswerMeans | backend/src/services/redisStreamService.ts:132-152 | a call is granted if and only if no named key holds its limit of later grants; a refusal tells the longest time until the oldest counted grant of a full key leaves its window |
| SlidingMeaning.CallMeans | backend/src/services/redisStreamService.ts:132-152 | what a call leaves: each named set loses what left its window and gains the call once per mention on a grant, expiries move only on grants, by the window and 1000 ms, unnamed keys stay |
| SlidingWindow.ZeroServedAsOne | backend/src/services/redisStreamService.ts:139-142 | a limit of zero has exactly the effect of a limit of one |
| SlidingWindow.RateLimiter.ReserveSliding | backend/src/services/redisStreamService.ts:132-152 | the script's two loops over the keys have exactly the effect of the reservation function |
| SlidingRuns.AllOrNone | backend/src/services/redisStreamService.ts:135-151 | on a grant every named key's stored set is trimmed and gets the call once per mention, and its expiry is renewed; on a refusal named sets are only trimmed and no expiry moves; unnamed keys are untouched |
| SlidingRuns.AllOnceOrNone | backend/src/services/redisStreamService.ts:135-151 | for distinct keys: one grant on every named key, or none on any |
| SlidingRuns.RetryAfterWait | backend/src/services/redisStreamService.ts:127-163 | a call refused at the end of any run is granted from its returned wait on, and not before; keys may expire in between if the clock never stepped back |
| SlidingLimit.RememberedWithin | backend/src/services/redisStreamService.ts:127-163 | on any clock that forgets no grant too early, no window (t - W, t] of a key ever holds more grants than the limit served |
| SlidingLimit.NeverOverLimit | backend/src/services/redisStreamService.ts:127-163 | on a clock that never steps back no window of any key holds more grants than its limit, key expiry included |
| SlidingExact.KeptExactly | backend/src/services/redisStreamService.ts:138-150 | over any clock readings, the limit is kept in every run if and only if no grant can be forgotten and then be less than a window from a later reading |
| SlidingExact.KeptAmongOthersExactly | backend/src/services/redisStreamService.ts:138-150 | the same for a limit of one or none in calls that may name other keys |
| SlidingConditions.RepeatedKeysExactly | backend/src/services/redisStreamService.ts:146-150 | a call can exceed some key's limit after a run that never did if and only if it names a key twice |
| SlidingConditions.LimitKeptExactly | backend/src/services/redisStreamService.ts:139-142 | on steady clocks a limit is kept in every run if and only if it is at least one or its window is empty |
| SlidingConditions.BackwardStepExactly | backend/src/services/redisStreamService.ts:138-150 | one step back of the clock can exceed the limit if and only if the limit is two or more or the step is longer than 1000 ms |
| SlidingConditions.SmallStepsRemember | backend/src/services/redisStreamService.ts:138-150 | a clock never more than 1000 ms behind an earlier reading forgets nothing too early for a limit of one |
| SlotIndex.ScanMeans | fervor-feed-rs/src/archive.rs:796-840 | comparing each record with the one before it is equivalent to all records ordered and disjoint and the selection contiguous |
| SlotIndex.RecordRoundTrip | fervor-feed-rs/src/archive.rs:797-799 | twelve index bytes are the little-endian form of exactly the record read from them |
| SlotIndex.RecordMeans | fervor-feed-rs/src/archive.rs:797-799 | a record is eight bytes of offset and four of length, the least significant first, at twelve times its place |
| SlotIndex.ScanTiles | fervor-feed-rs/src/archive.rs:823-839 | a scanned selection covers every byte of its span exactly once, and the span is the sum of its lengths |
| SlotIndex.Scannable | fervor-feed-rs/src/archive.rs:842-855 | after the scan only a bad header or an empty selection can fail: the reversed-range and gap errors are unreachable |
| SlotIndex.Parse | fervor-feed-rs/src/archive.rs:776-866 | succeeds exactly on acceptable indexes, and the result describes them: counts, header before the range, tiling; otherwise the error is that of the first record at fault, or of a missing header or selection |
| SlotIndex.ScanRecord | fervor-feed-rs/src/archive.rs:796-840 | one round of the record loop fails exactly when the record breaks the scan's order, with the error of how it does |
| SlotIndex.RangeHoldsSlots | fervor-feed-rs/src/archive.rs:842-866 | the bytes of the described range are the selected slots' bytes, slot after slot |
| RangeDownload.ByteMeter.Take | fervor-feed-rs/src/archive.rs:937-947 | bytes are granted only as a whole and never past the ceiling |
| RangeDownload.Receive | fervor-feed-rs/src/archive.rs:597-626 | the chunk loop writes and charges the chunks before the first that is too long or over budget, and stops there with that error |
| RangeDownload.Attempt | fervor-feed-rs/src/archive.rs:552-626 | one response has exactly the stated outcome: refused for its own reason, retried for a failure, 429 or 5xx, or the file extended by the right source bytes |
| RangeDownload.DownloadRange | fervor-feed-rs/src/archive.rs:528-641 | against any server the file grows by source[start..cursor], the meter by as much, in at most retries + 1 requests; success means all of it; a conforming server is refused only after every allowed request fell short |
| ThresholdIndex.BitsIsLog | fervor-feed-rs/src/alert_engine.rs:7-19 | the comparison bound is floor(log2 n) + 1 |
| ThresholdIndex.PartitionIndex | fervor-feed-rs/src/alert_engine.rs:7-19 | finds the boundary of any partitioned list within that many comparisons |
| ThresholdIndex.Build | fervor-feed-rs/src/alert_engine.rs:33-58 | the index holds the finite alerts by kind and condition in threshold order, each as often as given |
| ThresholdIndex.KindCounts | fervor-feed-rs/src/alert_engine.rs:71-79 | the two cut prefixes hold exactly the alerts a value reaches, with multiplicity |
| ThresholdIndex.FiresExactly | fervor-feed-rs/src/alert_engine.rs:160-200 | an alert fires exactly if its value is there, fresh and trusted and reaches its threshold from the side of its condition |
| ThresholdIndex.Candidates | fervor-feed-rs/src/alert_engine.rs:60-82 | indexed matching returns each alert that fires as often as it is given, and no other |
| AlertShard.HeldIsTable | fervor-feed-rs/src/alert_engine.rs:108-131 | after any sequence of replacements a shard holds under its token that token's part of the whole alert table |
| AlertShard.ShardsAnswerOnce | fervor-feed-rs/src/alert_engine.rs:133-158 | at most one shard answers a tick, and all shards together answer what one unsharded scan would |
| AlertShard.AlertIndex.ReplaceAll | fervor-feed-rs/src/alert_engine.rs:108-122 | the index becomes that of the given alerts of owned tokens |
| AlertShard.AlertIndex.ReplaceToken | fervor-feed-rs/src/alert_engine.rs:124-131 | only the one token's alerts are replaced, or dropped if none are left or it is not owned |
| AlertShard.AlertIndex.Candidates | fervor-feed-rs/src/alert_engine.rs:137-145 | a tick's answer is the linear filter over the alerts the shard holds after all its updates |
| AlertMatcher.Match | backend/src/services/alertMatcher.ts:70-91 | the backend's index returns each alert that fires as often as it is given, and no other |
| AlertMatcher.Partition | backend/src/services/alertMatcher.ts:107-116 | the backend's search finds the same boundary |
| AlertMatcher.MatchBoth | backend/src/services/alertMatcher.ts:70-105 | on finite thresholds both programs, each with its own index, trigger the same multiset |
| MarketJournal.RunOnlyAdds | fervor-feed-rs/src/market_journal.rs:17-48 | in every run, consistent or not, stored rows never change and checkpoints never move back |
| MarketJournal.ConsistentRun | fervor-feed-rs/src/market_journal.rs:81-140 | consistent envelopes are all accepted, stored with their bytes, and each checkpoint is the lexicographic maximum delivered |
| MarketJournal.InsertedOnce | fervor-feed-rs/src/market_journal.rs:87-104 | for each delivered key exactly one accept answers true |
| MarketJournal.OrderIrrelevant | fervor-feed-rs/src/market_journal.rs:17-48 | any order and repetition of the same envelopes gives the same stored bytes and checkpoints |
| MarketJournal.Journal.AcceptEnvelope | fervor-feed-rs/src/market_journal.rs:81-140 | fails for exactly four causes, and then both tables are as before; otherwise the row is the envelope's, kept if it was there, and the checkpoint moves to the greater position |
| MarketJournal.ResumesAtGreatest | fervor-feed-rs/src/market_journal.rs:64-79 | after a consistent delivery a subscription resumes at the greatest slot delivered for it under its commitment, and nowhere if nothing was |
| MarketJournal.Journal.ResumeSlot | fervor-feed-rs/src/market_journal.rs:64-79 | after any consistent delivery the call answers the greatest slot delivered for the subscription under its commitment |
| MarketJournal.ResumeNeverEarlier | fervor-feed-rs/src/market_journal.rs:64-79 | whatever is sent, a subscription never resumes earlier than it could before |

## Left out

- HTTP, gRPC, Redis and PostgreSQL clients, TLS, files, process signals and heartbeats: only the atomic effect of a
  statement or an arbitrary response is modelled.
- Hashes and checksums (SHA-256, CRC, FNV) are uninterpreted functions; base58 text is modelled by the 32 bytes it
  encodes, the encoding being injective.
- CBOR, protobuf, Zstandard, bincode and UTF-8 decoding: the model starts from decoded nodes, groups and envelopes.
- Error texts: in `FxTape`, `PumpCurve` and `ArchiveBlock` all errors are one refusal.
- Size limits of the allocator and of `usize` counters, and write failures of the disk.
- ArchiveBlock.BuildBlock: does not model the per-transaction record decoding after the linking loops, which reads
  contents the model does not interpret; contributions to records are modelled by `RecordPayload`.
- SolanaResolve.Resolve: does not model the semantic-state lookup by object identity, only the parsed message it returns.
- CarStream.ArchiveReader.Next: splitting a section into CID and node, and building a block from sections, are given
  functions that may fail; the archive's own header section and its decoding are not modelled.
- The shape check of an extract plan: it would only add easy members.
- The order scan's neighbouring checks in `FervorTx` (balances, tokens, account indexes): easy predicates.
- The trade's label fields of Pump states and points (names, symbols, addresses), which are copied and never read.
- PumpReplay.PumpState.ApplyTrade: does not say which counters a failed call has already moved, because the replay
  drops the state on the first error.
- Chrono's printable time range is a pair of constants; timestamps are integers and not text.
- NotificationDelivery.Apply: a provider's answer is believed. Discord's network errors count as without effect
  because its requests carry a nonce it deduplicates by; that nonce is not modelled.
- NotificationDelivery.Claim: the recipient, locale and payload frozen in a delivery, channel preferences, the provider
  rate limiter and the dead-letter stream are not modelled; a refusal or deferral by any of them is an arbitrary step.
- NotificationDelivery.LoadContext: values are real numbers, where the program compares doubles: two values closer than
  their precision are different here. Times of events are not part of a job.
- Alert thresholds are given at their column's eight decimals; limits of the other columns are not modelled.
- Outbox rows make no liveness claim: a row whose last allowed attempt crashes stays in publishing.
- Pruning of published rows, trimming of streams and wall-clock skew between workers: rows and entries stay, and each
  statement gets its own time. Only outbox workers publish under an outbox row's stream and key.
- Callers and Redis share one clock in `SlidingRuns`: a set's expiry counts from the time of the call that renewed it.
- Lua scripts are assumed to run to completion; distinct member names of sliding-window calls follow from their UUIDs.
- AlertFence.SnapshotsNeverDisagree: does not cover the owner, because merging two accounts (backend/src/routes/auth.ts:120)
  changes it without a new generation; CandidateOutcome says what happens then.
- Event and alert UUIDs are assumed fresh; timestamps and observation details of candidates are not modelled.
- RangeDownload.DownloadRange: assumes that a partial body holds the bytes its range names (section 15.3.7 of RFC 9110),
  and does not model the running hash, which is fed the same chunks as the file.
- The text of the Content-Range header and the delays between requests.
- The mapping of a threshold kind to a tick field: ticks are given by kind. Signed zeros of floating point are one number.
- AlertMatcher.Match: does not model how thresholds that are not finite sort in the backend; the engine drops them.
- Envelope validation and column checks of the journal are one verdict per envelope; the trigger that forbids updates is
  stated as rows never changing.
- Market decoding of swaps, candle projection, replay runtime, order actions, bots, routes, authentication and the
  frontend: thin wrappers, or logic without an exact claim.
