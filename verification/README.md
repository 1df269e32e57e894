# NodeScope verification model

NodeScope agents collect metrics on a host, put them into one envelope per collection and
deliver it over HTTPS to one of two replicas, which store it in a shared PostgreSQL database.
This project models that delivery pipeline in Dafny, from the sequence counter on the agent's
disk to the rows the database keeps, together with three smaller parts: the in-memory admission
control, the inference proxy, CPU utilisation from wrapping counters, and the activation of a
new agent binary. `dafny verify dfyconfig.toml` checks everything.

## How the parts fit together

- `Metric`, `Envelopes`, `IdempotencyKeys`: the vocabulary, envelope validation and the key that
  names a submission. The key is injective once agent identities hold no colon, which both the
  agent's configuration and the `uuid` type of `agents.id` ensure.
- `WireCodec`: the encoder embeds the sizes and the checksum of its own output by six rounds; the
  decoder checks them again. Protobuf, zstd and SHA-256 are parameters with the laws listed in
  `Primitives.Lawful`.
- `MergeOrder`, `Tables`, `PostgresStore`: the rows one `PersistEnvelope` call writes, statement by
  statement, with the schema's constraints, and the method itself with a failure possible at every
  statement. Atomic form: `Tables.Persist`.
- `Transactions`: any number of such transactions interleaved statement by statement under read
  committed, with advisory locks on hashed keys, row locks, capacity changes, aborts, lost
  acknowledgements and the retention job. Every run's committed tables are those of a serial run.
- `Receipts`, `RawBatches`, `LatestState`, `Admission`, `EnvelopeOrder`, `StoredRows`: what that
  serial history says about receipts, raw batches and latest rows, which submissions the schema
  lets in, when the order of an envelope's samples shows, and what the columns hold.
- `SequenceStore`, `Delivery`: the durable counter under crashes and restarts, and the whole
  system of one agent, any replicas and other agents on one database, ending in exactly-once.
- `EndToEnd`: a collection cycle's envelope tied to what replicas accept, and the result of the
  agent's retry loop to the rows of the database.
- `Progress`: such runs do get somewhere; a lone acceptable request is stored, and the agent can
  get an envelope reported from a fresh start.
- `Retry`, `Sender`, `Circuits`, `Runner`, `IngestHandler`: backoff, the two replicas behind
  circuits, the attempts of one delivery, one collection cycle, and how a replica's answer reaches
  the agent.
- `IngestService`, `Proxy`, `CpuCounters`, `Activation`: the smaller parts.

Classes hold the state that the program updates in place; each of their methods is proved against
a function of the old state, and the properties are lemmas about those functions. For each
operation some of them name its outcome by values alone, statuses, limits, columns and fields.

## What turned out differently from the documentation

- The schema refuses envelopes that validation lets through. In either mode: keys outside 8 to
  256 characters, experimental readings, containers whose health text holds nothing but spaces,
  and U+0000 in a text column. In raw mode also two readings of one metric, more than 4,096
  values, sequences of 2^63 and more, infinite readings and those that are no number, which JSON
  cannot hold, and U+0000 in a unit, which only the JSON payload holds. Whether a valid envelope
  is stored therefore depends on the capacity flag (`Admission.StoredExactlyWhenStorable`,
  `Admission.CapacityDecides`, `Admission.CompactOnly`).
- Validation separates two samples of a series by the nanosecond, the database by the microsecond.
  Two valid readings inside one microsecond make the row that compact mode leaves depend on their
  order; raw mode refuses them (`EnvelopeOrder.OrderShowsExactly`,
  `EnvelopeOrder.ValidTieInsideOneMicrosecond`).
- The joined duplicate key of validation also merges different series, exactly when a piece of
  text can move across the colon (`Envelopes.SampleKeysAgreeExactly`).
- The retention job deletes raw batches only, so a compact receipt blocks its key for good
  (`Receipts.ReceiptRetained`).
- Every error of `PersistEnvelope`, a database error included, is answered with status 400, which
  the agent takes as final; it retries only when no answer comes, as when the database stalls past
  the client's timeout, or the replica is unconfigured (`IngestHandler.RetriedExactly`).
- An observation time outside 64-bit nanoseconds is shifted silently by the encoder
  (`WireCodec.UnrepresentableTimeIsShifted`).
- The admission control reads the clock before taking its lock. With clocks out of order a key can
  be accepted again before its time, exactly when a call in between carried a clock at or past the
  expiry (`IngestService.FreedExactlyByALateClock`, `IngestService.OutOfOrderClocksBreakTheTtl`).
- A non-streaming response cut short by its backend is recorded as completed
  (`Proxy.TruncationIsRecordedForStreamsOnly`).
- If inspecting the active binary fails although it is there, activation overwrites it
  (`Activation.OldBinaryIsLostExactlyWhenUnseen`); a candidate staged at the place of the retained
  binary cannot be rolled back (`Activation.RollbackRestores`).

## Model

| member | source | states |
|---|---|---|
| `Envelopes.CheckHeader` | internal/telemetry/envelope.go:68-110 | the header checks pass exactly when every bound, count and identity is right, and an error names a real violation |
| `Envelopes.CheckContainers` | internal/telemetry/envelope.go:111-127 | the loop over containers accepts exactly complete, pairwise distinct ones |
| `Envelopes.CheckSamples` | internal/telemetry/envelope.go:129-142 | the loop over samples accepts exactly valid ones with pairwise distinct joined keys |
| `Envelopes.Validate` | internal/telemetry/envelope.go:67-144 | validation succeeds exactly on valid envelopes, and its error explains what is wrong |
| `Envelopes.HeaderLimits` | internal/telemetry/envelope.go:67-110 | how far each header field of a valid envelope can be changed by itself: schema 1, codec `protobuf+zstd`, identities that are not blank, sequence from 1, a date other than the zero one, 1 to 1,048,576 and 8,388,608 bytes, both counts the number of samples, 64 hexadecimal digits |
| `Envelopes.ReadingLimits` | internal/domain/metric.go:79-102 | what a single reading needs: device, name, source and semantics, a date, and a value exactly when its quality is fresh, stale, estimated or experimental |
| `Envelopes.ContainerLimits` | internal/telemetry/envelope.go:111-127 | what a single container needs: ID, name, image and state; its health may be blank |
| `Envelopes.CountLimits` | internal/telemetry/envelope.go:92-113 | one to 10,000 samples and at most 2,000 containers |
| `Envelopes.ValidSamplesAreDistinct` | internal/telemetry/envelope.go:137-141 | in a valid envelope two samples of one series never share a date |
| `Envelopes.SampleKeysAgreeExactly` | internal/telemetry/envelope.go:137-137 | two joined keys agree exactly when the dates do and the series are the same or differ by a piece moved across the colon |
| `Envelopes.ValidExactlyWhenDistinctAndUnambiguous` | internal/telemetry/envelope.go:129-142 | the sample check refuses duplicate readings and, beyond them, exactly the lists with such an ambiguous pair |
| `Envelopes.ValidExactlyWhenDistinct` | internal/telemetry/envelope.go:129-142 | where no device ID or no metric name holds a colon it refuses duplicate readings and nothing else |
| `Envelopes.JoinedSampleKeyCollides` | internal/telemetry/envelope.go:137-140 | an ambiguous pair of different series that is refused |
| `Envelopes.ValidateReceiptTimes` | internal/telemetry/envelope.go:149-160 | accepted exactly when no date is more than one minute past the receipt time |
| `IdempotencyKeys.DecimalRoundTrip` | internal/telemetry/envelope.go:63-65 | the printed sequence reads back as the sequence |
| `IdempotencyKeys.KeyRoundTrip` | internal/telemetry/envelope.go:63-65 | without a colon in the agent ID, all three parts can be read back from the key, whatever the boot ID holds |
| `IdempotencyKeys.KeyInjective` | internal/telemetry/envelope.go:63-65 | without a colon in the agent IDs two keys are equal exactly when agent, boot and sequence are |
| `IdempotencyKeys.KeysAgreeExactly` | internal/telemetry/envelope.go:63-65 | for any agent IDs two keys are equal exactly when the sequences are, and agent and boot are equal or differ by a piece moved across the colon |
| `IdempotencyKeys.KeyCollides` | internal/telemetry/envelope.go:63-65 | any such move leaves the key as it was, so two agents can share one when an agent ID may hold a colon |
| `IdempotencyKeys.ValidNodeIdentity` | internal/agent/config.go:332-346 | an accepted identity is not empty and holds no colon |
| `IdempotencyKeys.IdentityExactly` | internal/agent/config.go:332-346 | it is 1 to 64 lower-case letters, digits, dots and hyphens, with a letter or digit at either end and nowhere two dots in a row |
| `IdempotencyKeys.ConfiguredAgentsNeverCollide` | internal/agent/config.go:332-346 | envelopes of configured agents share a key exactly when all parts agree |
| `WireCodec.EnvelopeToProto` | internal/telemetry/wire.go:171-224 | the conversion loops produce the message field by field, or fail on an unknown quality |
| `WireCodec.EnvelopeFromProto` | internal/telemetry/wire.go:101-169 | the conversion back fails exactly on unsupported samples and on invalid results |
| `WireCodec.Message.VerifyWireChecksum` | internal/telemetry/wire.go:226-242 | true exactly when the digest of the message without checksum matches; the message is restored |
| `WireCodec.Message.Seal` | internal/telemetry/wire.go:65-75 | fills in the checksum of the canonical form and returns the printed message |
| `WireCodec.Message.SettleSizes` | internal/telemetry/wire.go:64-79 | the loop performs six rounds of writing the sizes just produced |
| `WireCodec.Message.Finish` | internal/telemetry/wire.go:80-98 | returns the bytes only when the declared sizes are the real ones and within the bounds |
| `WireCodec.EncodeCompressedEnvelope` | internal/telemetry/wire.go:49-99 | the encoder computes the specified encoding, error cases included |
| `WireCodec.DecodeCompressedEnvelope` | internal/telemetry/wire.go:17-44 | the decoder computes the specified decoding, error cases included |
| `WireCodec.EncodesExactlyWhenSettled` | internal/telemetry/wire.go:92-98 | encoding succeeds exactly when a seventh round would change neither size and the result fits |
| `WireCodec.SettledStaysSettled` | internal/telemetry/wire.go:64-79 | sizes that repeat once never change again, so more rounds would not matter |
| `WireCodec.ConversionRoundTrip` | internal/telemetry/wire.go:101-224 | converting to a message and back returns the submission exactly when its dates fit 64-bit nanoseconds |
| `WireCodec.RoundTrip` | internal/telemetry/wire.go:17-99 | whatever encodes decodes to the same submission exactly when its dates fit, with sizes equal to the real byte lengths |
| `WireCodec.UnrepresentableTimeIsShifted` | internal/telemetry/wire.go:187-206 | every decoded date, the envelope's and each sample's, is the low 64 bits of the encoded one |
| `WireCodec.UnchangedExactlyWhenRepresentable` | internal/telemetry/wire.go:187-206 | a date keeps its value exactly when it fits 64 bits, and is otherwise off by a multiple of 2^64 nanoseconds |
| `WireCodec.LawsAreConsistent` | internal/telemetry/wire.go:49-99 | the laws assumed of protobuf, zstd and SHA-256 do not exclude success: every valid envelope encodes under some primitives that obey them |
| `WireCodec.DecodedIsConsistent` | internal/telemetry/wire.go:17-44 | anything decoded is valid, has representable dates, states its real sizes and carries the digest of its own content |
| `WireCodec.EncodedCarries` | internal/telemetry/wire.go:171-224 | what a successful encoding sends parses to a message that carries the envelope field by field, qualities by their numbers in the enumeration, with its real sizes and the digest of itself without checksum |
| `WireCodec.DecodesExactly` | internal/telemetry/wire.go:17-44 | a payload decodes exactly when it lies within the bounds, declares its real sizes, carries that digest, and holds supported samples and a valid envelope |
| `WireCodec.HexReadsBack` | internal/telemetry/wire.go:124-124 | the checksum is written as two lower-case digits a byte, high half first |
| `MergeOrder.RemainingRow` | internal/telemetry/postgres_store.go:179-187 | after any arrivals the remaining row is a lexicographic maximum, the first or the last of them as the comparison says |
| `MergeOrder.ExistingIsFirstArrival` | internal/telemetry/postgres_store.go:266-301 | a row already present behaves like a first arrival |
| `MergeOrder.MaximumIsOrderIndependent` | internal/telemetry/postgres_store.go:175-187 | the date and rank that remain do not depend on the order of arrival |
| `MergeOrder.MovedWins` | internal/telemetry/postgres_store.go:179-187 | any maximal arrival can be made to remain by reordering |
| `MergeOrder.OrderIndependentExactlyWhenTiesAgree` | internal/telemetry/postgres_store.go:179-187 | the whole row is order-independent exactly when all maximal arrivals are equal |
| `Tables.ShouldReplaceLatest` | internal/telemetry/postgres_store.go:179-187 | later evidence replaces, and at one date exactly the more confident one, in the order unsupported, unavailable, estimated, experimental, stale, fresh |
| `Tables.RanksAreDistinct` | internal/telemetry/postgres_store.go:189-206 | valid qualities have different ranks |
| `Tables.WritesHitTargets` | internal/telemetry/postgres_store.go:101-131 | a transaction writes exactly the rows its statements name |
| `Tables.WritesFrame` | internal/telemetry/postgres_store.go:101-131 | what it writes depends on the committed values of those rows alone |
| `Tables.PlanTargets` | internal/telemetry/postgres_store.go:101-131 | the rows a submission can touch: its own receipt and samples, and latest and inventory rows |
| `Tables.PlainInsert` | internal/telemetry/postgres_store.go:208-243 | a plain insert that succeeded found no row and its row is there at the end |
| `Tables.PlainInsertsDiffer` | supabase/migrations/0008_raw_metric_samples.sql:16-16 | two plain inserts of one successful transaction have different keys |
| `Tables.InsertedReceipt` | internal/telemetry/postgres_store.go:97-112 | an insertion leaves exactly one receipt, a raw batch with the whole envelope in raw mode and a compact one otherwise, which expires 48 hours after the receipt time |
| `PostgresStore.Store.WriteSample` | internal/telemetry/postgres_store.go:114-123 | one sample writes its raw row when raw rows are kept, then its latest row |
| `PostgresStore.Store.WriteSamples` | internal/telemetry/postgres_store.go:114-123 | the loop over samples performs all their statements in order or fails |
| `PostgresStore.Store.WriteContainers` | internal/telemetry/postgres_store.go:124-128 | the loop over containers performs all their statements in order or fails |
| `PostgresStore.Store.WriteAll` | internal/telemetry/postgres_store.go:101-131 | all writes of the transaction equal the plan's, and without faults they fail only when the plan does |
| `PostgresStore.Store.PersistEnvelope` | internal/telemetry/postgres_store.go:59-137 | the call equals the atomic insert-if-absent, raw exactly when the capacity record is there and grants it; a key already received changes nothing; a failure at any statement leaves all tables unchanged, and each early error is exact |
| `Transactions.StepKeepsInv` | internal/telemetry/postgres_store.go:75-136 | every step of every interleaving keeps locks exclusive, written rows disjoint and each transaction consistent with the tables committed now |
| `Transactions.RunKeepsInv` | internal/telemetry/postgres_store.go:75-136 | the invariant holds in every reachable state |
| `Transactions.CommitIsInsertion` | internal/telemetry/postgres_store.go:97-136 | a commit makes the atomic insertion, as of the tables at commit time |
| `Transactions.CommitKeepsConsistent` | internal/telemetry/postgres_store.go:81-95 | another transaction's commit never invalidates a receipt check or a write made before |
| `Transactions.RetainKeepsConsistent` | supabase/migrations/0009_maintenance_functions.sql:166-197 | nor does the retention job |
| `Transactions.Serializable` | internal/telemetry/postgres_store.go:75-136 | the committed tables of any run equal those of the serial run of insert-if-absent in commit order |
| `Transactions.InsertedModeWasRead` | internal/telemetry/postgres_store.go:97-112 | in any interleaving an insertion kept raw rows exactly when its own request found the capacity record granting them |
| `Transactions.ReadsModeOnce` | internal/telemetry/postgres_store.go:97-97 | a request reads the capacity once |
| `Receipts.ReceiptsFollowed` | internal/telemetry/postgres_store.go:81-112 | in every committed state a key has at most one receipt, raw or compact, and the one its history says |
| `Receipts.ReceiptsConserved` | internal/telemetry/postgres_store.go:81-112 | insertions of a key equal its deletions plus its receipts, and raw and compact receipts are disjoint |
| `Receipts.StoredAtMostOnce` | internal/telemetry/postgres_store.go:81-95 | two insertions of one key have an expired raw receipt deleted between them |
| `Receipts.ReceiptRetained` | supabase/migrations/0009_maintenance_functions.sql:180-180 | a stored submission keeps its receipt until a cutoff 48 hours later, and a compact one for good |
| `Receipts.NotPurgedEarly` | internal/telemetry/postgres_store.go:74-74 | cutoffs short of the expiry delete nothing |
| `RawBatches.RawPlanRows` | internal/telemetry/postgres_store.go:227-243 | a raw transaction that got through holds one row per sample, all distinct |
| `RawBatches.BatchesOwnTheirSamples` | internal/telemetry/postgres_store.go:101-123 | after any history each raw batch owns exactly its samples, as many as declared, and nothing else owns any |
| `RawBatches.EveryRunKeepsBatchesIntact` | internal/telemetry/postgres_store.go:101-136 | the same in every state reached by interleaved transactions |
| `LatestState.StatementsMerge` | internal/telemetry/postgres_store.go:266-301 | the upserts of one transaction merge what they bring for a row, in order |
| `LatestState.LatestIsMerge` | internal/telemetry/postgres_store.go:266-301 | a latest or inventory row is the merge of everything that ever arrived for it |
| `LatestState.LatestConverges` | internal/telemetry/postgres_store.go:175-187 | histories that brought the same rows in any order agree on date and quality, and on the whole row when maximal arrivals agree |
| `LatestState.TieKeepsTheFirst` | internal/telemetry/postgres_store.go:280-300 | the order of two readings of a series matters exactly when microsecond and quality agree and some stored column does not; no table has a column for the unit |
| `LatestState.LatestNeverAhead` | internal/telemetry/envelope.go:146-160 | no row is dated more than a minute past the largest receipt time, so anything storable dated later replaces it |
| `EnvelopeOrder.RowLeft` | internal/telemetry/postgres_store.go:114-131 | the latest row a transaction leaves is the merge of the row found, the samples of its series in order, and the clock sample |
| `EnvelopeOrder.OrderShowsExactly` | internal/telemetry/postgres_store.go:114-131 | in compact mode the order of the samples never shows in the row left exactly when the row found is as good as any or the best samples are stored alike |
| `EnvelopeOrder.MicrosecondsApartNeverShow` | internal/telemetry/postgres_store.go:280-301 | in either mode it never shows when the dates of the series differ by their microseconds |
| `EnvelopeOrder.RawOrderNeverShows` | supabase/migrations/0008_raw_metric_samples.sql:16-16 | in raw mode it never shows, because the primary key lets through one sample a series |
| `EnvelopeOrder.ValidTieInsideOneMicrosecond` | internal/telemetry/postgres_store.go:280-301 | two valid readings inside a microsecond: compact mode keeps whichever comes first, raw mode refuses both orders |
| `StoredRows.LatestComesFromEvidence` | internal/telemetry/postgres_store.go:114-131 | a latest row is there exactly when some stored submission of the host, or the clock sample of one, holds its series, and it holds one of those readings |
| `StoredRows.NoEvidenceIsBetter` | internal/telemetry/postgres_store.go:175-187 | after any history none of them is later than the row left, nor of its date and more confident; at the date of a fresh reading the row is fresh |
| `StoredRows.InventoryAfter` | internal/telemetry/postgres_store.go:245-264 | a stored submission leaves the row of each of its containers whole, unless the row there is dated later |
| `StoredRows.UnnamedContainerIsKept` | internal/telemetry/postgres_store.go:245-264 | a container it does not name keeps its row |
| `StoredRows.RawRowsAfter` | internal/telemetry/postgres_store.go:208-243 | in raw mode each reading has a row of its own that expires with the batch |
| `StoredRows.RetentionExactly` | supabase/migrations/0009_maintenance_functions.sql:166-197 | the retention job may delete exactly expired raw batches; their samples go with them and nothing else does |
| `Admission.StoredIsStorable` | supabase/migrations/0006_telemetry_storage.sql:6-40 | whatever was stored met the column types and checks of the tables it went to |
| `Admission.StoredExactlyWhenStorable` | internal/telemetry/postgres_store.go:97-131 | a checked new submission is stored exactly when key length, sequence range, text, qualities, counts, primary keys and, for the JSON payload, finite readings suit the retention mode in force |
| `Admission.KeyFits` | supabase/migrations/0012_ingest_receipts.sql:6-6 | a key fits exactly with 8 to 256 characters between the spaces at its ends and without U+0000 |
| `Admission.TrimLeavesTheMiddle` | supabase/migrations/0012_ingest_receipts.sql:6-6 | the trim of that check takes spaces off both ends and nothing else |
| `Admission.CompactFitsExactly` | supabase/migrations/0006_telemetry_storage.sql:26-40 | compact mode holds exactly readings of the five listed qualities and containers with a health text, all without U+0000 |
| `Admission.RawFitsExactly` | supabase/migrations/0006_telemetry_storage.sql:6-22 | beyond that raw mode needs exactly at most 4,096 values, a sequence of 63 bits, finite values, units and identities without U+0000, and one reading for each device and metric |
| `Admission.CapacityDecides` | internal/telemetry/postgres_store.go:156-173 | the capacity flag decides whether it is stored exactly when compact mode can hold it and raw mode cannot, and never the other way |
| `Admission.CompactOnly` | supabase/migrations/0006_telemetry_storage.sql:12-17 | two readings of one metric, more than 4,096 values, a sequence of 2^63 and more, and a reading that is infinite or no number are such cases |
| `Admission.LongKeyIsNeverStored` | supabase/migrations/0012_ingest_receipts.sql:6-6 | a key of more than 256 characters is refused in either mode |
| `Admission.ExperimentalIsNeverStored` | supabase/migrations/0007_metric_quality_alignment.sql:7-9 | an envelope with an experimental reading is never stored |
| `SequenceStore.SeqStepKeepsInv` | internal/agent/state_linux.go:56-86 | every step, crash and restart keeps the file at or above every sequence returned for the boot |
| `SequenceStore.SeqRunKeepsInv` | internal/agent/state_linux.go:27-86 | the invariant holds in every run |
| `SequenceStore.SequencesNeverReused` | internal/agent/state_linux.go:27-86 | below 2^64 calls the sequences returned for one boot increase strictly, and no stamp is returned twice |
| `SequenceStore.CounterWraps` | internal/agent/state_linux.go:59-59 | at 2^64 - 1 the counter goes back to zero |
| `SequenceStore.Store.Open` | internal/agent/state_linux.go:27-54 | opening loads the file of this boot, starts anew for another, and fails exactly on an undecodable file |
| `SequenceStore.Store.Next` | internal/agent/state_linux.go:56-86 | a call performs the steps of the specification, adds one to the counter whatever happens, and returns exactly what it has made durable |
| `SequenceStore.CallsCountUp` | internal/agent/state_linux.go:56-86 | undisturbed calls return the next numbers in turn |
| `SequenceStore.OpensWith` | internal/agent/state_linux.go:38-53 | an opened store goes on from the record of its own boot and starts at zero otherwise |
| `Delivery.MoveKeepsInv` | internal/agent/runner.go:123-142 | every move of agent, network, replicas and database keeps the system's invariant |
| `Delivery.SysRunKeepsInv` | internal/agent/runner.go:65-142 | the invariant holds in every run |
| `Delivery.AnswersStayTrue` | internal/app/server.go:168-187 | a success answer is only ever given for a key that was inserted |
| `Delivery.KeyNamesEnvelope` | internal/telemetry/envelope.go:63-65 | nothing else ever stored shares the key of an envelope the agent built |
| `Delivery.StoredOncePerReceipt` | internal/telemetry/postgres_store.go:81-137 | in every run an envelope was stored once per deletion by the retention job plus once if its receipt is there |
| `Delivery.ExactlyOnce` | internal/agent/sender.go:111-148 | while its receipt is retained an envelope is stored at most once, and exactly once when delivery was reported |
| `EndToEnd.AnsweredRequestSucceeded` | internal/app/server.go:173-188 | a success heard from a replica belongs to a request whose transaction committed or found the key |
| `EndToEnd.CollectedIsBuilt` | internal/agent/runner.go:92-114 | the envelope of a cycle carries the agent and the stamp that the system's build move asks for |
| `EndToEnd.CollectedIsAcceptable` | internal/agent/runner.go:97-113 | the replica finds it acceptable for that identity exactly when readings and containers are well-formed, distinct and within the bounds, no identity is blank and no date ahead |
| `EndToEnd.PostedIsAcceptable` | internal/telemetry/wire.go:17-99 | what arrives of an acceptable envelope is acceptable, under the same key and with the same readings |
| `EndToEnd.SuccessMeansStoredOnce` | internal/agent/runner.go:123-142 | when the retry loop returns success for attempts answered by the transactions of its posts, the envelope is stored exactly once while its receipt is retained |
| `Progress.LoneRequestIsStored` | internal/telemetry/postgres_store.go:59-137 | served alone, an acceptable new submission that the schema can hold is stored and answered as accepted |
| `Progress.LoneDuplicateIsAnswered` | internal/telemetry/postgres_store.go:81-95 | served alone, a submission whose key is received is answered as a duplicate and changes nothing |
| `Progress.AbortsExactly` | internal/telemetry/postgres_store.go:75-79 | a transaction can fail at any point between begin and end, and then leaves nothing |
| `Progress.UnacceptableIsRefused` | internal/telemetry/postgres_store.go:59-73 | an unacceptable one is refused before its transaction begins |
| `Progress.CanDeliver` | internal/agent/runner.go:65-142 | from a fresh start some run ends with the delivery reported |
| `Retry.BaseBounds` | internal/agent/retry.go:71-78 | the backoff lies between the initial and the maximal one |
| `Retry.BaseGrows` | internal/agent/retry.go:75-78 | the backoff never shrinks from one retry to the next |
| `Retry.DelayBounds` | internal/agent/retry.go:71-84 | each delay lies within the jitter fraction of its backoff and is never negative |
| `Retry.BaseDoubles` | internal/agent/retry.go:75-78 | the backoff starts at the initial one and doubles up to the cap |
| `Retry.DelayAtDraws` | internal/agent/retry.go:79-84 | the lowest draw takes the jitter fraction off, the highest adds it, the middle one leaves the backoff as it is |
| `Retry.DefaultDelays` | internal/agent/retry.go:47-54 | by default three attempts, one and two seconds apart at the middle draw |
| `Sender.Sender.RecordTransientFailure` | internal/agent/sender.go:160-173 | counts the failure, opens the circuit at the threshold, and touches no other endpoint |
| `Sender.Sender.RecordSuccess` | internal/agent/sender.go:175-182 | closes the circuit and touches no other endpoint |
| `Sender.Sender.Deliver` | internal/agent/sender.go:116-147 | the loop over endpoints appends exactly the attempts of the specified pass, and the circuits stay a function of the history |
| `Sender.Sender.Send` | internal/agent/sender.go:111-148 | an envelope that cannot be encoded is posted nowhere; otherwise one payload is passed along the endpoints |
| `Sender.Sender.Preflight` | internal/agent/sender.go:67-106 | the preflight follows the same pass over the same circuits with its own verdict |
| `Sender.PostVerdicts` | internal/agent/sender.go:140-146 | delivered by exactly 2xx, rejected by exactly 4xx other than 429, retried in every other case |
| `Sender.PreflightVerdicts` | internal/agent/sender.go:95-103 | a preflight succeeds by exactly 200 with a complete identity |
| `Sender.Sender.LimitsInForce` | internal/agent/sender.go:191-203 | three failures and 30 seconds unless set otherwise |
| `Circuits.CircuitIsHistory` | internal/agent/sender.go:160-182 | failures equal those since the last success modulo the threshold, and the opening time comes from the last crossing |
| `Circuits.WindowBound` | internal/agent/sender.go:150-173 | in a cooldown-long window without success an endpoint fails at most threshold times |
| `Circuits.CooldownEndIsOpen` | internal/agent/sender.go:157-157 | the window must be half-open: at its end the endpoint may be asked again |
| `Circuits.VisitKeepsGated` | internal/agent/sender.go:117-121 | nothing is sent through an open circuit |
| `Circuits.VisitIsProper` | internal/agent/sender.go:116-147 | one attempt per endpoint at most, in order, and a later endpoint only after every earlier one was open or failed transiently |
| `Circuits.FirstDefiniteAnswerDecides` | internal/agent/sender.go:116-147 | with no circuit in the way the first endpoint with a definite answer decides the pass and is the last one asked; without one all are asked and the error can be retried |
| `Runner.RetriedIsProper` | internal/agent/runner.go:123-142 | all attempts of a delivery carry one payload, all but the last failed transiently, and the last one decides the result |
| `Runner.RetriedGoesOn` | internal/agent/runner.go:123-142 | a delivery sleeps the policy's delay after every exhausted pass, reports exhaustion only when all attempts are used, and another error only when a sleep was interrupted |
| `Runner.RetriedIsBounded` | internal/agent/runner.go:123-142 | at most attempts times endpoints posts, and the sleeps together stay within the sum of the longest ones |
| `Runner.SleepBudgetIsCapped` | internal/agent/runner.go:134-139 | that sum is at most one less than the attempts times the capped delay |
| `Runner.DefaultDeliveryBounds` | internal/agent/retry.go:47-54 | by default at most six posts and 3.6 seconds of sleep |
| `Runner.DecodedKeepsTheKey` | internal/telemetry/wire.go:101-123 | decoding keeps the key whatever happened to the dates |
| `Runner.EveryPostCarriesTheKey` | internal/agent/runner.go:123-142 | every post of a delivery decodes to the key the envelope was built with |
| `Runner.DeliveryKeepsGated` | internal/agent/runner.go:123-142 | retries included, nothing is posted through an open circuit |
| `Runner.GatheredHoldsAll` | internal/agent/runner.go:69-88 | no reading is lost and every failed collector leaves a marker |
| `Runner.GatheredInOrder` | internal/agent/runner.go:69-88 | readings keep the order of the collectors, and nothing is added but one valid marker for each failed one |
| `Runner.NothingGathered` | internal/agent/runner.go:89-91 | there is nothing to send exactly when every collector succeeded with nothing |
| `Runner.Runner.SendWithRetry` | internal/agent/runner.go:123-142 | the attempt loop produces the specified posts, sleeps and result |
| `Runner.Runner.CollectOnce` | internal/agent/runner.go:65-115 | one cycle draws at most one stamp, none when there is nothing to send, and delivers an envelope with the configured agent and host, that stamp, the time of the cycle, and exactly what was gathered |
| `IngestHandler.HandleIngest` | internal/app/server.go:129-188 | the handler answers the specified status |
| `IngestHandler.StatusExactly` | internal/app/server.go:129-188 | what each status says: 202 a new submission, 200 a duplicate, 400 one that does not decode or was refused, 401 a missing or unknown credential, 415 and 503 as they stand |
| `IngestHandler.RetriedExactly` | internal/agent/sender.go:130-146 | the agent retries exactly a reply that never came and the answer of an unconfigured replica; every other answer is final |
| `IngestHandler.DeliveredMeansPersisted` | internal/app/server.go:173-188 | success is answered only to a submission that decoded, was authenticated and went through |
| `IngestHandler.SuccessMeansPersisted` | internal/app/server.go:173-188 | for the agent's own posts success is answered exactly when the transaction for its key succeeded, else 400 |
| `IngestService.Service.Create` | internal/ingest/service.go:71-81 | a service exists exactly for a valid policy |
| `IngestService.Service.Prune` | internal/ingest/service.go:115-121 | the deleting loop keeps exactly the unexpired keys |
| `IngestService.Service.Reserve` | internal/ingest/service.go:94-112 | the locked part moves the state and answers as specified |
| `IngestService.Service.Accept` | internal/ingest/service.go:83-113 | a foreign or invalid envelope changes nothing, any other one is answered as the calls so far determine |
| `IngestService.RatesAreAccepted` | internal/ingest/service.go:101-111 | windows are a function of the accepted submissions alone; duplicates and throttled ones consume nothing |
| `IngestService.SeenIsAccepted` | internal/ingest/service.go:97-121 | the seen map holds exactly the accepted keys unexpired at the last prune |
| `IngestService.OutcomeIsHistory` | internal/ingest/service.go:97-112 | each outcome is told by the accepted submissions alone |
| `IngestService.AcceptedExactly` | internal/ingest/service.go:101-111 | for any clocks: a submission that is no duplicate is accepted exactly when its agent's window is a minute old or holds fewer acceptances than the minute's requests and the burst together |
| `IngestService.BurstExactly` | internal/ingest/service.go:101-111 | of different submissions of one agent within a minute exactly that many are accepted, the first ones: 140 by default |
| `IngestService.DuplicateExactly` | internal/ingest/service.go:94-99 | for any clocks: duplicate exactly when an earlier one was accepted and no clock processed since has reached its expiry |
| `IngestService.ReacceptanceNeedsALateClock` | internal/ingest/service.go:94-112 | for any clocks: a key is accepted again only after some call carried a clock at or past the expiry, a strictly earlier call when it is too soon |
| `IngestService.FreedExactlyByALateClock` | internal/ingest/service.go:91-99 | for any clocks: up to its next acceptance a key is free again exactly when such a call was processed |
| `IngestService.DuplicateExactlyWhenBlocked` | internal/ingest/service.go:97-99 | with clocks in order, duplicate exactly when the key was accepted less than the time to live ago |
| `IngestService.AcceptancesAreTtlApart` | internal/ingest/service.go:97-112 | with clocks in order two acceptances of a key are at least the time to live apart |
| `IngestService.OutOfOrderClocksBreakTheTtl` | internal/ingest/service.go:91-95 | out of order they can be closer, for every policy with a budget of three |
| `IngestService.RateBound` | internal/ingest/service.go:101-111 | in any closed interval an agent gets at most one budget per started minute of its length and the clocks' skew, and one more |
| `IngestService.MinuteBound` | internal/ingest/service.go:101-111 | without skew at most twice the minute's requests and the burst in any minute, 280 by default |
| `IngestService.WindowCounts` | internal/ingest/service.go:101-111 | a window's count is the number of acceptances since it opened |
| `IngestService.ThrottledOnlyAfterABudget` | internal/ingest/service.go:105-108 | for clocks of any bounded skew: throttling proves a whole budget accepted in less than a minute, give or take the skew |
| `Proxy.Body.Read` | internal/proxy/handler.go:209-228 | a read needs an open body and splits the bytes still to come |
| `Proxy.ResponseWriter.WriteHeader` | internal/proxy/handler.go:281-287 | at most one status goes out |
| `Proxy.ResponseWriter.Write` | internal/proxy/handler.go:289-294 | bytes are appended after a status |
| `Proxy.ResponseWriter.RecoverPanic` | internal/proxy/handler.go:305-309 | after a panic a response that has begun is left alone, any other becomes 500 |
| `Proxy.CopyStreaming` | internal/proxy/handler.go:205-229 | the client gets exactly the bytes read, for any chunking, and a first-byte time exactly when there was a byte |
| `Proxy.ReadUpTo` | internal/proxy/handler.go:123-123 | the bounded read returns the first bytes and leaves the rest |
| `Proxy.CopyRest` | internal/proxy/handler.go:134-134 | the copy delivers everything left |
| `Proxy.Handler.Forward` | internal/proxy/handler.go:140-163 | the answer chosen, the backend named, the URLs contacted, and a closed body only with a status never relayed |
| `Proxy.Handler.Relay` | internal/proxy/handler.go:113-136 | all bytes reach the client, buffered or not, and the event says how it ended |
| `Proxy.Handler.Exchange` | internal/proxy/handler.go:86-138 | answer, event and contacts as specified, and every body opened is closed |
| `Proxy.Handler.ServeHTTP` | internal/proxy/handler.go:43-138 | one status, the specified answer, and no body left open |
| `Proxy.TokenIsTrimmed` | internal/proxy/handler.go:55-60 | the authenticator sees exactly the part of the header between the spaces after the scheme, and only if there is one |
| `Proxy.RecordedBackendAnswered` | internal/proxy/handler.go:85-99 | one usage event per resolved route, none otherwise, naming a contacted backend with that backend's own status |
| `Proxy.FailoverOnlyOnGatewayFailure` | internal/proxy/handler.go:140-167 | the secondary is asked only after no answer or 502, 503 or 504, and its answer counts |
| `Proxy.FailoverExactly` | internal/proxy/handler.go:140-167 | the secondary is asked exactly when there is one and the primary gave no answer or 502, 503 or 504; its answer then counts in status, body, backend and recorded status, and without one the client gets 502 and the event names the primary after a gateway status, the secondary after no reply |
| `Proxy.RefusedExactly` | internal/proxy/handler.go:47-83 | the first check that fails decides the status, 405, 503, 401, 413, 400 or 404, and no backend hears of the request |
| `Proxy.EventExactly` | internal/proxy/handler.go:84-137 | outcome, streaming, first byte and token counts of the event for every combination of replies |
| `Proxy.WholeSuccessIsRecorded` | internal/proxy/handler.go:113-137 | a success that came whole is recorded as completed, with the token counts of a buffered answer up to 32 MiB |
| `Proxy.ChunkingIsInvisible` | internal/proxy/handler.go:113-138 | answer and event depend on the bytes alone, not on how they were read |
| `Proxy.RelayedOrReplaced` | internal/proxy/handler.go:94-136 | a success is relayed byte for byte, of any other answer no byte reaches the client |
| `Proxy.TruncationIsRecordedForStreamsOnly` | internal/proxy/handler.go:113-137 | a response cut short is recorded as completed exactly when it was not a stream |
| `CpuCounters.Collector.CollectCpu` | internal/agent/collectors_linux.go:50-88 | an unreadable observation changes nothing, any other becomes the next base and is compared with the last |
| `CpuCounters.AlwaysAPercentage` | internal/agent/collectors_linux.go:83-87 | a reported value lies between 0 and 100 for any counters |
| `CpuCounters.IdleFields` | internal/agent/collectors_linux.go:55-72 | a line is a reading exactly with four or more fields, all numbers; the fourth is idle time and the fifth counts as idle where present |
| `CpuCounters.ReportedExactly` | internal/agent/collectors_linux.go:67-87 | for any counters: both differences are the true growths modulo 2^64, and a value is reported exactly when the total's is positive and the idle one within it |
| `CpuCounters.ExactTicks` | internal/agent/collectors_linux.go:67-85 | with counters that never go back and fewer than 2^64 ticks, the differences are the true ones even where sums wrap |
| `CpuCounters.ExactBusyFraction` | internal/agent/collectors_linux.go:80-87 | the value is then exactly the busy share |
| `CpuCounters.IdleGoingBack` | internal/agent/collectors_linux.go:83-85 | idle time that went back is reported as a percentage exactly when the total grew by at least the idle growth plus 2^64 |
| `Activation.Activate` | internal/update/activate.go:16-41 | the file states on the way and the result, for every combination of failures |
| `Activation.Rollback` | internal/update/activate.go:43-57 | the same for the rollback |
| `Activation.ActivatesExactly` | internal/update/activate.go:16-41 | activation succeeds exactly when the candidate is an executable file and the renames work; the candidate is then active, the old binary retained beside it, and no other file touched |
| `Activation.UnfitCandidateChangesNothing` | internal/update/activate.go:17-23 | a missing, irregular or not executable candidate changes nothing |
| `Activation.FailureRestoresExactly` | internal/update/activate.go:34-39 | after a failure the old binary is active again exactly when it could not be moved away or the move back works |
| `Activation.RetainedBinaryIsDropped` | internal/update/activate.go:27-32 | when the old binary cannot be moved away, the one retained before it is gone exactly if it could be removed |
| `Activation.RollsBackExactly` | internal/update/activate.go:43-57 | a rollback succeeds exactly when both binaries are there and the renames work, and exchanges exactly these |
| `Activation.OldBinaryIsKept` | internal/update/activate.go:27-39 | at every crash point and after every failure the old binary is at the active or the previous path |
| `Activation.OldBinaryIsLostExactlyWhenUnseen` | internal/update/activate.go:28-39 | it is lost exactly when its inspection failed and a rename then succeeded |
| `Activation.RollbackKeepsBoth` | internal/update/activate.go:43-57 | both binaries survive a crash at any point of a rollback |
| `Activation.RollbackRestores` | internal/update/activate.go:43-57 | after a successful activation a rollback restores the old binary exactly when the candidate was not staged at its place |
| `Activation.SecondRollbackChangesNothing` | internal/update/activate.go:45-47 | a second rollback fails and changes no file |

## Left out

- Liveness: the agent gives up after bounded attempts and the size rounds may fail to settle, so only safety and the existence of successful runs are stated.
- Delivery.ExactlyOnce: an envelope stands for the form its posts decode to, and the retention job's cutoffs are assumed to stay short of the receipt's expiry, which is what "retained" means here.
- Transactions.Serializable: concerns committed tables and not what a reader outside these transactions sees in between; deadlocks and other database errors are the step Abort, and waiting for a lock is a step that cannot be taken yet.
- Admission.StoredExactlyWhenStorable: covers the column types and checks of the migrations except foreign keys, the syntax of `uuid` and `expires_at > received_at` of the receipts, which compares two clocks; PostgreSQL's own limits on dates (no decoded envelope comes near) and on the size of an index entry, which depends on compression, are left out too. Violating one ends the transaction like any failed statement.
- LatestState.LatestConverges: a `Row` covers the columns filled from the submission and its identity; `received_at` and `updated_at`, which tell the transaction that wrote last, generated identifiers and columns this path never fills (`text_value`, `attributes`) are left out, in every statement about stored rows.
- Tables.ClockOffsetSample: the text of the semantics field is abbreviated; no rule reads it beyond its not being blank.
- Envelopes.SampleKey: the formatted time inside the joined key is represented by the time itself, which is exact because it always holds two colons.
- Retry.Delay: floating-point rounding is left out; delays are real numbers cut to whole nanoseconds, and a metric value is a real number, an infinity or no number at all, never computed with.
- IngestService.RateBound: clocks may lag by a bounded skew; calls that lag without bound are not covered, and mutual exclusion itself is taken for granted.
- SequenceStore.Store.Open: permissions, symbolic links and boot ID discovery are left out; an unreadable directory is not told apart from the file it holds.
- Proxy.Handler.ServeHTTP: failed writes to the client, event times, headers, URL parsing and the observer's copy of the event are left out; panics appear only as the recovery that follows them.
- Activation.Activate: permissions and the directory's creation appear as one failure each.
- The JSON ingestion path, preflight responses beyond their verdict, and the Windows state store.
- Quantile sketches, backups, enrollment, certificates, the control API, alerts and the console: their claims rest on code or libraries outside this pipeline or would add easy members only.
- Rollups, high-water marks and the other statements of the maintenance functions.
