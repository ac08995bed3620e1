# DynamoDB stream TTL handler: a verified model of its decision logic

The handler reads a batch of DynamoDB stream records and does two things:

- **Archive.** It archives the records that DynamoDB's TTL sweep deleted. Each one becomes a newline-terminated JSON line, put to a Firehose delivery stream in batches.
- **TTL write-back.** It writes a fresh expiry (`_ttlInSeconds`) back onto live records whose resource type has a configured TTL. It sends one PartiQL `UPDATE` per version of the record to DynamoDB, in batches.

This project models the logic that decides what happens. Every AWS call is replaced by its settled result, given as input.

- `Utility` (`utility.dfy`) models `src/ddbToS3/utility.ts`:
  - the `ARCHIVE_CONFIG` parser: an imperative method proved against a specification function;
  - the archive filter;
  - the image comparison that ignores the TTL attribute;
  - the write-back filter with its loop guard.
- `DynamoDB` (`dynamodb.dfy`) models `src/ddbToS3/dynamodb.ts`:
  - statement generation: a method with the source's nested loops, and a sequence standing in for the `Set`;
  - the batch run and the empty-input guards.
- `Firehose` (`firehose.dfy`) models `src/ddbToS3/firehose.ts`: the projection, the batching and the verdict.
- `Batch` (`batch.dfy`) is shared by both dispatchers. It holds lodash `_.chunk` and the reduction of `Promise.allSettled` results to an error count and a verdict.
- Supporting modules:
  - `JsStrings` (`strings.dfy`): JavaScript `trim`, `split` on one character, and `parseInt` with radix 10.
  - `Collections` (`collections.dfy`): `filter`, and the first-insertion order of a `Set` read back with `Array.from`.
  - `StreamRecords` (`records.dfy`): attribute values, images and stream records.
  - `Wrappers` (`wrappers.dfy`): `Option` and `Result`.

The parser's errors (`Invalid archive config: …`, `Invalid TTL time: …`) are `Failure` values of `ConfigError`. A dispatch's verdict is `NoCall`, `Succeeded(count)` or `Failed(errorCount)`. These stand for the log lines `sing happy songs, …` and `sing sad songs, …`.

The `try`/`catch` around the TTL (src/ddbToS3/utility.ts:15-23) rewraps any failure there as `Invalid TTL time: <token>`, so the code evidently expects a bad TTL token to fail configuration loading. It does not: `parseInt` never throws, and `NaN <= 0` is false, so the code stores NaN. The model keeps both behaviours:
- the code as written: `Utility.ArchiveConfigAsWritten`;
- the corrected parser, which the rest of the model uses: `Utility.ParseArchiveConfig`, specified by `Utility.ArchiveConfig`.

See "## Findings" below.

## Model

| member | source | states |
|---|---|---|
| `JsStrings.Trim` | src/ddbToS3/utility.ts:12 | the trimmed string has no white space at either end, and it is empty exactly when the input is all white space |
| `JsStrings.TrimPadded` | src/ddbToS3/utility.ts:12-14 | trimming removes any white space around a trimmed text and gives back exactly that text |
| `JsStrings.SplitJoin` | src/ddbToS3/utility.ts:11-13 | splitting parts joined by a separator they do not contain gives back the parts |
| `JsStrings.ParseIntDecimal` | src/ddbToS3/utility.ts:16 | `parseInt` of a decimal numeral, with white space before and after, is the number it writes |
| `JsStrings.ParseIntNegative` | src/ddbToS3/utility.ts:16-17 | `parseInt` of `-` followed by digits is the negated value of those digits |
| `JsStrings.ParseInt` | src/ddbToS3/utility.ts:16 | `parseInt(token, 10)`: leading white space skipped, one optional sign, then the longest run of digits, NaN when there is none; its properties are the `ParseInt…` lemmas |
| `JsStrings.ParseIntNaNIff` | src/ddbToS3/utility.ts:16 | `parseInt` is NaN exactly when no digit follows the leading white space and the optional sign, so `"abc"`, `"-abc"`, `"+x"` and `" abc"` are all NaN |
| `StreamRecords.StringAttribute` | src/ddbToS3/utility.ts:58-59 | `image[name].S` is defined exactly when the attribute is present and holds a string, and then it is that string |
| `Utility.EntryShapeOf` | src/ddbToS3/utility.ts:12-14 | an entry is blank exactly when it is all white space; it reads as a pair only when it is two comma-free parts, each non-blank after trimming, joined by one `,` |
| `Utility.ParseEntry` | src/ddbToS3/utility.ts:12-26 | an entry contributes nothing exactly when it is blank; it is accepted exactly when it is blank or a `category,token` pair whose token parses to a positive number; a non-blank entry that is not such a pair (two commas, a blank side) is `InvalidArchiveConfig(entry)`, and a rejected pair is `InvalidTtlTime(token)`; every binding has a positive TTL under a non-empty, trimmed category |
| `Utility.ParseEntryAsWritten` | src/ddbToS3/utility.ts:12-26 | as written: blank exactly when all white space; accepted exactly when blank or a pair whose token parses to NaN or to a positive number; the same `InvalidArchiveConfig` and `InvalidTtlTime` errors otherwise; a numeric TTL that is bound is positive (a NaN TTL can be bound) |
| `Utility.ApplyEntries` | src/ddbToS3/utility.ts:11-28 | the `forEach` as a fold from a starting map: later bindings replace earlier ones, the first error ends the walk with no map, and a successful walk keeps every key it started with |
| `Utility.ArchiveConfigAsWritten` | src/ddbToS3/utility.ts:8-31 | `parseArchiveConfig` as written: every numeric TTL it binds is positive, but NaN TTLs are bound too |
| `Utility.ParseArchiveConfig` | src/ddbToS3/utility.ts:8-31 | the loop over the `|`-separated entries returns the configuration `ArchiveConfig` denotes, and every TTL in a returned map is positive |
| `Utility.ParseEntries` | src/ddbToS3/utility.ts:11-28 | the `for` loop over the entries, run with any entry step whose bindings are positive, returns exactly what applying the entries in order to the empty map returns, and every TTL it binds is positive |
| `Utility.BlankEntriesSkipped` | src/ddbToS3/utility.ts:11-12 | parsing gives what parsing only the non-blank entries gives |
| `Utility.BlankConfigIsEmpty` | src/ddbToS3/utility.ts:8-12 | an absent configuration, and one of white space only, give the empty map |
| `Utility.ApplyEntriesSucceedsIff` | src/ddbToS3/utility.ts:11-28 | the walk over the entries succeeds exactly when every entry is accepted; one rejected entry fails it with no partial map |
| `Utility.ArchiveConfigSucceedsIff` | src/ddbToS3/utility.ts:8-31 | a configuration parses exactly when each of its `|`-separated entries is accepted |
| `Utility.ParseEntryOfPair` | src/ddbToS3/utility.ts:13-20 | a pair entry whose TTL token parses to a positive number binds the trimmed category to that number |
| `Utility.EntryShapeOfPair` | src/ddbToS3/utility.ts:13-14 | `category,token` with two comma-free, non-blank parts reads as that pair |
| `Utility.ParseEntryPadded` | src/ddbToS3/utility.ts:13-20 | spaces around the category and the TTL are tolerated: the trimmed category is bound to the TTL's value |
| `Utility.ParseEntryText` | src/ddbToS3/utility.ts:13-20 | the entry `category,ttl` with a positive TTL binds the category to that TTL |
| `Utility.ConfigRoundTrip` | src/ddbToS3/utility.ts:8-31 | a configuration written out from valid `category,ttl` pairs parses back to the map of those pairs, a later pair for a category replacing an earlier one |
| `Utility.EntryWithoutCommaRejected` | src/ddbToS3/utility.ts:13-25 | an entry that is not blank and has no `,` (such as `AuditEvent:15780000`) is an `InvalidArchiveConfig` error, and so is the whole configuration holding it |
| `Utility.NonPositiveTtlRejected` | src/ddbToS3/utility.ts:16-22 | a TTL token that parses to zero or less is an `InvalidTtlTime` error naming the raw token, whatever white space pads the category |
| `Utility.NaNEntry` | src/ddbToS3/utility.ts:16-22 | for an entry whose TTL is not a number, the code as written binds NaN, and the corrected step is an `InvalidTtlTime` error |
| `Utility.NonNumericTtlStoredAsNaN` | src/ddbToS3/utility.ts:16-22 | a configuration `category,token` whose token is not a number is stored as `category -> NaN` as written, and rejected by the corrected parser |
| `Utility.PatientAbcStoredAsNaN` | src/ddbToS3/utility.ts:16-22 | for category `Patient` and TTL token `abc`, the code as written maps `Patient` to NaN and the corrected parser fails with `InvalidTtlTime("abc")` |
| `Utility.CorrectedAgreesWithoutNaN` | src/ddbToS3/utility.ts:8-31 | when no entry binds NaN as written, the corrected parser and the code as written give the same error or the same map |
| `Utility.IsRemovedByTTL` | src/ddbToS3/utility.ts:38-42 | the filter's test: a REMOVE whose user identity is of type `Service` with principal `dynamodb.amazonaws.com`; `RemovedByTTLMembership` ties it to the filter |
| `Utility.FilterRemovedRecordsFromTTL` | src/ddbToS3/utility.ts:36-43 | the kept records are a subsequence of the input, in order; each record removed by the TTL sweep keeps its multiplicity, every other record has none |
| `Utility.RemovedByTTLMembership` | src/ddbToS3/utility.ts:36-43 | a record is kept exactly when it is a REMOVE whose user identity is `Service` / `dynamodb.amazonaws.com` |
| `Utility.FilterRemovedRecordsFromTTLIdempotent` | src/ddbToS3/utility.ts:36-43 | filtering the filtered records changes nothing |
| `Utility.IsEqualExceptTTL` | src/ddbToS3/utility.ts:49-51 | images that compare equal have the same attribute names once `_ttlInSeconds` is set aside |
| `Utility.EqualExceptTTLIff` | src/ddbToS3/utility.ts:49-51 | the comparison holds exactly when the images agree, in presence and deep value, on every attribute other than `_ttlInSeconds` |
| `Utility.EqualExceptTTLIsEquivalence` | src/ddbToS3/utility.ts:49-51 | the comparison is reflexive, symmetric and transitive |
| `Utility.TtlOnlyChangeIsEqual` | src/ddbToS3/utility.ts:49-51 | images that differ only in `_ttlInSeconds` compare equal, including when only one image has it |
| `Utility.OtherDifferenceIsUnequal` | src/ddbToS3/utility.ts:49-51 | any difference in another attribute, in presence or value, makes the comparison false |
| `Utility.FilterRecordsNeedUpdateTTL` | src/ddbToS3/utility.ts:56-78 | the kept records are an order-preserving subsequence; each record that needs a TTL update keeps its multiplicity, every other record has none; every kept record has a resource type the policy covers |
| `Utility.NeedsUpdateTTL` | src/ddbToS3/utility.ts:57-77 | a kept record has a new image whose resource type the policy covers, and is never a REMOVE |
| `Utility.UpdateDecision` | src/ddbToS3/utility.ts:56-78 | no new image, or a REMOVE, is dropped; with a covered resource type, an INSERT is kept exactly when AVAILABLE, and a MODIFY exactly when AVAILABLE or DELETED and some attribute other than the TTL changed |
| `Utility.LoopGuard` | src/ddbToS3/utility.ts:65-70 | a MODIFY whose images differ only in `_ttlInSeconds` is never kept |
| `Utility.EmptyPolicyKeepsNothing` | src/ddbToS3/utility.ts:57-58 | with an empty TTL policy no record is kept |
| `Utility.ArchiveAndUpdateDisjoint` | src/ddbToS3/utility.ts:36-78 | no record is both archived and given a TTL update |
| `Collections.Dedup` | src/ddbToS3/dynamodb.ts:11-27 | reading back a `Set` filled in order: no duplicates, and the same elements as the input, each way |
| `Collections.DedupFirstInsertionOrder` | src/ddbToS3/dynamodb.ts:27 | values come out in the order in which they were first added |
| `DynamoDB.RecordStatements` | src/ddbToS3/dynamodb.ts:15-24 | a record with version `vid` yields `vid` statements (none for `vid < 1`), the i-th for version `i + 1`, all with the record's id and expiry `now + ttl` |
| `DynamoDB.Statements` | src/ddbToS3/dynamodb.ts:10-30 | what `getStatements` returns: no statement twice, and exactly the statements some record generates |
| `DynamoDB.GetStatements` | src/ddbToS3/dynamodb.ts:10-30 | the nested loops return the generated statements, each once, in first-generation order, with no duplicates |
| `DynamoDB.StatementsCoverage` | src/ddbToS3/dynamodb.ts:14-27 | a statement is returned exactly when some record generates it: same id, same expiry, version in `1..vid` |
| `DynamoDB.StatementsInGenerationOrder` | src/ddbToS3/dynamodb.ts:14-27 | the statements are ordered by where they were first generated: records in input order, versions ascending |
| `DynamoDB.SingleRecordStatements` | src/ddbToS3/dynamodb.ts:20-24 | one record with version `n` yields `n` statements, versions `1..n` in order |
| `DynamoDB.InsertThenUpdate` | src/ddbToS3/dynamodb.ts:11-27 | an insert at version 1 and an update at version 2 of one document give two statements, versions 1 and 2 |
| `Batch.Chunk` | src/ddbToS3/dynamodb.ts:38 | every chunk holds 1 to `size` items; all but the last hold exactly `size`; their number is `ceil(n / size)`; laid end to end they give back the items |
| `Batch.FlattenMembership` | src/ddbToS3/firehose.ts:23 | an item is sent exactly when it is in some chunk |
| `Batch.ErrorCountZeroIff` | src/ddbToS3/dynamodb.ts:46-54 | the error count is zero exactly when every call was fulfilled with no failed entry |
| `Batch.ErrorCountAppend` | src/ddbToS3/dynamodb.ts:47-52 | the error count adds up over the chunks' results |
| `Batch.RejectionsCounted` | src/ddbToS3/dynamodb.ts:47-50 | each rejected call adds at least one error |
| `Batch.ErrorCount` | src/ddbToS3/dynamodb.ts:47-52 | the length of the `flatMap` over the settled results: one per rejected call, plus the failed entries of each fulfilled output; `ErrorCountZeroIff` and `RejectionsCounted` state what it measures |
| `Batch.Report` | src/ddbToS3/dynamodb.ts:54-58 | success reporting the item count exactly when every call succeeded; whenever a call did not succeed, failure carrying the error count, which counts every rejection |
| `Batch.OneRejectionFails` | src/ddbToS3/dynamodb.ts:46-55 | one rejected call makes the verdict a failure with at least one error |
| `DynamoDB.RunStatements` | src/ddbToS3/dynamodb.ts:32-59 | no statement, no call; otherwise success with the statement count exactly when every batch succeeded, and failure with the positive error count whenever one did not |
| `DynamoDB.UpdateRecords` | src/ddbToS3/dynamodb.ts:64-70 | no record, no batch and no call; otherwise the batches are `_.chunk` of the generated statements (so ceil(n / `batchSize`) calls, only the last one short), and the verdict is `RunStatements` of them |
| `DynamoDB.RejectedBatchReported` | src/ddbToS3/dynamodb.ts:46-55 | a rejected `batchExecuteStatement` is reported as a failure, not raised |
| `DynamoDB.StatementErrorsCounted` | src/ddbToS3/dynamodb.ts:51 | each response carrying an `Error` adds one to the count |
| `Firehose.Project` | src/ddbToS3/firehose.ts:18-22 | one payload per record, in order, each the serialised record followed by `\n` |
| `Firehose.PutRecordBatches` | src/ddbToS3/firehose.ts:23-34 | the batches give back the payloads in order, each holds 1 to `batchSize` of them, and there are `ceil(n / batchSize)` calls; no record, no call |
| `Firehose.PutRecords` | src/ddbToS3/firehose.ts:13-48 | no record, no call; otherwise success reporting the record count exactly when every call succeeded with no `ErrorCode`, and failure with the positive error count whenever one did not |
| `Firehose.FailedPutCountIgnored` | src/ddbToS3/firehose.ts:35-41 | `FailedPutCount` does not affect the error count; only rejections and `ErrorCode`s do |
| `Firehose.EmptyErrorCodeIsNoFailure` | src/ddbToS3/firehose.ts:39 | an empty `ErrorCode` is not a failure; a non-empty one adds one error |
| `Firehose.RejectedPutReported` | src/ddbToS3/firehose.ts:35-47 | a rejected `putRecordBatch` is reported as a failure, not raised |

## Left out

- `src/ddbToS3/ddbToS3Archive.ts` and `src/ddbToS3/index.ts` are not part of this model. They are the Lambda entry and orchestration around I/O: they call the filters in order and rethrow.
- The AWS SDK clients and `.promise()` are left out. Each call's settled result is an input, one per chunk, in chunk order. The concurrency of `Promise.allSettled` is not modelled.
- Logging is left out. The messages become the `Outcome` verdict.
- Batch.Report: keeps only the number of errors, not the error objects that are logged.
- Environment variables are left out:
  - The batch size is a parameter, required to be at least 1.
  - The table name and the delivery stream name do not influence any decision.
  - The parsing of `ARCHIVE_CONFIG` itself is modelled.
- `Date.now()` is left out. `now`, in whole seconds, is a parameter.
- `JSON.stringify` is an uninterpreted parameter `stringify`.
- The PartiQL text is left out, and so is its missing quoting of `id`. A statement is the triple (expiry, id, version), and two statements are equal exactly when their texts would be.
- DynamoDB.GetStatements: the version `Keys.vid.N` is a numeric string in the source, compared with `<=`. It is modelled as the integer it denotes.
- Unchecked lookups become preconditions instead of TypeErrors or `undefined` arithmetic:
  - a record with a new image but no `resourceType`;
  - a covered record without `documentStatus` (`ClassifiableForUpdate`);
  - a record reaching statement generation whose resource type the policy does not cover (`ReadyForTtlUpdate`).
- Attribute values of types `B`, `SS`, `NS`, `BS` and `NULL` are left out. Images hold `S`, `N`, `BOOL`, `L` and `M` values.
- `trim`, and the white space `parseInt` skips before the number, treat only ASCII white space (space, tab, line feed, carriage return, vertical tab, form feed) as white space. JavaScript also skips the other Unicode space characters in both.
- `parseInt` results are unbounded integers. The loss of precision beyond 2^53 is not modelled.
- A call rejected with a falsy reason (`undefined`, `0`, `""`) is left out. There the source would go on to read `result.value` and throw. Every rejection counts as one error.
- The `Error` object of a `batchExecuteStatement` response is modelled as an optional error code. Only its presence matters.

## Findings

| source | as written | input that shows it | evidently intended | confidence | as-written member | corrected member |
|---|---|---|---|---|---|---|
| src/ddbToS3/utility.ts:16-22 | `parseInt` never throws, and the `catch` only rewraps the code's own `ttl <= 0` error. A TTL that is not a number parses to NaN, `NaN <= 0` is false, and NaN is stored as the category's TTL. | `ARCHIVE_CONFIG = "Patient,abc"` gives the map `Patient -> NaN` | a non-numeric TTL fails configuration loading with `Invalid TTL time: abc` | not executed | `Utility.PatientAbcStoredAsNaN` | `Utility.ParseArchiveConfig` |
