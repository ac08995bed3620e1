/** The archive side: every record removed by TTL expiry is serialised as
    one newline-terminated line and put to the Firehose delivery stream in
    batches, and the batch results are reduced to a verdict. */
module Firehose {
  import opened Wrappers
  import opened Collections
  import opened StreamRecords
  import opened Batch

  const NewLine: string := "\n"

  /** One entry of `RequestResponses` of a `putRecordBatch` output; the
      record failed when `ErrorCode` is present and not the empty string. */
  datatype PutRecordBatchResponseEntry = PutRecordBatchResponseEntry(recordId: Option<string>, errorCode: Option<string>)

  /** A `putRecordBatch` output. */
  datatype PutRecordBatchOutput = PutRecordBatchOutput(failedPutCount: nat, requestResponses: seq<PutRecordBatchResponseEntry>)

  /** `requestResponse.ErrorCode` is truthy. */
  predicate HasErrorCode(entry: PutRecordBatchResponseEntry) {
    entry.errorCode.Some? && entry.errorCode.value != ""
  }

  /** The entries of the output whose record failed. */
  function FailedRecords(output: PutRecordBatchOutput): nat {
    |Filter(HasErrorCode, output.requestResponses)|
  }

  /** The `Data` payloads: each record serialised by `stringify` (standing
      for `JSON.stringify`) and terminated by a newline, one per record, in
      order. */
  function Project(records: seq<StreamRecord>, stringify: StreamRecord -> string): (payloads: seq<string>)
    ensures |payloads| == |records|
    ensures forall i :: 0 <= i < |records| ==> payloads[i] == stringify(records[i]) + NewLine
  {
    if records == [] then []
    else
      var rest := Project(records[1..], stringify);
      assert forall i :: 1 <= i < |records| ==> records[i] == records[1..][i - 1];
      [stringify(records[0]) + NewLine] + rest
  }

  /** The payload batches, one `putRecordBatch` call each. */
  function PutRecordBatches(records: seq<StreamRecord>, stringify: StreamRecord -> string, batchSize: nat): (batches: seq<seq<string>>)
    requires batchSize >= 1
    ensures records == [] ==> batches == []
    ensures Flatten(batches) == Project(records, stringify)
    ensures forall i :: 0 <= i < |batches| ==> 1 <= |batches[i]| <= batchSize
    ensures (|batches| - 1) * batchSize < |records| <= |batches| * batchSize
  {
    Chunk(Project(records, stringify), batchSize)
  }

  /** `putRecords`: no record, no call; otherwise one call per batch, whose
      settled results (one per batch, in batch order) are reduced to the
      verdict: success reporting the number of records when no call was
      rejected and no entry carries an `ErrorCode`, failure with the error
      count otherwise. `FailedPutCount` is not consulted, and a rejected call
      is counted, not raised. */
  function PutRecords(records: seq<StreamRecord>, stringify: StreamRecord -> string, batchSize: nat,
                      results: seq<Settled<PutRecordBatchOutput>>): (o: Outcome)
    requires batchSize >= 1
    requires |results| == |PutRecordBatches(records, stringify, batchSize)|
    ensures records == [] ==> o == NoCall
    ensures records != [] ==> (o == Succeeded(|records|) <==> AllSucceeded(results, FailedRecords))
    ensures records != [] && !AllSucceeded(results, FailedRecords) ==>
      o == Failed(ErrorCount(results, FailedRecords))
    ensures o.Failed? ==> o.errorCount == ErrorCount(results, FailedRecords) > 0
  {
    if records == [] then NoCall else Report(|records|, results, FailedRecords)
  }

  /** Replacing the records' outputs' `FailedPutCount` changes nothing: only
      the per-entry `ErrorCode`s count. */
  lemma {:induction false} FailedPutCountIgnored(results: seq<Settled<PutRecordBatchOutput>>,
                                                 others: seq<Settled<PutRecordBatchOutput>>)
    requires |others| == |results|
    requires forall i :: 0 <= i < |results| ==>
      (results[i].Rejected? <==> others[i].Rejected?)
      && (results[i].Fulfilled? ==> others[i].value.requestResponses == results[i].value.requestResponses)
    ensures ErrorCount(others, FailedRecords) == ErrorCount(results, FailedRecords)
  {
    if results != [] {
      FailedPutCountIgnored(results[1..], others[1..]);
    }
  }

  /** An entry whose `ErrorCode` is the empty string is not a failure; one
      with a non-empty code is. */
  lemma EmptyErrorCodeIsNoFailure(output: PutRecordBatchOutput, recordId: Option<string>, code: string)
    ensures FailedRecords(PutRecordBatchOutput(output.failedPutCount,
                                               output.requestResponses + [PutRecordBatchResponseEntry(recordId, Some(""))]))
         == FailedRecords(output)
    ensures code != "" ==>
      FailedRecords(PutRecordBatchOutput(output.failedPutCount,
                                         output.requestResponses + [PutRecordBatchResponseEntry(recordId, Some(code))]))
         == FailedRecords(output) + 1
  {
    FilterConcat(HasErrorCode, output.requestResponses, [PutRecordBatchResponseEntry(recordId, Some(""))]);
    FilterConcat(HasErrorCode, output.requestResponses, [PutRecordBatchResponseEntry(recordId, Some(code))]);
  }

  /** A rejected `putRecordBatch` makes the whole put a failure; it is
      reported, never raised. */
  lemma RejectedPutReported(records: seq<StreamRecord>, stringify: StreamRecord -> string, batchSize: nat,
                            results: seq<Settled<PutRecordBatchOutput>>, i: nat)
    requires batchSize >= 1
    requires |results| == |PutRecordBatches(records, stringify, batchSize)|
    requires i < |results| && results[i].Rejected?
    ensures PutRecords(records, stringify, batchSize, results).Failed?
    ensures PutRecords(records, stringify, batchSize, results).errorCount >= 1
  {
    OneRejectionFails(|records|, results, FailedRecords, i);
  }
}
