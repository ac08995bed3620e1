/** The TTL write-back: one `UPDATE … SET _ttlInSeconds` statement per
    version of every record that needs a fresh TTL, deduplicated, sent to
    DynamoDB in batches, and the batch results reduced to a verdict. */
module DynamoDB {
  import opened Wrappers
  import opened Collections
  import opened StreamRecords
  import opened Utility
  import opened Batch

  /** One PartiQL statement `UPDATE "<table>" SET _ttlInSeconds = <ttl>
      WHERE "id" = '<id>' AND "vid" = <vid>`, kept as its three varying
      parts; two statements are the same text exactly when the parts agree. */
  datatype Statement = Statement(ttl: int, id: string, vid: int)

  /** One entry of `Responses` of a `batchExecuteStatement` output; `error`
      is its `Error` field, present when that statement failed. */
  datatype StatementResponse = StatementResponse(error: Option<string>)

  datatype BatchExecuteStatementOutput = BatchExecuteStatementOutput(responses: seq<StatementResponse>)

  // ---------------------------------------------------------------------------
  // getStatements
  // ---------------------------------------------------------------------------

  /** The expiry written onto a record: `now` plus the TTL its resource type
      is configured with. */
  function ExpiryOf(record: StreamRecord, ttls: map<string, int>, now: int): int
    requires ReadyForTtlUpdate(record, ttls)
  {
    now + ttls[ResourceType(record).value]
  }

  /** The statements one record contributes, versions `1..vid` ascending. */
  function RecordStatements(record: StreamRecord, ttls: map<string, int>, now: int): (r: seq<Statement>)
    requires ReadyForTtlUpdate(record, ttls)
    ensures |r| == if record.keys.vid > 0 then record.keys.vid else 0
    ensures forall i :: 0 <= i < |r| ==>
      r[i] == Statement(ExpiryOf(record, ttls, now), record.keys.id, i + 1)
  {
    var n := if record.keys.vid > 0 then record.keys.vid else 0;
    seq(n, i => Statement(ExpiryOf(record, ttls, now), record.keys.id, i + 1))
  }

  /** Every statement generated, in generation order, repeats included. */
  function AllStatements(records: seq<StreamRecord>, ttls: map<string, int>, now: int): seq<Statement>
    requires forall k :: 0 <= k < |records| ==> ReadyForTtlUpdate(records[k], ttls)
  {
    if records == [] then []
    else AllStatements(records[..|records| - 1], ttls, now) + RecordStatements(records[|records| - 1], ttls, now)
  }

  /** The statements `getStatements` returns: the generated ones, each once,
      where it was first generated. */
  function Statements(records: seq<StreamRecord>, ttls: map<string, int>, now: int): (r: seq<Statement>)
    requires forall k :: 0 <= k < |records| ==> ReadyForTtlUpdate(records[k], ttls)
    ensures NoDuplicates(r)
    ensures forall x :: x in r <==> x in AllStatements(records, ttls, now)
  {
    Dedup(AllStatements(records, ttls, now))
  }

  /** `getStatements`: for each record, in order, and each version from 1 to
      its `vid`, add the record's statement to the set unless it is already
      there; the set's contents in insertion order is the result. */
  method GetStatements(records: seq<StreamRecord>, ttls: map<string, int>, now: int)
    returns (statements: seq<Statement>)
    requires forall k :: 0 <= k < |records| ==> ReadyForTtlUpdate(records[k], ttls)
    ensures statements == Statements(records, ttls, now)
    ensures NoDuplicates(statements)
  {
    statements := [];
    var k := 0;
    while k < |records|
      invariant 0 <= k <= |records|
      invariant statements == Dedup(AllStatements(records[..k], ttls, now))
    {
      var record := records[k];
      var ttl := now + ttls[ResourceType(record).value];
      var id := record.keys.id;
      var vid := record.keys.vid;
      ghost var before := AllStatements(records[..k], ttls, now);
      ghost var mine := RecordStatements(record, ttls, now);
      assert ttl == ExpiryOf(record, ttls, now);
      assert before + mine[..0] == before;
      var i := 1;
      while i <= vid
        invariant 1 <= i <= |mine| + 1
        invariant statements == Dedup(before + mine[..i - 1])
      {
        var statement := Statement(ttl, id, i);
        ghost var generated := before + mine[..i - 1];
        assert statement == mine[i - 1];
        PrefixSnoc(before, mine, i);
        DedupSnoc(generated, statement);
        if statement !in statements {
          statements := statements + [statement];
        }
        i := i + 1;
      }
      assert i - 1 == |mine|;
      assert mine[..i - 1] == mine;
      AllStatementsSnoc(records, ttls, now, k);
      k := k + 1;
    }
    assert records[..|records|] == records;
  }

  lemma AllStatementsSnoc(records: seq<StreamRecord>, ttls: map<string, int>, now: int, k: nat)
    requires forall j :: 0 <= j < |records| ==> ReadyForTtlUpdate(records[j], ttls)
    requires k < |records|
    ensures AllStatements(records[..k + 1], ttls, now)
         == AllStatements(records[..k], ttls, now) + RecordStatements(records[k], ttls, now)
  {
    assert records[..k + 1][..k] == records[..k];
  }

  lemma PrefixSnoc<T>(a: seq<T>, b: seq<T>, i: int)
    requires 1 <= i <= |b|
    ensures a + b[..i] == (a + b[..i - 1]) + [b[i - 1]]
  {
    assert b[..i] == b[..i - 1] + [b[i - 1]];
  }

  /** Adding one element to the set. */
  lemma DedupSnoc<T>(s: seq<T>, x: T)
    ensures Dedup(s + [x]) == if x in Dedup(s) then Dedup(s) else Dedup(s) + [x]
  {
    assert (s + [x])[..|s + [x]| - 1] == s;
  }

  // ---------------------------------------------------------------------------
  // Properties of the generated statements
  // ---------------------------------------------------------------------------

  /** The statement is one that the record at index `k` generates. */
  predicate GeneratedBy(statement: Statement, records: seq<StreamRecord>, ttls: map<string, int>, now: int, k: int)
    requires forall j :: 0 <= j < |records| ==> ReadyForTtlUpdate(records[j], ttls)
  {
    && 0 <= k < |records|
    && statement.id == records[k].keys.id
    && 1 <= statement.vid <= records[k].keys.vid
    && statement.ttl == ExpiryOf(records[k], ttls, now)
  }

  lemma {:induction false} AllStatementsMembership(records: seq<StreamRecord>, ttls: map<string, int>, now: int,
                                                   statement: Statement)
    requires forall j :: 0 <= j < |records| ==> ReadyForTtlUpdate(records[j], ttls)
    ensures statement in AllStatements(records, ttls, now)
        <==> exists k :: GeneratedBy(statement, records, ttls, now, k)
  {
    if records != [] {
      var init := records[..|records| - 1];
      var last := records[|records| - 1];
      AllStatementsMembership(init, ttls, now, statement);
      var mine := RecordStatements(last, ttls, now);
      assert AllStatements(records, ttls, now) == AllStatements(init, ttls, now) + mine;
      assert statement in AllStatements(records, ttls, now)
        <==> statement in AllStatements(init, ttls, now) || statement in mine;
      if statement in mine {
        var i :| 0 <= i < |mine| && mine[i] == statement;
        assert GeneratedBy(statement, records, ttls, now, |records| - 1);
      }
      if GeneratedBy(statement, records, ttls, now, |records| - 1) {
        assert mine[statement.vid - 1] == statement;
      }
      if exists k :: GeneratedBy(statement, init, ttls, now, k) {
        var k :| GeneratedBy(statement, init, ttls, now, k);
        assert GeneratedBy(statement, records, ttls, now, k);
      }
      if exists k :: GeneratedBy(statement, records, ttls, now, k) {
        var k :| GeneratedBy(statement, records, ttls, now, k);
        if k < |records| - 1 {
          assert GeneratedBy(statement, init, ttls, now, k);
        }
      }
    }
  }

  /** Coverage: the returned statements are exactly the generated
      `(ttl, id, version)` triples, each record contributing versions
      `1..vid` with its own id and expiry. */
  lemma StatementsCoverage(records: seq<StreamRecord>, ttls: map<string, int>, now: int, statement: Statement)
    requires forall j :: 0 <= j < |records| ==> ReadyForTtlUpdate(records[j], ttls)
    ensures statement in Statements(records, ttls, now)
        <==> exists k :: GeneratedBy(statement, records, ttls, now, k)
  {
    AllStatementsMembership(records, ttls, now, statement);
    var all := AllStatements(records, ttls, now);
    var d := Dedup(all);
    if statement in all {
      var i :| 0 <= i < |all| && all[i] == statement;
      assert statement in d;
    }
    if statement in d {
      var i :| 0 <= i < |d| && d[i] == statement;
      assert statement in all;
    }
  }

  /** The statements come out in first-generation order: records in input
      order, versions ascending within a record. */
  lemma StatementsInGenerationOrder(records: seq<StreamRecord>, ttls: map<string, int>, now: int)
    requires forall j :: 0 <= j < |records| ==> ReadyForTtlUpdate(records[j], ttls)
    ensures var all := AllStatements(records, ttls, now);
      var d := Statements(records, ttls, now);
      forall i, j :: 0 <= i < j < |d| ==> FirstIndex(all, d[i]) < FirstIndex(all, d[j])
  {
    DedupFirstInsertionOrder(AllStatements(records, ttls, now));
  }

  /** A single record with version `n` yields `n` statements, versions
      `1..n` in order. */
  lemma SingleRecordStatements(record: StreamRecord, ttls: map<string, int>, now: int)
    requires ReadyForTtlUpdate(record, ttls) && record.keys.vid >= 1
    ensures |Statements([record], ttls, now)| == record.keys.vid
    ensures forall i :: 0 <= i < record.keys.vid ==>
      Statements([record], ttls, now)[i] == Statement(ExpiryOf(record, ttls, now), record.keys.id, i + 1)
  {
    var mine := RecordStatements(record, ttls, now);
    assert [record][..0] == [];
    assert AllStatements([record], ttls, now) == [] + mine;
    assert [] + mine == mine;
    DedupOfDistinct(mine);
  }

  /** An insert at version 1 and an update at version 2 of the same document
      under the same policy give two statements, versions 1 and 2: version 1
      is not repeated. */
  lemma InsertThenUpdate(insert: StreamRecord, update: StreamRecord, ttls: map<string, int>, now: int)
    requires ReadyForTtlUpdate(insert, ttls) && ReadyForTtlUpdate(update, ttls)
    requires insert.keys == Keys(update.keys.id, 1) && update.keys.vid == 2
    requires ResourceType(insert) == ResourceType(update)
    ensures var ttl := ExpiryOf(update, ttls, now);
      Statements([insert, update], ttls, now)
        == [Statement(ttl, update.keys.id, 1), Statement(ttl, update.keys.id, 2)]
  {
    var ttl := ExpiryOf(update, ttls, now);
    var s1, s2 := Statement(ttl, update.keys.id, 1), Statement(ttl, update.keys.id, 2);
    InsertThenUpdateGenerated(insert, update, ttls, now);
    DedupRepeatThenNew(s1, s2);
  }

  lemma InsertThenUpdateGenerated(insert: StreamRecord, update: StreamRecord, ttls: map<string, int>, now: int)
    requires ReadyForTtlUpdate(insert, ttls) && ReadyForTtlUpdate(update, ttls)
    requires insert.keys == Keys(update.keys.id, 1) && update.keys.vid == 2
    requires ResourceType(insert) == ResourceType(update)
    ensures var ttl := ExpiryOf(update, ttls, now);
      AllStatements([insert, update], ttls, now)
        == [Statement(ttl, update.keys.id, 1)] + [Statement(ttl, update.keys.id, 1)] + [Statement(ttl, update.keys.id, 2)]
  {
    var ttl := ExpiryOf(update, ttls, now);
    var s1, s2 := Statement(ttl, update.keys.id, 1), Statement(ttl, update.keys.id, 2);
    var records := [insert, update];
    assert ExpiryOf(insert, ttls, now) == ttl;
    assert RecordStatements(insert, ttls, now) == [s1];
    assert RecordStatements(update, ttls, now) == [s1, s2];
    AllStatementsSnoc(records, ttls, now, 0);
    AllStatementsSnoc(records, ttls, now, 1);
    assert records[..0] == [] && records[..2] == records;
  }

  lemma DedupRepeatThenNew<T>(x: T, y: T)
    requires x != y
    ensures Dedup([x] + [x] + [y]) == [x, y]
  {
    var twice := [x] + [x];
    DedupTwice(x);
    assert y !in Dedup(twice);
    DedupSnoc(twice, y);
  }

  lemma DedupTwice<T>(x: T)
    ensures Dedup([x] + [x]) == [x]
  {
    DedupSingleton(x);
    DedupSnoc([x], x);
  }

  lemma DedupSingleton<T>(x: T)
    ensures Dedup([x]) == [x]
  {
    var once := [x];
    assert once[..|once| - 1] == [];
    assert once[|once| - 1] == x;
  }

  // ---------------------------------------------------------------------------
  // runStatements and updateRecords
  // ---------------------------------------------------------------------------

  /** The statements in `Responses` that carry an `Error`. */
  function FailedStatements(output: BatchExecuteStatementOutput): nat {
    |Filter((response: StatementResponse) => response.error.Some?, output.responses)|
  }

  /** `runStatements`: no statement, no call; otherwise one
      `batchExecuteStatement` call per chunk of `batchSize` statements, whose
      settled results (one per chunk, in chunk order) are reduced to the
      verdict. A failed call is counted, not raised. */
  function RunStatements(statements: seq<Statement>, batchSize: nat,
                         results: seq<Settled<BatchExecuteStatementOutput>>): (o: Outcome)
    requires batchSize >= 1
    requires |results| == |Chunk(statements, batchSize)|
    ensures statements == [] ==> o == NoCall
    ensures statements != [] ==> (o == Succeeded(|statements|) <==> AllSucceeded(results, FailedStatements))
    ensures statements != [] && !AllSucceeded(results, FailedStatements) ==>
      o == Failed(ErrorCount(results, FailedStatements))
    ensures o.Failed? ==> o.errorCount == ErrorCount(results, FailedStatements) > 0
  {
    if statements == [] then NoCall else Report(|statements|, results, FailedStatements)
  }

  /** `updateRecords`: no record, no call; otherwise generate the statements
      and run them. Returns the batches sent, one call each, and the
      verdict. */
  method UpdateRecords(records: seq<StreamRecord>, ttls: map<string, int>, now: int, batchSize: nat,
                       results: seq<Settled<BatchExecuteStatementOutput>>)
    returns (batches: seq<seq<Statement>>, outcome: Outcome)
    requires batchSize >= 1
    requires forall k :: 0 <= k < |records| ==> ReadyForTtlUpdate(records[k], ttls)
    requires |results| == |Chunk(Statements(records, ttls, now), batchSize)|
    ensures records == [] ==> batches == [] && outcome == NoCall
    ensures records != [] ==> batches == Chunk(Statements(records, ttls, now), batchSize)
    ensures Flatten(batches) == (if records == [] then [] else Statements(records, ttls, now))
    ensures forall i :: 0 <= i < |batches| ==> 1 <= |batches[i]| <= batchSize
    ensures outcome == RunStatements(Flatten(batches), batchSize, results)
  {
    if records == [] {
      return [], NoCall;
    }
    var statements := GetStatements(records, ttls, now);
    batches := Chunk(statements, batchSize);
    outcome := RunStatements(statements, batchSize, results);
  }

  /** A rejected batch call makes the run a failure with at least one error;
      it is reported, never raised. */
  lemma RejectedBatchReported(statements: seq<Statement>, batchSize: nat,
                              results: seq<Settled<BatchExecuteStatementOutput>>, i: nat)
    requires batchSize >= 1
    requires |results| == |Chunk(statements, batchSize)|
    requires i < |results| && results[i].Rejected?
    ensures RunStatements(statements, batchSize, results).Failed?
    ensures RunStatements(statements, batchSize, results).errorCount >= 1
  {
    OneRejectionFails(|statements|, results, FailedStatements, i);
  }

  /** Statement errors are counted one by one: a fulfilled batch whose
      responses carry `e` errors adds `e` to the count. */
  lemma StatementErrorsCounted(output: BatchExecuteStatementOutput, failed: seq<StatementResponse>)
    requires forall i :: 0 <= i < |failed| ==> failed[i].error.Some?
    ensures FailedStatements(BatchExecuteStatementOutput(output.responses + failed))
         == FailedStatements(output) + |failed|
  {
    var p := (response: StatementResponse) => response.error.Some?;
    FilterConcat(p, output.responses, failed);
    FilterKeepsAll(p, failed);
  }
}
