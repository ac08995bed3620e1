/** The dispatch scheme both the DynamoDB and the Firehose side use: split the
    items into fixed-size chunks (lodash `_.chunk`), make one call per chunk,
    and reduce the settled call results (`Promise.allSettled`) to an error
    count and a verdict. */
module Batch {

  // ---------------------------------------------------------------------------
  // _.chunk
  // ---------------------------------------------------------------------------

  /** The chunks laid end to end. */
  function Flatten<T>(chunks: seq<seq<T>>): seq<T> {
    if chunks == [] then [] else chunks[0] + Flatten(chunks[1..])
  }

  /** `_.chunk(items, size)`: consecutive slices of `size` items, the last one
      holding what is left. Every chunk is non-empty and at most `size` long,
      only the last may be short, there are `ceil(|items| / size)` of them
      (the least count whose `size`-multiple covers the items),
      and together they give back `items`. */
  function Chunk<T>(items: seq<T>, size: nat): (chunks: seq<seq<T>>)
    requires size >= 1
    ensures forall i :: 0 <= i < |chunks| ==> 1 <= |chunks[i]| <= size
    ensures forall i :: 0 <= i < |chunks| - 1 ==> |chunks[i]| == size
    ensures (|chunks| - 1) * size < |items| <= |chunks| * size
    ensures Flatten(chunks) == items
    decreases |items|
  {
    if items == [] then []
    else if |items| <= size then
      assert Flatten([items]) == items + [];
      [items]
    else
      var rest := Chunk(items[size..], size);
      ChunkCons(items, size, rest);
      [items[..size]] + rest
  }

  /** A full first chunk in front of the chunks of the rest. */
  lemma ChunkCons<T>(items: seq<T>, size: nat, rest: seq<seq<T>>)
    requires 1 <= size < |items|
    requires forall i :: 0 <= i < |rest| ==> 1 <= |rest[i]| <= size
    requires forall i :: 0 <= i < |rest| - 1 ==> |rest[i]| == size
    requires (|rest| - 1) * size < |items| - size <= |rest| * size
    requires Flatten(rest) == items[size..]
    ensures var chunks := [items[..size]] + rest;
      && (forall i :: 0 <= i < |chunks| ==> 1 <= |chunks[i]| <= size)
      && (forall i :: 0 <= i < |chunks| - 1 ==> |chunks[i]| == size)
      && (|chunks| - 1) * size < |items| <= |chunks| * size
      && Flatten(chunks) == items
  {
    var chunks := [items[..size]] + rest;
    assert chunks[0] == items[..size] && chunks[1..] == rest;
    assert items == items[..size] + items[size..];
    assert forall i :: 1 <= i < |chunks| ==> chunks[i] == rest[i - 1];
    CountStep(|rest|, size, |items|);
  }

  lemma CountStep(k: int, size: int, n: int)
    requires (k - 1) * size < n - size <= k * size
    ensures k * size < n <= (k + 1) * size
  {
    assert (k + 1) * size == k * size + size;
    assert (k - 1) * size == k * size - size;
  }

  /** Every item lands in some chunk, and every chunk holds only items. */
  lemma {:induction false} FlattenMembership<T>(chunks: seq<seq<T>>, x: T)
    ensures x in Flatten(chunks) <==> exists i :: 0 <= i < |chunks| && x in chunks[i]
  {
    if chunks != [] {
      FlattenMembership(chunks[1..], x);
      if x in chunks[0] {
        assert x in chunks[0];
      }
      forall i | 1 <= i < |chunks| && x in chunks[i]
        ensures exists j :: 0 <= j < |chunks[1..]| && x in chunks[1..][j]
      {
        assert chunks[1..][i - 1] == chunks[i];
      }
    }
  }

  // ---------------------------------------------------------------------------
  // Promise.allSettled and the error reduction
  // ---------------------------------------------------------------------------

  /** The settled result of one chunk's call: rejected (its `reason` is set),
      or fulfilled with the service's output. */
  datatype Settled<O> = Rejected | Fulfilled(value: O)

  /** The verdict of a dispatch: nothing to send (no call was made), every
      item went through, or so many errors were reported. */
  datatype Outcome = NoCall | Succeeded(count: nat) | Failed(errorCount: nat)

  /** The length of the `flatMap` over the results: a rejected call counts
      as one error, a fulfilled one as the number of failed entries in its
      output. */
  function ErrorCount<O>(results: seq<Settled<O>>, failures: O -> nat): nat {
    if results == [] then 0
    else
      (match results[0]
       case Rejected => 1
       case Fulfilled(output) => failures(output))
      + ErrorCount(results[1..], failures)
  }

  /** Every call was fulfilled and reported no failed entry. */
  predicate AllSucceeded<O>(results: seq<Settled<O>>, failures: O -> nat) {
    forall i :: 0 <= i < |results| ==> results[i].Fulfilled? && failures(results[i].value) == 0
  }

  /** The number of rejected calls. */
  function RejectedCount<O>(results: seq<Settled<O>>): nat {
    if results == [] then 0 else (if results[0].Rejected? then 1 else 0) + RejectedCount(results[1..])
  }

  /** The count is zero exactly when every call succeeded. */
  lemma {:induction false} ErrorCountZeroIff<O>(results: seq<Settled<O>>, failures: O -> nat)
    ensures ErrorCount(results, failures) == 0 <==> AllSucceeded(results, failures)
  {
    if results != [] {
      ErrorCountZeroIff(results[1..], failures);
      if AllSucceeded(results[1..], failures) && results[0].Fulfilled? && failures(results[0].value) == 0 {
        forall i | 0 <= i < |results|
          ensures results[i].Fulfilled? && failures(results[i].value) == 0
        {
          if i > 0 {
            assert results[i] == results[1..][i - 1];
          }
        }
      }
    }
  }

  /** The count adds up over the chunks' results. */
  lemma {:induction false} ErrorCountAppend<O>(a: seq<Settled<O>>, b: seq<Settled<O>>, failures: O -> nat)
    ensures ErrorCount(a + b, failures) == ErrorCount(a, failures) + ErrorCount(b, failures)
  {
    if a != [] {
      assert (a + b)[0] == a[0] && (a + b)[1..] == a[1..] + b;
      ErrorCountAppend(a[1..], b, failures);
    } else {
      assert a + b == b;
    }
  }

  /** Every rejected call is counted: at least one error per rejection. */
  lemma {:induction false} RejectionsCounted<O>(results: seq<Settled<O>>, failures: O -> nat)
    ensures ErrorCount(results, failures) >= RejectedCount(results)
  {
    if results != [] {
      RejectionsCounted(results[1..], failures);
    }
  }

  /** A rejected call is in the results exactly when the rejection count is
      positive. */
  lemma {:induction false} RejectedCountPositive<O>(results: seq<Settled<O>>)
    ensures RejectedCount(results) > 0 <==> exists i :: 0 <= i < |results| && results[i].Rejected?
  {
    if results != [] {
      RejectedCountPositive(results[1..]);
      if exists i :: 0 <= i < |results| && results[i].Rejected? {
        var i :| 0 <= i < |results| && results[i].Rejected?;
        if i > 0 {
          assert results[1..][i - 1].Rejected?;
        }
      }
      if exists i :: 0 <= i < |results[1..]| && results[1..][i].Rejected? {
        var i :| 0 <= i < |results[1..]| && results[1..][i].Rejected?;
        assert results[i + 1].Rejected?;
      }
    }
  }

  /** The report after the calls have settled: failure with the error count
      when there is any error, otherwise success reporting `itemCount`. A
      rejected call is reported, never raised. */
  function Report<O>(itemCount: nat, results: seq<Settled<O>>, failures: O -> nat): (o: Outcome)
    ensures o == Succeeded(itemCount) <==> AllSucceeded(results, failures)
    ensures o.Succeeded? || o.Failed?
    ensures !AllSucceeded(results, failures) ==> o == Failed(ErrorCount(results, failures))
    ensures o.Failed? ==> o.errorCount == ErrorCount(results, failures) && o.errorCount >= RejectedCount(results)
  {
    ErrorCountZeroIff(results, failures);
    RejectionsCounted(results, failures);
    var errors := ErrorCount(results, failures);
    if errors > 0 then Failed(errors) else Succeeded(itemCount)
  }

  /** One rejected call makes the whole dispatch a failure. */
  lemma OneRejectionFails<O>(itemCount: nat, results: seq<Settled<O>>, failures: O -> nat, i: nat)
    requires i < |results| && results[i].Rejected?
    ensures Report(itemCount, results, failures).Failed?
    ensures Report(itemCount, results, failures).errorCount >= 1
  {
    RejectedCountPositive(results);
  }
}
