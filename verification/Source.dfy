/** The operator interface: a stream of batches pulled one at a time until the null pointer. */
module Source {
  import opened Words
  import opened Tables

  // The child of an operator, by what it has yet to deliver.
  class BatchSource {
    var pending: seq<Batch>

    constructor (batches: seq<Batch>)
      ensures pending == batches
    {
      pending := batches;
    }

    method Next() returns (r: Option<Batch>)
      modifies this
      ensures old(pending) == [] ==> r == None && pending == []
      ensures old(pending) != [] ==> r == Some(old(pending)[0]) && pending == old(pending)[1..]
    {
      if |pending| == 0 {
        return None;
      }
      r := Some(pending[0]);
      pending := pending[1..];
    }
  }

  // All batches of one stream carry one schema.
  ghost predicate Uniform(batches: seq<Batch>) {
    batches != [] ==> SameSchema(batches, batches[0].schema)
  }

  // A stream whose next batch has been taken.
  lemma NextBatch(all: seq<Batch>, n: nat, batch: Batch, pending: seq<Batch>)
    requires n <= |all| && all[n..] == [batch] + pending
    ensures n < |all| && all[n] == batch && all[n + 1..] == pending
  {
    assert all[n..][0] == batch && all[n..][1..] == pending;
  }

  // The loop of the operators that must see every batch before they answer.
  method Drain(next: BatchSource) returns (batches: seq<Batch>)
    modifies next
    ensures batches == old(next.pending) && next.pending == []
  {
    batches := [];
    var batch := next.Next();
    while batch.Some?
      invariant old(next.pending) == batches + (if batch.Some? then [batch.value] else []) + next.pending
      invariant batch.None? ==> next.pending == []
      decreases |next.pending|, batch.Some?
    {
      batches := batches + [batch.value];
      batch := next.Next();
    }
  }
}
