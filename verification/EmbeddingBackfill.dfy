/** scripts/backfill_interview_question_embeddings.py against a store that may write any part of a page. */
module EmbeddingBackfill {
  import opened Prelude

  datatype Batch = Batch(page: seq<nat>, missing: seq<nat>) {
    /** ORDER BY created_at LIMIT size: the oldest missing rows, `size` of them if there are as many. */
    ghost predicate OldestUpTo(size: int) {
      page <= missing && page != [] && |page| == if |missing| < size then |missing| else size
    }
  }

  /** Rows in all pages together. */
  ghost function Handed(batches: seq<Batch>): nat {
    if batches == [] then 0 else Handed(batches[..|batches| - 1]) + |batches[|batches| - 1].page|
  }

  /** The rows the queries see: questions with a prompt and no embedding, oldest first. */
  class QuestionBank {
    var missing: seq<nat>
    /** Every page handed to `store_question_embeddings`, with what was missing at that moment. */
    ghost var batches: seq<Batch>

    ghost predicate Valid()
      reads this
    {
      NoDuplicates(missing)
    }

    /** `store_question_embeddings`: writes an arbitrary subset of the page, and says how many. */
    method StoreEmbeddings(page: seq<nat>) returns (written: nat)
      requires Valid() && page <= missing
      modifies this
      ensures Valid()
      ensures batches == old(batches) + [Batch(page, old(missing))]
      ensures written <= |page|
      ensures |missing| == |old(missing)| - written
      ensures written == 0 ==> missing == old(missing)
      ensures forall q :: q in missing ==> q in old(missing)
      ensures forall q :: q in old(missing) && q !in page ==> q in missing
    {
      var kept: seq<nat> := [];
      written := 0;
      for i := 0 to |page|
        invariant missing == old(missing) && batches == old(batches)
        invariant |kept| + written == i
        invariant written == 0 ==> kept == page[..i]
        invariant NoDuplicates(kept)
        invariant forall q :: q in kept ==> q in page[..i]
      {
        var succeeds: bool := *;
        if succeeds {
          written := written + 1;
        } else {
          assert page[i] !in kept by {
            assert forall k :: 0 <= k < i ==> page[k] == missing[k];
            assert page[i] == missing[i];
          }
          kept := kept + [page[i]];
        }
        assert page[..i + 1] == page[..i] + [page[i]];
      }
      assert page[..|page|] == page;
      var rest := missing[|page|..];
      assert missing == page + rest;
      forall i, j | 0 <= i < |kept| && 0 <= j < |rest| ensures kept[i] != rest[j] {
        assert kept[i] in page;
        assert forall k :: 0 <= k < |page| ==> page[k] == missing[k] && missing[k] != missing[|page| + j];
      }
      batches := batches + [Batch(page, missing)];
      missing := kept + rest;
    }
  }

  datatype Counts = Counts(attempted: nat, stored: nat)

  datatype Failure = NegativeLimit

  /** ORDER BY created_at LIMIT size. */
  function NextPage(missing: seq<nat>, size: nat): (page: seq<nat>)
    ensures page <= missing
    ensures page == [] <==> size == 0 || missing == []
    ensures page != [] ==> Batch(page, missing).OldestUpTo(size)
  {
    if size <= |missing| then missing[..size] else missing
  }

  /** The batch loop of `run`; `handed` are the pages it hands to the store. */
  method RunBatches(bank: QuestionBank, batchSize: nat) returns (counts: Counts, ghost handed: seq<Batch>)
    requires bank.Valid()
    modifies bank
    ensures bank.Valid()
    ensures counts.stored == |old(bank.missing)| - |bank.missing| && counts.stored <= counts.attempted == Handed(handed)
    ensures counts.stored == 0 ==> bank.missing == old(bank.missing)
    ensures if batchSize == 0 then counts.attempted == 0 else counts.attempted == counts.stored ==> bank.missing == []
    ensures forall q :: q in bank.missing ==> q in old(bank.missing)
    ensures bank.batches == old(bank.batches) + handed && forall b :: b in handed ==> b.OldestUpTo(batchSize)
  {
    var attempted, stored := 0, 0;
    handed := [];
    while true
      invariant bank.Valid()
      invariant bank.batches == old(bank.batches) + handed && attempted == Handed(handed)
      invariant forall b :: b in handed ==> b.OldestUpTo(batchSize)
      invariant stored == |old(bank.missing)| - |bank.missing| && stored <= attempted
      invariant stored == 0 ==> bank.missing == old(bank.missing)
      invariant batchSize == 0 ==> attempted == 0
      invariant forall q :: q in bank.missing ==> q in old(bank.missing)
      decreases |bank.missing|
    {
      var page := NextPage(bank.missing, batchSize);
      if |page| == 0 {
        break;
      }
      HandedSnoc(handed, Batch(page, bank.missing));
      attempted := attempted + |page|;
      handed := handed + [Batch(page, bank.missing)];
      var written := bank.StoreEmbeddings(page);
      stored := stored + written;
      if written == 0 {
        break;
      }
    }
    return Counts(attempted, stored), handed;
  }

  lemma HandedSnoc(batches: seq<Batch>, b: Batch)
    ensures Handed(batches + [b]) == Handed(batches) + |b.page|
  {
    assert (batches + [b])[..|batches|] == batches;
  }

  /** `run`.  The batch size is whatever the command line gives; the database refuses a negative
      LIMIT.  For a positive one the loop ends, because each batch that does not end it leaves fewer
      questions missing, and if every attempt was stored then nothing is missing any more. */
  method Run(bank: QuestionBank, dedupEnabled: bool, batchSize: int, dryRun: bool) returns (r: Result<Counts, Failure>)
    requires bank.Valid()
    modifies bank
    ensures bank.Valid()
    ensures r.Err? <==> dedupEnabled && !dryRun && batchSize < 0 && old(bank.missing) != []
    ensures r.Ok? ==> r.value.stored == |old(bank.missing)| - |bank.missing| && r.value.stored <= r.value.attempted
    ensures r.Ok? && r.value.stored == 0 ==> bank.missing == old(bank.missing)
    ensures r.Ok? && dedupEnabled && dryRun ==> r.value == Counts(|old(bank.missing)|, 0)
    ensures !dedupEnabled || dryRun || batchSize <= 0 ==> bank.missing == old(bank.missing)
    ensures !dedupEnabled || (!dryRun && batchSize == 0) || old(bank.missing) == [] ==> r == Ok(Counts(0, 0))
    ensures dedupEnabled && !dryRun && batchSize > 0 ==>
              r.Ok? && (r.value.attempted == r.value.stored ==> bank.missing == [])
    ensures forall q :: q in bank.missing ==> q in old(bank.missing)
    ensures old(bank.batches) <= bank.batches
    ensures forall b :: b in bank.batches[|old(bank.batches)|..] ==> b.OldestUpTo(batchSize)
    ensures r.Ok? && !dryRun ==> r.value.attempted == Handed(bank.batches[|old(bank.batches)|..])
  {
    if !dedupEnabled || |bank.missing| == 0 {
      return Ok(Counts(0, 0));
    }
    if dryRun {
      return Ok(Counts(|bank.missing|, 0));
    }
    if batchSize < 0 {
      return Err(NegativeLimit);
    }
    ghost var handed;
    var counts;
    counts, handed := RunBatches(bank, batchSize);
    assert bank.batches[|old(bank.batches)|..] == handed;
    return Ok(counts);
  }

  /** The process's exit code: 1 exactly when questions were missing and none was stored, be it that
      the query raised or that nothing landed.  A zero batch size is a success that attempts nothing,
      whatever is missing. */
  method RunForExitCode(bank: QuestionBank, dedupEnabled: bool, batchSize: int, dryRun: bool) returns (code: int)
    requires bank.Valid()
    modifies bank
    ensures code == 0 || code == 1
    ensures code == 1 <==> dedupEnabled && !dryRun && batchSize != 0 && old(bank.missing) != [] && bank.missing == old(bank.missing)
  {
    var r := Run(bank, dedupEnabled, batchSize, dryRun);
    match r {
      case Ok(counts) =>
        code := if counts.stored > 0 || counts.attempted == 0 || dryRun then 0 else 1;
      case Err(_) =>
        code := 1;  // the exception ends the interpreter
    }
  }
}
