/**
  Importing a batch of artworks: each one is saved in turn, a failed save is
  counted and does not stop the batch. The repository is seen only through the
  outcome of each save, `saved[k]` telling whether saving `artworks[k]` succeeded.
 */
module ImportService {
  import opened Entities

  /** The statistics `import_batch` returns. */
  datatype ImportStats = ImportStats(imported: nat, failed: nat, total: nat)

  /** The number of successful saves among `outcomes`. */
  function Successes(outcomes: seq<bool>): (n: nat)
    ensures n <= |outcomes|
    ensures n == |outcomes| <==> forall k :: 0 <= k < |outcomes| ==> outcomes[k]
    ensures n == 0 <==> forall k :: 0 <= k < |outcomes| ==> !outcomes[k]
  {
    if |outcomes| == 0 then 0
    else Successes(outcomes[..|outcomes| - 1]) + (if outcomes[|outcomes| - 1] then 1 else 0)
  }

  /**
    `import_batch`: `attempted` lists the save calls made, in order; every artwork is
    attempted exactly once, failures included, and the counters split the batch
    into the saves that succeeded and those that raised.
   */
  method ImportBatch(artworks: seq<Artwork>, saved: seq<bool>) returns (stats: ImportStats, attempted: seq<Artwork>)
    requires |saved| == |artworks|
    ensures attempted == artworks
    ensures stats.total == |artworks|
    ensures stats.imported + stats.failed == stats.total
    ensures stats.imported == Successes(saved)
  {
    var importedCount := 0;
    var failedCount := 0;
    attempted := [];
    var i := 0;
    while i < |artworks|
      invariant 0 <= i <= |artworks|
      invariant attempted == artworks[..i]
      invariant importedCount == Successes(saved[..i])
      invariant importedCount + failedCount == i
    {
      attempted := attempted + [artworks[i]];
      if saved[i] {
        importedCount := importedCount + 1;
      } else {
        failedCount := failedCount + 1;
      }
      assert saved[..i + 1][..i] == saved[..i];
      i := i + 1;
    }
    assert saved[..i] == saved;
    assert artworks[..i] == artworks;
    stats := ImportStats(importedCount, failedCount, |artworks|);
  }

  /** Successes over two batches add up, so importing a batch in two parts gives the same totals. */
  lemma {:induction false} SuccessesConcat(a: seq<bool>, b: seq<bool>)
    ensures Successes(a + b) == Successes(a) + Successes(b)
    decreases |b|
  {
    if |b| > 0 {
      assert (a + b)[..|a + b| - 1] == a + b[..|b| - 1];
      SuccessesConcat(a, b[..|b| - 1]);
    } else {
      assert a + b == a;
    }
  }
}
