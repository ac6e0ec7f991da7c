/**
 * Batches of escrow releases and of vulnerability verifications: creation, execution with its accounting, and
 * the cleanup that keeps the newest summaries. The two kinds share one counter and one table of summaries.
 */
module BatchOperations {
  import opened Foundations
  import opened StableSort

  type Address = string

  const MAX_BATCH_SIZE: nat := 100
  const MAX_BATCH_HISTORY: nat := 1000
  const BATCH_RETENTION_SECONDS: nat := 30 * 24 * 60 * 60

  datatype BatchKind = EscrowRelease | Verification

  datatype BatchStatus = Pending | InProgress | Completed | Failed | PartiallyCompleted

  datatype ItemResult = ItemResult(id: nat, success: bool, errorMessage: Option<string>, gasUsed: nat)

  datatype BatchRequest = BatchRequest(ids: seq<nat>, requester: Address, batchId: nat, timestamp: nat)

  datatype BatchSummary = BatchSummary(
    batchId: nat,
    totalItems: nat,
    successfulItems: nat,
    failedItems: nat,
    totalGasUsed: nat,
    estimatedGas: nat,
    estimatedLimit: nat,
    status: BatchStatus,
    results: seq<ItemResult>,
    timestamp: nat)

  datatype BatchError = EmptyBatch | BatchTooLarge | AuthMissing | Overflow | RequestNotFound

  function ErrorText(kind: BatchKind): string {
    match kind
    case EscrowRelease => "Escrow release failed: NotFound"
    case Verification => "Verification failed: NotFound"
  }

  // ---------------------------------------------------------------- accounting

  ghost function Successes(results: seq<ItemResult>): nat {
    if results == [] then 0
    else Successes(results[..|results| - 1]) + (if results[|results| - 1].success then 1 else 0)
  }

  ghost function GasOf(results: seq<ItemResult>): nat {
    if results == [] then 0
    else GasOf(results[..|results| - 1]) + results[|results| - 1].gasUsed
  }

  /** One result per requested item, in order: it succeeded exactly if the item exists, and its own gas is recorded. */
  ghost predicate ResultsFollow(results: seq<ItemResult>, ids: seq<nat>, existing: set<nat>, gas: nat -> nat, kind: BatchKind) {
    && |results| == |ids|
    && forall i :: 0 <= i < |ids| ==>
      && results[i].id == ids[i]
      && (results[i].success <==> ids[i] in existing)
      && results[i].errorMessage == (if results[i].success then None
                                     else if kind == EscrowRelease then Some("Escrow release failed: NotFound")
                                     else Some("Verification failed: NotFound"))
      && results[i].gasUsed == gas(i)
  }

  lemma NoResults(existing: set<nat>, gas: nat -> nat, kind: BatchKind)
    ensures ResultsFollow([], [], existing, gas, kind) && Successes([]) == 0 && GasOf([]) == 0
  {
  }

  lemma ResultAppended(results: seq<ItemResult>, ids: seq<nat>, existing: set<nat>, gas: nat -> nat, kind: BatchKind, i: nat,
                       result: ItemResult)
    requires i < |ids| && ResultsFollow(results, ids[..i], existing, gas, kind)
    requires result == ItemResult(ids[i], ids[i] in existing, if ids[i] in existing then None else Some(ErrorText(kind)), gas(i))
    ensures ResultsFollow(results + [result], ids[..i + 1], existing, gas, kind)
    ensures Successes(results + [result]) == Successes(results) + (if result.success then 1 else 0)
    ensures GasOf(results + [result]) == GasOf(results) + result.gasUsed
  {
    assert (results + [result])[..|results|] == results;
  }

  /** The figures of a processed batch are those of its item results. */
  ghost predicate Accounted(s: BatchSummary) {
    && s.totalItems == |s.results|
    && s.successfulItems == Successes(s.results)
    && s.successfulItems + s.failedItems == |s.results|
    && s.totalGasUsed == GasOf(s.results)
    && s.status == (if s.failedItems == 0 then Completed else if s.successfulItems > 0 then PartiallyCompleted else Failed)
  }

  lemma {:induction false} SuccessesBounds(results: seq<ItemResult>)
    ensures Successes(results) <= |results|
    ensures Successes(results) == |results| <==> forall i :: 0 <= i < |results| ==> results[i].success
    ensures Successes(results) == 0 <==> forall i :: 0 <= i < |results| ==> !results[i].success
  {
    if results != [] {
      var n := |results| - 1;
      SuccessesBounds(results[..n]);
      assert forall i :: 0 <= i < n ==> results[..n][i] == results[i];
    }
  }

  /** Successes and gas are counted item by item. */
  lemma {:induction false} FiguresAddUp(a: seq<ItemResult>, b: seq<ItemResult>, r: ItemResult)
    ensures Successes(a + b) == Successes(a) + Successes(b) && GasOf(a + b) == GasOf(a) + GasOf(b)
    ensures Successes([r]) == (if r.success then 1 else 0) && GasOf([r]) == r.gasUsed
  {
    assert [r][..0] == [];
    if b == [] {
      assert a + b == a;
    } else {
      var n := |b| - 1;
      assert (a + b)[..|a + b| - 1] == a + b[..n];
      FiguresAddUp(a, b[..n], r);
    }
  }

  /** The status tells how much of the request existed: all of it, none of it, or some. */
  lemma StatusMeansExistence(s: BatchSummary, ids: seq<nat>, existing: set<nat>, gas: nat -> nat, kind: BatchKind)
    requires ids != [] && Accounted(s) && ResultsFollow(s.results, ids, existing, gas, kind)
    ensures s.status == Completed <==> forall i :: 0 <= i < |ids| ==> ids[i] in existing
    ensures s.status == Failed <==> forall i :: 0 <= i < |ids| ==> ids[i] !in existing
    ensures s.status in {Completed, Failed, PartiallyCompleted}
  {
    SuccessesBounds(s.results);
  }

  // ---------------------------------------------------------------- keeping the newest

  function SummaryTime(results: map<nat, BatchSummary>): nat -> int {
    id => if id in results then results[id].timestamp else 0
  }

  function FreshSummaries(results: map<nat, BatchSummary>, cutoff: nat): map<nat, BatchSummary> {
    map id | id in results && results[id].timestamp >= cutoff :: results[id]
  }

  function FreshRequests(requests: map<nat, BatchRequest>, cutoff: nat): map<nat, BatchRequest> {
    map id | id in requests && requests[id].timestamp >= cutoff :: requests[id]
  }

  /** `kept` is the newest `limit` of `all`, the higher id counting as newer among equal timestamps. */
  ghost predicate KeepsNewest(kept: map<nat, BatchSummary>, all: map<nat, BatchSummary>, limit: nat) {
    && (forall id :: id in kept ==> id in all && kept[id] == all[id])
    && |kept| == Min(|all|, limit)
    && forall d, k :: d in all && d !in kept && k in kept ==> Before(d, k, SummaryTime(all))
  }

  /** The newest summaries are determined. */
  lemma NewestIsUnique(a: map<nat, BatchSummary>, b: map<nat, BatchSummary>, all: map<nat, BatchSummary>, limit: nat)
    requires KeepsNewest(a, all, limit) && KeepsNewest(b, all, limit)
    ensures a == b
  {
    if k :| k in a && k !in b {
      assert forall d :: d in b ==> d in a by {
        forall d | d in b
          ensures d in a
        {
          assert d !in a ==> Before(d, k, SummaryTime(all)) && Before(k, d, SummaryTime(all));
        }
      }
      SmallerKeys(b, a, k);
      assert false;
    }
    if k :| k in b && k !in a {
      assert forall d :: d in a ==> d in b;
      SmallerKeys(a, b, k);
      assert false;
    }
  }

  /** The summaries newer than one of them. */
  ghost function NewerThan(all: map<nat, BatchSummary>, id: nat): set<nat> {
    set k | k in all && Before(id, k, SummaryTime(all))
  }

  /**
   * A summary is forgotten exactly when `limit` newer ones exist, whatever its status: the request of a Completed
   * batch may outlive its summary, and the batch then executes anew.
   */
  lemma KeptIffFewNewer(kept: map<nat, BatchSummary>, all: map<nat, BatchSummary>, limit: nat, id: nat)
    requires KeepsNewest(kept, all, limit) && id in all
    ensures id in kept <==> |NewerThan(all, id)| < limit
  {
    hide SummaryTime;
    var newer := NewerThan(all, id);
    assert kept.Keys <= all.Keys && |kept.Keys| == |kept| && |all.Keys| == |all|;
    if id in kept {
      forall k | k in newer
        ensures k in kept.Keys - {id}
      {
        assert k !in kept ==> Before(k, id, SummaryTime(all)) && Before(id, k, SummaryTime(all));
      }
      SubsetSize(newer, kept.Keys - {id});
    } else {
      assert kept.Keys <= all.Keys - {id};
      SubsetSize(kept.Keys, all.Keys - {id});
      assert forall k :: k in kept ==> Before(id, k, SummaryTime(all));
      SubsetSize(kept.Keys, newer);
    }
  }

  /** Not older than thirty days. */
  predicate Recent(s: BatchSummary, now: nat) {
    s.timestamp + 2_592_000 >= now
  }

  /** Cleanup keeps a summary exactly if it is recent and fewer than a thousand recent ones are newer, by time and then id. */
  lemma CleanupKeepsIff(all: map<nat, BatchSummary>, kept: map<nat, BatchSummary>, now: nat, id: nat)
    requires KeepsNewest(kept, FreshSummaries(all, SaturatingSub(now, BATCH_RETENTION_SECONDS)), MAX_BATCH_HISTORY)
    ensures id in kept <==>
            && id in all && Recent(all[id], now)
            && |set k | k in all && Recent(all[k], now)
                        && (all[k].timestamp > all[id].timestamp || (all[k].timestamp == all[id].timestamp && k > id))| < 1000
    ensures id in kept ==> kept[id] == all[id]
  {
    var unexpired := FreshSummaries(all, SaturatingSub(now, BATCH_RETENTION_SECONDS));
    FreshMeansRecent(all, now);
    if id in unexpired {
      KeptIffFewNewer(kept, unexpired, MAX_BATCH_HISTORY, id);
      assert NewerThan(unexpired, id) ==
             set k | k in all && Recent(all[k], now)
                     && (all[k].timestamp > all[id].timestamp || (all[k].timestamp == all[id].timestamp && k > id));
    }
  }

  lemma FreshMeansRecent(all: map<nat, BatchSummary>, now: nat)
    ensures forall k :: k in FreshSummaries(all, SaturatingSub(now, BATCH_RETENTION_SECONDS)) <==> k in all && Recent(all[k], now)
  {
  }

  lemma SmallerKeys(a: map<nat, BatchSummary>, b: map<nat, BatchSummary>, k: nat)
    requires k in b && k !in a && forall d :: d in a ==> d in b
    ensures |a| < |b|
  {
    assert a.Keys <= b.Keys - {k};
    SubsetSize(a.Keys, b.Keys - {k});
    assert |b.Keys - {k}| == |b.Keys| - 1;
  }

  lemma SortedSummaryIds(all: map<nat, BatchSummary>)
    ensures var sorted := SortBy(Ascending(all.Keys), SummaryTime(all));
            |sorted| == |all| && NoDuplicates(sorted) && forall id :: id in sorted ==> id in all
  {
    hide Ascending;
    SortAscendingBreaksTies(Ascending(all.Keys), SummaryTime(all));
    OrderedIsDistinct(SortBy(Ascending(all.Keys), SummaryTime(all)), SummaryTime(all));
    assert |all.Keys| == |all|;
  }

  lemma RemovalSize(all: map<nat, BatchSummary>, gone: seq<nat>)
    requires NoDuplicates(gone) && forall id :: id in gone ==> id in all
    ensures |all - Elements(gone)| == |all| - |gone|
  {
    DistinctLength(gone);
    SubsetSize(Elements(gone), all.Keys);
    assert (all - Elements(gone)).Keys == all.Keys - Elements(gone);
    assert |all.Keys| == |all|;
  }

  /** Dropping the head of the ids sorted by time leaves the newest. */
  lemma DropOldest(all: map<nat, BatchSummary>, limit: nat)
    requires |all| > limit
    ensures var sorted := SortBy(Ascending(all.Keys), SummaryTime(all));
            && |sorted| == |all| && NoDuplicates(sorted) && (forall id :: id in sorted ==> id in all)
            && KeepsNewest(all - Elements(sorted[..|all| - limit]), all, limit)
  {
    hide Ascending, SortBy, SummaryTime;
    var sorted := SortBy(Ascending(all.Keys), SummaryTime(all));
    SortedSummaryIds(all);
    var gone := sorted[..|all| - limit];
    assert forall id :: id in gone ==> id in sorted;
    RemovalSize(all, gone);
    forall d, k | d in gone && k in all && k !in gone
      ensures Before(d, k, SummaryTime(all))
    {
      CutComesBefore(all.Keys, SummaryTime(all), sorted, |all| - limit, d, k);
    }
  }

  lemma AllAreNewest(all: map<nat, BatchSummary>, limit: nat)
    ensures |all| <= limit ==> KeepsNewest(all, all, limit)
  {
  }

  function ExpiredIds(all: map<nat, BatchSummary>, cutoff: nat): (s: set<nat>)
    ensures s <= all.Keys
    ensures all - s == FreshSummaries(all, cutoff)
  {
    set id | id in all && all[id].timestamp < cutoff
  }

  // ---------------------------------------------------------------- the contract

  ghost predicate RequestsOk(requests: map<nat, BatchRequest>, summaries: map<nat, BatchSummary>, counter: nat) {
    forall id :: id in requests ==>
      && 1 <= id <= counter && requests[id].batchId == id
      && 1 <= |requests[id].ids| <= MAX_BATCH_SIZE
      && (id in summaries ==> summaries[id].totalItems == |requests[id].ids|)
  }

  ghost predicate SummariesOk(summaries: map<nat, BatchSummary>, counter: nat) {
    forall id :: id in summaries ==>
      && 1 <= id <= counter && summaries[id].batchId == id
      && (summaries[id].status == Pending || Accounted(summaries[id]))
  }

  function NewSummary(request: BatchRequest): BatchSummary {
    BatchSummary(request.batchId, |request.ids|, 0, 0, 0, 0, 0, Pending, [], request.timestamp)
  }

  /** Ids are unique over both kinds; a stored summary is untouched or fully accounted for. */
  ghost predicate TablesOk(releases: map<nat, BatchRequest>, verifications: map<nat, BatchRequest>,
                           summaries: map<nat, BatchSummary>, counter: nat) {
    && RequestsOk(releases, summaries, counter)
    && RequestsOk(verifications, summaries, counter)
    && (forall id :: id in releases ==> id !in verifications)
    && SummariesOk(summaries, counter)
  }

  lemma NewSummaryIsPending(request: BatchRequest)
    ensures NewSummary(request) == BatchSummary(request.batchId, |request.ids|, 0, 0, 0, 0, 0, Pending, [], request.timestamp)
  {
  }

  /** The next id is unused, and storing a request with its pending summary under it keeps all tables in order. */
  lemma CreatedBatchIsFresh(releases: map<nat, BatchRequest>, verifications: map<nat, BatchRequest>,
                            summaries: map<nat, BatchSummary>, counter: nat, request: BatchRequest)
    requires TablesOk(releases, verifications, summaries, counter)
    requires 1 <= |request.ids| <= MAX_BATCH_SIZE && request.batchId == counter + 1
    ensures var id := counter + 1;
            var summaries' := summaries[id := NewSummary(request)];
            && id !in releases && id !in verifications && id !in summaries
            && TablesOk(releases[id := request], verifications, summaries', id)
            && TablesOk(releases, verifications[id := request], summaries', id)
  {
    hide Accounted;
  }

  lemma SummaryStored(releases: map<nat, BatchRequest>, verifications: map<nat, BatchRequest>,
                      summaries: map<nat, BatchSummary>, counter: nat, id: nat, summary: BatchSummary)
    requires TablesOk(releases, verifications, summaries, counter)
    requires 1 <= id <= counter && summary.batchId == id && Accounted(summary)
    requires id in releases ==> summary.totalItems == |releases[id].ids|
    requires id in verifications ==> summary.totalItems == |verifications[id].ids|
    ensures TablesOk(releases, verifications, summaries[id := summary], counter)
  {
    hide Accounted;
  }

  lemma RequestsShrink(requests: map<nat, BatchRequest>, summaries: map<nat, BatchSummary>, kept: map<nat, BatchSummary>,
                       counter: nat, cutoff: nat)
    requires RequestsOk(requests, summaries, counter)
    requires forall id :: id in kept ==> id in summaries && kept[id] == summaries[id]
    ensures RequestsOk(FreshRequests(requests, cutoff), kept, counter)
    ensures FreshRequests(requests, cutoff).Keys <= requests.Keys
  {
  }

  lemma SummariesShrink(summaries: map<nat, BatchSummary>, kept: map<nat, BatchSummary>, counter: nat)
    requires SummariesOk(summaries, counter)
    requires forall id :: id in kept ==> id in summaries && kept[id] == summaries[id]
    ensures SummariesOk(kept, counter)
  {
    hide Accounted;
  }

  lemma KeptAreStored(kept: map<nat, BatchSummary>, all: map<nat, BatchSummary>, cutoff: nat)
    requires KeepsNewest(kept, FreshSummaries(all, cutoff), MAX_BATCH_HISTORY)
    ensures forall id :: id in kept ==> id in all && kept[id] == all[id]
  {
  }

  /** Dropping summaries and expired requests keeps all tables in order. */
  lemma CleanupKeepsTables(releases: map<nat, BatchRequest>, verifications: map<nat, BatchRequest>,
                           summaries: map<nat, BatchSummary>, kept: map<nat, BatchSummary>, counter: nat, cutoff: nat)
    requires TablesOk(releases, verifications, summaries, counter)
    requires KeepsNewest(kept, FreshSummaries(summaries, cutoff), MAX_BATCH_HISTORY)
    ensures TablesOk(FreshRequests(releases, cutoff), FreshRequests(verifications, cutoff), kept, counter)
  {
    hide KeepsNewest, FreshSummaries, FreshRequests, RequestsOk, SummariesOk;
    KeptAreStored(kept, summaries, cutoff);
    RequestsShrink(releases, summaries, kept, counter, cutoff);
    RequestsShrink(verifications, summaries, kept, counter, cutoff);
    SummariesShrink(summaries, kept, counter);
  }

  lemma {:induction false} GasBound(results: seq<ItemResult>, limit: nat)
    requires forall i :: 0 <= i < |results| ==> results[i].gasUsed <= limit
    ensures GasOf(results) <= |results| * limit
  {
    if results != [] {
      GasBound(results[..|results| - 1], limit);
    }
  }

  /** Ledger sequences are 32 bits wide, so the gas of a batch never leaves the range of its 64-bit sum. */
  lemma BatchGasInRange(results: seq<ItemResult>)
    requires |results| <= MAX_BATCH_SIZE
    requires forall i :: 0 <= i < |results| ==> results[i].gasUsed <= 0xFFFF_FFFF
    ensures GasOf(results) <= U64_MAX
  {
    GasBound(results, 0xFFFF_FFFF);
  }

  class BatchContract {
    var counter: nat
    var escrowReleases: map<nat, BatchRequest>
    var verifications: map<nat, BatchRequest>
    var summaries: map<nat, BatchSummary>
    var cleanupTimestamp: nat

    ghost function RequestsOf(kind: BatchKind): map<nat, BatchRequest>
      reads this
    {
      if kind == EscrowRelease then escrowReleases else verifications
    }

    ghost predicate Valid()
      reads this
    {
      TablesOk(escrowReleases, verifications, summaries, counter)
    }

    constructor (now: nat)
      ensures Valid() && counter == 0 && summaries == map[] && cleanupTimestamp == now
      ensures RequestsOf(EscrowRelease) == map[] && RequestsOf(Verification) == map[]
    {
      counter, cleanupTimestamp := 0, now;
      escrowReleases, verifications, summaries := map[], map[], map[];
    }

    /** `create_batch_escrow_release` and `create_batch_verification`. */
    method CreateBatch(kind: BatchKind, ids: seq<nat>, requester: Address, authorized: bool, now: nat)
      returns (r: Result<nat, BatchError>)
      requires Valid()
      modifies this
      ensures Valid()
      ensures r.Ok? <==> 1 <= |ids| <= 100 && authorized && old(counter) < U64_MAX
      ensures r.Err? ==>
                && counter == old(counter) && summaries == old(summaries)
                && escrowReleases == old(escrowReleases) && verifications == old(verifications)
      ensures r.Ok? ==>
                var id, request := old(counter) + 1, BatchRequest(ids, requester, old(counter) + 1, now);
                && r.value == counter == id
                && id !in old(escrowReleases) && id !in old(verifications) && id !in old(summaries)
                && escrowReleases == (if kind == EscrowRelease then old(escrowReleases)[id := request] else old(escrowReleases))
                && verifications == (if kind == Verification then old(verifications)[id := request] else old(verifications))
                && summaries == old(summaries)[id := BatchSummary(id, |ids|, 0, 0, 0, 0, 0, Pending, [], now)]
      ensures cleanupTimestamp == old(cleanupTimestamp)
    {
      if ids == [] { return Err(EmptyBatch); }
      if |ids| > MAX_BATCH_SIZE { return Err(BatchTooLarge); }
      if !authorized { return Err(AuthMissing); }
      if counter + 1 > U64_MAX { return Err(Overflow); }
      NewSummaryIsPending(BatchRequest(ids, requester, counter + 1, now));
      hide NewSummary;
      StoreNew(kind, BatchRequest(ids, requester, counter + 1, now));
      r := Ok(counter);
    }

    /** The writes of a successful creation. */
    method StoreNew(kind: BatchKind, request: BatchRequest)
      requires Valid()
      requires request.batchId == counter + 1 && 1 <= |request.ids| <= MAX_BATCH_SIZE
      modifies this`counter, this`escrowReleases, this`verifications, this`summaries
      ensures Valid()
      ensures counter == old(counter) + 1
      ensures counter !in old(escrowReleases) && counter !in old(verifications) && counter !in old(summaries)
      ensures escrowReleases == (if kind == EscrowRelease then old(escrowReleases)[counter := request] else old(escrowReleases))
      ensures verifications == (if kind == Verification then old(verifications)[counter := request] else old(verifications))
      ensures summaries == old(summaries)[counter := NewSummary(request)]
    {
      CreatedBatchIsFresh(escrowReleases, verifications, summaries, counter, request);
      hide TablesOk, NewSummary;
      counter := counter + 1;
      if kind == EscrowRelease {
        escrowReleases := escrowReleases[counter := request];
      } else {
        verifications := verifications[counter := request];
      }
      summaries := summaries[counter := NewSummary(request)];
    }

    /** The processing loop: every item is tried, whatever happened to those before it. */
    static method ProcessItems(kind: BatchKind, ids: seq<nat>, existing: set<nat>, gas: nat -> nat)
      returns (results: seq<ItemResult>, successful: nat, failed: nat, totalGas: nat)
      ensures |results| == |ids| && ResultsFollow(results, ids, existing, gas, kind)
      ensures successful == Successes(results) && successful + failed == |results|
      ensures totalGas == GasOf(results)
    {
      results, successful, failed, totalGas := [], 0, 0, 0;
      NoResults(existing, gas, kind);
      hide ResultsFollow, Successes, GasOf;
      for i := 0 to |ids|
        invariant |results| == i && ResultsFollow(results, ids[..i], existing, gas, kind)
        invariant successful == Successes(results) && successful + failed == i
        invariant totalGas == GasOf(results)
      {
        var gasUsed := gas(i);
        var result;
        if ids[i] in existing {
          result := ItemResult(ids[i], true, None, gasUsed);
          successful := successful + 1;
        } else {
          result := ItemResult(ids[i], false, Some(ErrorText(kind)), gasUsed);
          failed := failed + 1;
        }
        totalGas := totalGas + gasUsed;
        ResultAppended(results, ids, existing, gas, kind, i, result);
        results := results + [result];
      }
      assert ids[..|ids|] == ids;
    }

    /**
     * `execute_batch_escrow_release` and `execute_batch_verification`; `existing` are the escrows or reports in
     * storage and `gas` the ledger-sequence difference measured around each item.
     */
    method ExecuteBatch(kind: BatchKind, batchId: nat, existing: set<nat>, gas: nat -> nat, authorized: bool, now: nat)
      returns (r: Result<BatchSummary, BatchError>)
      requires Valid()
      modifies this`summaries
      ensures Valid()
      ensures r.Ok? <==> authorized && batchId in RequestsOf(kind)
      ensures r.Err? ==> summaries == old(summaries)
      ensures r.Ok? ==> summaries == old(summaries)[batchId := r.value] && r.value.batchId == batchId
      ensures r.Ok? && batchId in old(summaries) && old(summaries)[batchId].status == Completed ==> r.value == old(summaries)[batchId]
      ensures r.Ok? && !(batchId in old(summaries) && old(summaries)[batchId].status == Completed) ==>
                && Accounted(r.value)
                && ResultsFollow(r.value.results, RequestsOf(kind)[batchId].ids, existing, gas, kind)
                && r.value.timestamp == (if batchId in old(summaries) then old(summaries)[batchId].timestamp else now)
    {
      if !authorized { return Err(AuthMissing); }
      var requests := if kind == EscrowRelease then escrowReleases else verifications;
      if batchId !in requests { return Err(RequestNotFound); }
      var request := requests[batchId];
      assert batchId in RequestsOf(kind);
      if batchId in summaries && (summaries[batchId].status == Completed || summaries[batchId].status == InProgress) {
        return Ok(summaries[batchId]);
      }
      var summary := if batchId in summaries then summaries[batchId]
                     else BatchSummary(batchId, |request.ids|, 0, 0, 0, 0, 0, InProgress, [], now);
      var results, successful, failed, totalGas := ProcessItems(kind, request.ids, existing, gas);
      hide ResultsFollow;
      summary := summary.(successfulItems := successful, failedItems := failed, totalGasUsed := totalGas, results := results,
                          status := if failed == 0 then Completed
                                    else if successful > 0 then PartiallyCompleted else Failed);
      assert Accounted(summary);
      SummaryStored(escrowReleases, verifications, summaries, counter, batchId, summary);
      hide Accounted, TablesOk;
      summaries := summaries[batchId := summary];
      r := Ok(summary);
    }

    /** Drops what is older than the retention period, then the oldest summaries beyond the history limit. */
    method CleanupOldBatches(now: nat) returns (cleaned: nat)
      requires Valid()
      modifies this
      ensures Valid()
      ensures var cutoff := SaturatingSub(now, 2_592_000);
              && KeepsNewest(summaries, FreshSummaries(old(summaries), cutoff), 1000)
              && escrowReleases == FreshRequests(old(escrowReleases), cutoff)
              && verifications == FreshRequests(old(verifications), cutoff)
      ensures cleaned == |old(summaries)| - |summaries|
      ensures cleanupTimestamp == now && counter == old(counter)
    {
      hide KeepsNewest, TablesOk, FreshSummaries, FreshRequests;
      var cutoff := SaturatingSub(now, BATCH_RETENTION_SECONDS);
      var kept, expired := DropExpired(summaries, cutoff);
      var newest, excess := DropExcess(kept);
      cleaned := expired + excess;
      CleanupKeepsTables(escrowReleases, verifications, summaries, newest, counter, cutoff);
      summaries := newest;
      escrowReleases := FreshRequests(escrowReleases, cutoff);
      verifications := FreshRequests(verifications, cutoff);
      cleanupTimestamp := now;
    }

    static method DropExpired(all: map<nat, BatchSummary>, cutoff: nat) returns (rest: map<nat, BatchSummary>, removed: nat)
      ensures rest == FreshSummaries(all, cutoff)
      ensures removed == |all| - |rest|
    {
      var expired := Ascending(ExpiredIds(all, cutoff));
      hide Ascending, ExpiredIds, FreshSummaries;
      rest := RemoveAll(all, expired);
      removed := |expired|;
      assert Elements(expired) == ExpiredIds(all, cutoff);
    }

    static method DropExcess(all: map<nat, BatchSummary>) returns (rest: map<nat, BatchSummary>, removed: nat)
      ensures KeepsNewest(rest, all, MAX_BATCH_HISTORY)
      ensures removed == |all| - |rest|
    {
      hide Ascending, SortBy, SummaryTime, KeepsNewest;
      AllAreNewest(all, MAX_BATCH_HISTORY);
      rest, removed := all, 0;
      if |all| > MAX_BATCH_HISTORY {
        DropOldest(all, MAX_BATCH_HISTORY);
        var sorted := SortBy(Ascending(all.Keys), SummaryTime(all));
        removed := |all| - MAX_BATCH_HISTORY;
        assert forall id :: id in sorted[..removed] ==> id in sorted;
        rest := RemoveAll(all, sorted[..removed]);
      }
    }

    /** Removes the listed summaries one by one. */
    static method RemoveAll(all: map<nat, BatchSummary>, ids: seq<nat>) returns (rest: map<nat, BatchSummary>)
      requires NoDuplicates(ids) && forall id :: id in ids ==> id in all
      ensures rest == all - Elements(ids)
      ensures |rest| == |all| - |ids|
    {
      rest := all;
      for i := 0 to |ids|
        invariant rest == all - Elements(ids[..i])
        invariant |rest| == |all| - i
      {
        assert ids[i] in ids && ids[i] !in ids[..i];
        RemoveOne(all, ids, i);
        rest := rest - {ids[i]};
      }
      assert ids[..|ids|] == ids;
    }
  }

  lemma RemoveOne(all: map<nat, BatchSummary>, ids: seq<nat>, i: nat)
    requires i < |ids| && ids[i] in all && ids[i] !in ids[..i]
    ensures ids[i] in all - Elements(ids[..i])
    ensures (all - Elements(ids[..i])) - {ids[i]} == all - Elements(ids[..i + 1])
    ensures |all - Elements(ids[..i + 1])| == |all - Elements(ids[..i])| - 1
  {
    var before := all - Elements(ids[..i]);
    assert Elements(ids[..i + 1]) == Elements(ids[..i]) + {ids[i]};
    assert (before - {ids[i]}).Keys == before.Keys - {ids[i]};
  }

  // ---------------------------------------------------------------- a batch that runs twice

  /** The ids from 1 to `n`. */
  ghost function FirstIds(n: nat): (ids: set<nat>)
    ensures forall id :: id in ids <==> 1 <= id <= n
    ensures |ids| == n
  {
    if n == 0 then {} else FirstIds(n - 1) + {n}
  }

  lemma OthersAreNewer(all: map<nat, BatchSummary>)
    requires 1 in all && forall id :: id in all ==> id >= 1
    requires forall id :: id in all ==> all[id].timestamp == if id == 1 then 0 else 1
    ensures NewerThan(all, 1) == all.Keys - {1} && |NewerThan(all, 1)| == |all| - 1
  {
    assert |all.Keys| == |all|;
    forall id
      ensures id in NewerThan(all, 1) <==> id in all.Keys - {1}
    {
    }
  }

  /** One summary over the limit, the first the oldest: the first has as many newer ones as are kept. */
  lemma FirstIsForgotten(all: map<nat, BatchSummary>, kept: map<nat, BatchSummary>, limit: nat)
    requires all.Keys == FirstIds(limit + 1) && |all| == limit + 1
    requires forall id :: id in all ==> all[id].timestamp == if id == 1 then 0 else 1
    requires KeepsNewest(kept, all, limit)
    ensures 1 !in kept
  {
    hide KeepsNewest;
    OthersAreNewer(all);
    KeptIffFewNewer(kept, all, limit, 1);
  }

  /** The state after a first batch and `n` later ones. */
  ghost predicate CreatedSoFar(b: BatchContract, n: nat)
    reads b
  {
    && b.Valid() && b.counter == n + 1
    && b.summaries.Keys == FirstIds(n + 1) && |b.summaries| == n + 1
    && (forall id :: id in b.summaries ==> b.summaries[id].timestamp == if id == 1 then 0 else 1)
    && 1 in b.escrowReleases && b.escrowReleases[1] == BatchRequest([7], "alice", 1, 0)
  }

  lemma OneMoreId(summaries: map<nat, BatchSummary>, n: nat, summary: BatchSummary)
    requires summaries.Keys == FirstIds(n + 1)
    ensures summaries[n + 2 := summary].Keys == FirstIds(n + 2)
    ensures |summaries[n + 2 := summary]| == |summaries| + 1
  {
    assert summaries[n + 2 := summary].Keys == summaries.Keys + {n + 2};
    assert |summaries.Keys| == |summaries|;
  }

  /** A batch of one existing escrow, created and executed at time 0. */
  method FirstBatch() returns (b: BatchContract, first: BatchSummary)
    ensures fresh(b) && CreatedSoFar(b, 0)
    ensures first.batchId == 1 && first.status == Completed && b.summaries[1] == first
  {
    hide TablesOk, Accounted, ResultsFollow;
    b := new BatchContract(0);
    var created := b.CreateBatch(EscrowRelease, [7], "alice", true, 0);
    var gas := (i: nat) => 0;
    PendingAtFirst(BatchRequest([7], "alice", 1, 0));
    var executed := b.ExecuteBatch(EscrowRelease, 1, {7}, gas, true, 0);
    first := executed.value;
    OneItemStatus(first, 7, {7}, gas);
    FirstHasOneId(b.summaries, first);
  }

  lemma PendingAtFirst(request: BatchRequest)
    ensures NewSummary(request).status == Pending && NewSummary(request).timestamp == request.timestamp
  {
  }

  lemma OneItemStatus(s: BatchSummary, item: nat, existing: set<nat>, gas: nat -> nat)
    requires Accounted(s) && ResultsFollow(s.results, [item], existing, gas, EscrowRelease)
    ensures s.status == if item in existing then Completed else Failed
  {
    StatusMeansExistence(s, [item], existing, gas, EscrowRelease);
    assert [item][0] == item;
  }

  lemma FirstHasOneId(summaries: map<nat, BatchSummary>, first: BatchSummary)
    requires summaries == map[1 := first]
    ensures summaries.Keys == FirstIds(1) && |summaries| == 1
  {
  }

  /** Another batch at time 1. */
  method OneMoreBatch(b: BatchContract, n: nat)
    requires CreatedSoFar(b, n) && n < MAX_BATCH_HISTORY
    modifies b
    ensures CreatedSoFar(b, n + 1)
    ensures b.summaries[1] == old(b.summaries[1])
  {
    hide TablesOk;
    OneMoreId(b.summaries, n, NewSummary(BatchRequest([7], "alice", n + 2, 1)));
    NewSummaryTime(BatchRequest([7], "alice", n + 2, 1));
    var created := b.CreateBatch(EscrowRelease, [7], "alice", true, 1);
  }

  lemma NewSummaryTime(request: BatchRequest)
    ensures NewSummary(request).timestamp == request.timestamp
  {
  }

  lemma AllFresh(all: map<nat, BatchSummary>)
    ensures FreshSummaries(all, 0) == all
  {
  }

  lemma RequestStays(requests: map<nat, BatchRequest>)
    ensures FreshRequests(requests, 0) == requests
  {
  }

  /**
   * A Completed batch can execute anew: once a thousand newer batches have pushed its summary out, its request is
   * still there, and with the escrow gone it now fails.
   */
  method CompletedBatchRunsAgain() returns (first: BatchSummary, second: BatchSummary)
    ensures first.batchId == second.batchId == 1
    ensures first.status == Completed && second.status == Failed
  {
    var b;
    b, first := FirstBatch();
    for n := 0 to MAX_BATCH_HISTORY
      invariant fresh(b) && CreatedSoFar(b, n)
    {
      OneMoreBatch(b, n);
    }
    hide TablesOk, KeepsNewest, FreshSummaries, FreshRequests, FirstIds;
    ghost var all := b.summaries;
    RequestStays(b.escrowReleases);
    AllFresh(all);
    var cleaned := b.CleanupOldBatches(2);
    FirstIsForgotten(all, b.summaries, MAX_BATCH_HISTORY);
    second := FailingRun(b);
  }

  /** Executing the first batch when its summary is forgotten and its escrow gone. */
  method FailingRun(b: BatchContract) returns (second: BatchSummary)
    requires b.Valid() && 1 in b.escrowReleases && b.escrowReleases[1].ids == [7] && 1 !in b.summaries
    modifies b
    ensures second.batchId == 1 && second.status == Failed
  {
    var gas := (i: nat) => 0;
    var executed := b.ExecuteBatch(EscrowRelease, 1, {}, gas, true, 3);
    second := executed.value;
    OneItemStatus(second, 7, {}, gas);
  }
}
