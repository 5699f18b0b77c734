/** Listing ingestion (services/listing_ingestion.py) over the repository it writes through. */
module ListingIngestion {
  import opened Text
  import opened Orders
  import opened Domain
  import opened ListingStore

  /** The incoming attributes, the seen range stretched just enough to cover both. */
  predicate Widened(stored: Listing, incoming: Listing, row: Listing) {
    && row == incoming.(firstSeenAt := row.firstSeenAt, lastSeenAt := row.lastSeenAt)
    && row.firstSeenAt <= stored.firstSeenAt && row.firstSeenAt <= incoming.firstSeenAt
    && (row.firstSeenAt == stored.firstSeenAt || row.firstSeenAt == incoming.firstSeenAt)
    && row.lastSeenAt >= stored.lastSeenAt && row.lastSeenAt >= incoming.lastSeenAt
    && (row.lastSeenAt == stored.lastSeenAt || row.lastSeenAt == incoming.lastSeenAt)
  }

  /** The repository: two keyed tables changed row by row, and the history of writes as a ghost. */
  class ListingRepository {
    var listings: map<Id, Listing>
    var snapshots: map<SnapshotKey, ListingSnapshot>
    ghost var log: seq<Event>

    ghost predicate Valid()
      reads this
    {
      ValidLog(log) && Contents() == Replay(log)
    }

    function Contents(): Tables
      reads this
    {
      Tables(listings, snapshots)
    }

    constructor ()
      ensures Valid() && log == []
    {
      listings, snapshots, log := map[], map[], [];
    }

    method UpsertListing(item: Listing)
      requires Valid() && item.Valid()
      modifies this
      ensures Valid() && log == old(log) + [SawListing(item)]
      ensures snapshots == old(snapshots)
      ensures listings.Keys == old(listings.Keys) + {item.listingId}
      ensures forall id :: id in old(listings) && id != item.listingId ==> listings[id] == old(listings[id])
      ensures item.listingId !in old(listings) ==> listings[item.listingId] == item
      ensures item.listingId in old(listings) ==> Widened(old(listings[item.listingId]), item, listings[item.listingId])
    {
      if item.listingId in listings {
        var stored := listings[item.listingId];
        listings := listings[item.listingId :=
          item.(firstSeenAt := Min(stored.firstSeenAt, item.firstSeenAt),
                lastSeenAt := Max(stored.lastSeenAt, item.lastSeenAt))];
      } else {
        listings := listings[item.listingId := item];
      }
      log := log + [SawListing(item)];
      ReplayOne(old(log), SawListing(item));
    }

    method AppendSnapshot(item: ListingSnapshot)
      requires Valid() && item.Valid()
      modifies this
      ensures Valid() && log == old(log) + [SawSnapshot(item)]
      ensures listings == old(listings)
      ensures snapshots == old(snapshots)[(item.listingId, item.snapshotAt) := item]
    {
      snapshots := snapshots[(item.listingId, item.snapshotAt) := item];
      log := log + [SawSnapshot(item)];
      ReplayOne(old(log), SawSnapshot(item));
    }
  }

  lemma {:induction false} ReplayOne(log: seq<Event>, e: Event)
    ensures Replay(log + [e]) == Apply(Replay(log), e)
    ensures ValidLog(log) && e.Valid() ==> ValidLog(log + [e])
  {
    assert (log + [e])[..|log|] == log;
  }

  // ---- One fetch and what it writes ----

  datatype FetchResult = FetchResult(
    observations: seq<ListingObservation>, parseRejections: seq<ParseRejection>, sourceRowCount: nat)
  {
    ghost predicate Valid() {
      && (forall i :: 0 <= i < |observations| ==> observations[i].Valid())
      && |observations| + |parseRejections| <= sourceRowCount
    }
  }

  datatype Fetch = Delivered(result: FetchResult) | Undelivered

  datatype IngestionResult = IngestionResult(
    communityId: Id, sourceRowCount: nat, parsedCount: nat, persistedObservationCount: nat,
    listingIds: seq<Id>, parseRejections: seq<ParseRejection>)

  datatype IngestionOutcome =
    | Ingested(result: IngestionResult)
    | ProviderFetchError(subjectId: Id)
    | ProviderContractError(subjectId: Id, listingId: Id, observedCommunityId: Id)

  /** Identity first, then history, observation by observation. */
  function EventsOf(os: seq<ListingObservation>): seq<Event> {
    if os == [] then []
    else
      var o := os[|os| - 1];
      EventsOf(os[..|os| - 1]) + [SawListing(o.listing), SawSnapshot(o.snapshot)]
  }

  /** The n-th observation is written at places 2n and 2n + 1. */
  lemma {:induction false} EventsInOrder(os: seq<ListingObservation>)
    ensures |EventsOf(os)| == 2 * |os|
    ensures forall i :: 0 <= i < |os| ==>
              EventsOf(os)[2 * i] == SawListing(os[i].listing) && EventsOf(os)[2 * i + 1] == SawSnapshot(os[i].snapshot)
  {
    if os == [] {
    } else {
      var n := |os| - 1;
      EventsInOrder(os[..n]);
      assert forall i :: 0 <= i < n ==> os[..n][i] == os[i];
    }
  }

  predicate AllIn(os: seq<ListingObservation>, c: Id) {
    forall i :: 0 <= i < |os| ==> os[i].listing.communityId == c
  }

  /** What one ingestion adds to the history of writes: everything, or nothing. */
  function Accepted(c: Id, fetch: Fetch): seq<ListingObservation> {
    if fetch.Delivered? && AllIn(fetch.result.observations, c) then fetch.result.observations else []
  }

  function ListingIdsOf(os: seq<ListingObservation>): seq<Id> {
    seq(|os|, i requires 0 <= i < |os| => os[i].listing.listingId)
  }

  /** `ids` without repeats, each id where it first occurred. */
  ghost predicate FirstOccurrences(r: seq<Id>, ids: seq<Id>) {
    && Distinct(r) && Elements(r) == Elements(ids)
    && forall i, j :: 0 <= i < j < |r| ==> FirstBefore(ids, r[i], r[j])
  }

  ghost predicate FirstBefore(ids: seq<Id>, a: Id, b: Id) {
    exists p :: 0 <= p < |ids| && ids[p] == a && b !in ids[..p]
  }

  lemma FirstBeforeMore(ids: seq<Id>, more: seq<Id>, a: Id, b: Id)
    requires FirstBefore(ids, a, b)
    ensures FirstBefore(ids + more, a, b)
  {
    var p :| 0 <= p < |ids| && ids[p] == a && b !in ids[..p];
    assert (ids + more)[..p] == ids[..p];
  }

  lemma FirstOccurrencesStep(r: seq<Id>, ids: seq<Id>, id: Id)
    requires FirstOccurrences(r, ids)
    ensures FirstOccurrences(if id in r then r else r + [id], ids + [id])
  {
    var r', ids' := if id in r then r else r + [id], ids + [id];
    assert forall x :: x in r <==> x in Elements(r);
    assert forall x :: x in ids <==> x in Elements(ids);
    assert Elements(ids') == Elements(ids) + {id};
    assert Elements(r') == Elements(r) + {id};
    forall i, j | 0 <= i < j < |r'| ensures FirstBefore(ids', r'[i], r'[j]) {
      if j < |r| {
        FirstBeforeMore(ids, [id], r[i], r[j]);
      } else {
        assert r[i] in ids && id !in ids;
        var p :| 0 <= p < |ids| && ids[p] == r[i];
        assert ids'[p] == r'[i] && ids'[..p] == ids[..p];
      }
    }
  }

  lemma BatchStep(os: seq<ListingObservation>, i: nat)
    requires i < |os|
    ensures EventsOf(os[..i + 1]) == EventsOf(os[..i]) + [SawListing(os[i].listing), SawSnapshot(os[i].snapshot)]
    ensures ListingIdsOf(os[..i + 1]) == ListingIdsOf(os[..i]) + [os[i].listing.listingId]
  {
    assert os[..i + 1][..i] == os[..i];
  }

  /** `stray` is the first observation of another community. */
  ghost predicate FirstStray(os: seq<ListingObservation>, c: Id, listingId: Id, communityId: Id) {
    exists n :: 0 <= n < |os| && AllIn(os[..n], c) && os[n].listing.listingId == listingId
                && os[n].listing.communityId == communityId != c
  }

  method RequireRequestedCommunity(c: Id, observations: seq<ListingObservation>) returns (stray: Option<Listing>)
    ensures stray.None? <==> AllIn(observations, c)
    ensures stray.Some? ==> FirstStray(observations, c, stray.value.listingId, stray.value.communityId)
  {
    for i := 0 to |observations|
      invariant AllIn(observations[..i], c)
    {
      if observations[i].listing.communityId != c {
        return Some(observations[i].listing);
      }
    }
    return None;
  }

  /** The outcome a caller gets for one fetch. */
  ghost predicate Reports(outcome: IngestionOutcome, c: Id, fetch: Fetch) {
    match outcome
    case ProviderFetchError(subject) => fetch.Undelivered? && subject == c
    case ProviderContractError(subject, listingId, observed) =>
      fetch.Delivered? && subject == c && FirstStray(fetch.result.observations, c, listingId, observed)
    case Ingested(r) =>
      && fetch.Delivered? && AllIn(fetch.result.observations, c)
      && r.communityId == c && r.sourceRowCount == fetch.result.sourceRowCount
      && r.parsedCount == r.persistedObservationCount == |fetch.result.observations|
      && r.parseRejections == fetch.result.parseRejections
      && r.sourceRowCount >= r.parsedCount + |r.parseRejections|
      && FirstOccurrences(r.listingIds, ListingIdsOf(fetch.result.observations))
  }

  /** After `i` observations: their writes follow `before`, their distinct ids are listed. */
  ghost predicate Ingesting(log: seq<Event>, before: seq<Event>, listingIds: seq<Id>,
                            observations: seq<ListingObservation>, i: nat) {
    && i <= |observations| && log == before + EventsOf(observations[..i])
    && FirstOccurrences(listingIds, ListingIdsOf(observations[..i]))
  }

  lemma IngestStep(log: seq<Event>, before: seq<Event>, listingIds: seq<Id>,
                   observations: seq<ListingObservation>, i: nat)
    requires Ingesting(log, before, listingIds, observations, i) && i < |observations|
    ensures var o := observations[i];
            var id := o.listing.listingId;
            Ingesting(log + [SawListing(o.listing)] + [SawSnapshot(o.snapshot)], before,
                      if id in listingIds then listingIds else listingIds + [id], observations, i + 1)
  {
    BatchStep(observations, i);
    FirstOccurrencesStep(listingIds, ListingIdsOf(observations[..i]), observations[i].listing.listingId);
  }

  /** One ingestion: either the whole batch is written in order, or nothing is. */
  method Ingest(repository: ListingRepository, c: Id, fetch: Fetch) returns (outcome: IngestionOutcome)
    requires repository.Valid() && (fetch.Delivered? ==> fetch.result.Valid())
    modifies repository
    ensures repository.Valid()
    ensures repository.log == old(repository.log) + EventsOf(Accepted(c, fetch))
    ensures outcome.Ingested? <==>
            fetch.Delivered? && forall i :: 0 <= i < |fetch.result.observations| ==>
              fetch.result.observations[i].listing.communityId == c
    ensures outcome.Ingested? ==>
              repository.log == old(repository.log) + EventsOf(fetch.result.observations)
    ensures !outcome.Ingested? ==>
              repository.log == old(repository.log) && repository.Contents() == old(repository.Contents())
    ensures Reports(outcome, c, fetch)
  {
    assert repository.log + EventsOf([]) == repository.log;
    if fetch.Undelivered? {
      return ProviderFetchError(c);
    }
    var observations := fetch.result.observations;
    var stray := RequireRequestedCommunity(c, observations);
    if stray.Some? {
      return ProviderContractError(c, stray.value.listingId, stray.value.communityId);
    }
    var listingIds: seq<Id> := [];
    var persistedCount := 0;
    ghost var before := repository.log;
    for i := 0 to |observations|
      invariant repository.Valid() && persistedCount == i
      invariant Ingesting(repository.log, before, listingIds, observations, i)
    {
      var observation := observations[i];
      IngestStep(repository.log, before, listingIds, observations, i);
      repository.UpsertListing(observation.listing);
      repository.AppendSnapshot(observation.snapshot);
      persistedCount := persistedCount + 1;
      if observation.listing.listingId !in listingIds {
        listingIds := listingIds + [observation.listing.listingId];
      }
    }
    assert observations[..|observations|] == observations;
    outcome := Ingested(IngestionResult(c, fetch.result.sourceRowCount, |observations|, persistedCount,
                                        listingIds, fetch.result.parseRejections));
  }
}
