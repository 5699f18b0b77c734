/** What the listing metrics of an accepted call say about the supplied records
    (analytics/listing_metrics.py). */
module AcceptedMetrics {
  import opened Text
  import opened Orders
  import opened Sequences
  import opened Ratios
  import opened Statistics
  import opened Domain
  import opened ListingStore
  import opened ListingReads
  import opened ListingMetrics
  import opened ListingAccounting

  // ---- The supplied snapshots, without any history ----

  function ObservedIn(snapshots: set<ListingSnapshot>): set<Id> {
    set s | s in snapshots :: s.listingId
  }

  function InstantsIn(snapshots: set<ListingSnapshot>): set<Instant> {
    set s | s in snapshots :: s.snapshotAt
  }

  ghost predicate IsEarliest(s: ListingSnapshot, snapshots: set<ListingSnapshot>) {
    s in snapshots && forall x :: x in snapshots && x.listingId == s.listingId ==> s.snapshotAt <= x.snapshotAt
  }

  ghost predicate IsLatest(s: ListingSnapshot, snapshots: set<ListingSnapshot>) {
    s in snapshots && forall x :: x in snapshots && x.listingId == s.listingId ==> x.snapshotAt <= s.snapshotAt
  }

  ghost function LatestIn(snapshots: set<ListingSnapshot>): set<ListingSnapshot> {
    set s | s in snapshots && IsLatest(s, snapshots)
  }

  ghost function StatusIds(snapshots: set<ListingSnapshot>, status: ListingStatus): set<Id> {
    set s | s in snapshots && IsLatest(s, snapshots) && s.status == status :: s.listingId
  }

  /** The first and the last observation of a listing seen at two instants or more. */
  ghost predicate Ends(id: Id, first: ListingSnapshot, last: ListingSnapshot, snapshots: set<ListingSnapshot>) {
    && first.listingId == id && last.listingId == id && first.snapshotAt < last.snapshotAt
    && IsEarliest(first, snapshots) && IsLatest(last, snapshots)
  }

  /** The listings observed at two instants or more, and how their last asking price compares with their first. */
  ghost function MovedIds(snapshots: set<ListingSnapshot>, move: (real, real) -> bool): set<Id> {
    set first, last | first in snapshots && last in snapshots && Ends(first.listingId, first, last, snapshots)
                      && move(first.listPriceCny, last.listPriceCny) :: first.listingId
  }

  const ANY_MOVE := (first: real, last: real) => true
  const CUT := (first: real, last: real) => last < first
  const RAISED := (first: real, last: real) => last > first
  const UNMOVED := (first: real, last: real) => last == first

  // ---- One listing's history against the supplied snapshots ----

  lemma SuppliedWellKeyed(snapshots: set<ListingSnapshot>)
    requires AllValid(snapshots) && Agreeing(snapshots)
    ensures WellKeyed(EvidenceOf(snapshots))
    ensures ObservedIds(EvidenceOf(snapshots)) == ObservedIn(snapshots)
    ensures EvidenceOf(snapshots).Keys == set s | s in snapshots :: s.Key()
  {
    var obs := EvidenceOf(snapshots);
    forall id ensures id in ObservedIds(obs) <==> id in ObservedIn(snapshots) {
      if id in ObservedIds(obs) {
        var k :| k in obs && k.0 == id;
        assert obs[k] in snapshots && obs[k].listingId == id;
      }
      if id in ObservedIn(snapshots) {
        var s :| s in snapshots && s.listingId == id;
        assert s.Key() in obs && s.Key().0 == id;
      }
    }
  }

  lemma EntrySupplied(snapshots: set<ListingSnapshot>, id: Id, i: nat)
    requires AllValid(snapshots) && Agreeing(snapshots) && i < |HistoryIn(EvidenceOf(snapshots), id)|
    ensures var s := HistoryIn(EvidenceOf(snapshots), id)[i]; s in snapshots && s.listingId == id
  {
    SuppliedWellKeyed(snapshots);
    HistoryEntry(Tables(map[], EvidenceOf(snapshots)), id, i);
  }

  lemma SuppliedEntry(snapshots: set<ListingSnapshot>, s: ListingSnapshot) returns (i: nat)
    requires AllValid(snapshots) && Agreeing(snapshots) && s in snapshots
    ensures i < |HistoryIn(EvidenceOf(snapshots), s.listingId)|
    ensures HistoryIn(EvidenceOf(snapshots), s.listingId)[i] == s
  {
    var t := Tables(map[], EvidenceOf(snapshots));
    SuppliedWellKeyed(snapshots);
    RecordsStored(t, s.listingId, s.snapshotAt);
    var h := History(t, s.listingId);
    i :| 0 <= i < |h| && h[i].snapshotAt == s.snapshotAt;
    HistoryEntry(t, s.listingId, i);
  }

  lemma HistoryOrdered(snapshots: set<ListingSnapshot>, id: Id)
    requires AllValid(snapshots) && Agreeing(snapshots)
    ensures var h := HistoryIn(EvidenceOf(snapshots), id);
            forall i, j :: 0 <= i < j < |h| ==> h[i].snapshotAt < h[j].snapshotAt
  {
    SuppliedWellKeyed(snapshots);
    HistoryAscending(Tables(map[], EvidenceOf(snapshots)), id);
  }

  lemma HistoryMembers(snapshots: set<ListingSnapshot>, id: Id)
    requires AllValid(snapshots) && Agreeing(snapshots)
    ensures var h := HistoryIn(EvidenceOf(snapshots), id);
            && (forall i :: 0 <= i < |h| ==> h[i] in snapshots && h[i].listingId == id)
            && (forall x :: x in snapshots && x.listingId == id ==> x in h)
  {
    var h := HistoryIn(EvidenceOf(snapshots), id);
    forall i | 0 <= i < |h| ensures h[i] in snapshots && h[i].listingId == id {
      EntrySupplied(snapshots, id, i);
    }
    forall x | x in snapshots && x.listingId == id ensures x in h {
      var i := SuppliedEntry(snapshots, x);
    }
  }

  lemma EndsOfOrdered(h: seq<ListingSnapshot>, snapshots: set<ListingSnapshot>, id: Id)
    requires h != [] && forall i, j :: 0 <= i < j < |h| ==> h[i].snapshotAt < h[j].snapshotAt
    requires forall i :: 0 <= i < |h| ==> h[i] in snapshots && h[i].listingId == id
    requires forall x :: x in snapshots && x.listingId == id ==> x in h
    ensures IsEarliest(h[0], snapshots) && IsLatest(h[|h| - 1], snapshots)
    ensures |h| > 1 <==> h[0].snapshotAt < h[|h| - 1].snapshotAt
  {
    forall x | x in snapshots && x.listingId == id ensures h[0].snapshotAt <= x.snapshotAt <= h[|h| - 1].snapshotAt {
      var i :| 0 <= i < |h| && h[i] == x;
    }
  }

  /** A history runs from the earliest to the latest supplied observation of its listing. */
  lemma HistoryEnds(snapshots: set<ListingSnapshot>, id: Id)
    requires AllValid(snapshots) && Agreeing(snapshots) && HistoryIn(EvidenceOf(snapshots), id) != []
    ensures var h := HistoryIn(EvidenceOf(snapshots), id);
            && h[0].listingId == id && IsEarliest(h[0], snapshots)
            && h[|h| - 1].listingId == id && IsLatest(h[|h| - 1], snapshots)
            && (|h| > 1 <==> h[0].snapshotAt < h[|h| - 1].snapshotAt)
  {
    HistoryOrdered(snapshots, id);
    HistoryMembers(snapshots, id);
    EndsOfOrdered(HistoryIn(EvidenceOf(snapshots), id), snapshots, id);
  }

  lemma LatestUnique(a: ListingSnapshot, b: ListingSnapshot, snapshots: set<ListingSnapshot>)
    requires Agreeing(snapshots) && a.listingId == b.listingId
    ensures IsLatest(a, snapshots) && IsLatest(b, snapshots) ==> a == b
    ensures IsEarliest(a, snapshots) && IsEarliest(b, snapshots) ==> a == b
  {
    assert a.Key() == b.Key() <==> a.snapshotAt == b.snapshotAt;
  }

  lemma MovedExactly(snapshots: set<ListingSnapshot>, id: Id, move: (real, real) -> bool)
    requires AllValid(snapshots) && Agreeing(snapshots) && HistoryIn(EvidenceOf(snapshots), id) != []
    ensures var h := HistoryIn(EvidenceOf(snapshots), id);
            id in MovedIds(snapshots, move) <==> |h| > 1 && move(h[0].listPriceCny, h[|h| - 1].listPriceCny)
  {
    var h := HistoryIn(EvidenceOf(snapshots), id);
    HistoryEnds(snapshots, id);
    if |h| > 1 && move(h[0].listPriceCny, h[|h| - 1].listPriceCny) {
      assert Ends(h[0].listingId, h[0], h[|h| - 1], snapshots);
    }
    if id in MovedIds(snapshots, move) {
      var first, last :| first in snapshots && last in snapshots && Ends(first.listingId, first, last, snapshots)
                         && move(first.listPriceCny, last.listPriceCny) && first.listingId == id;
      LatestUnique(first, h[0], snapshots);
      LatestUnique(last, h[|h| - 1], snapshots);
    }
  }

  lemma StatusExactly(snapshots: set<ListingSnapshot>, id: Id, status: ListingStatus)
    requires AllValid(snapshots) && Agreeing(snapshots) && HistoryIn(EvidenceOf(snapshots), id) != []
    ensures var h := HistoryIn(EvidenceOf(snapshots), id);
            id in StatusIds(snapshots, status) <==> h[|h| - 1].status == status
  {
    var h := HistoryIn(EvidenceOf(snapshots), id);
    HistoryEnds(snapshots, id);
    if id in StatusIds(snapshots, status) {
      var s :| s in snapshots && IsLatest(s, snapshots) && s.status == status && s.listingId == id;
      LatestUnique(s, h[|h| - 1], snapshots);
    }
  }

  // ---- Counting over all listings ----

  lemma ObservedHistories(snapshots: set<ListingSnapshot>, i: nat)
    requires AllValid(snapshots) && Agreeing(snapshots)
    requires i < |SortedIds(ObservedIds(EvidenceOf(snapshots)))|
    ensures var obs := EvidenceOf(snapshots);
            var id := SortedIds(ObservedIds(obs))[i];
            HistoryIn(obs, id) != [] && OrderedHistories(obs)[i] == HistoryIn(obs, id)
  {
    var ids := SortedIds(ObservedIds(EvidenceOf(snapshots)));
    SuppliedWellKeyed(snapshots);
    assert ids[i] in Elements(ids);
    ObservedHistory(EvidenceOf(snapshots), ids[i]);
  }

  lemma {:induction false} CountChosen<X>(p: X -> bool, rows: seq<X>, ids: seq<Id>, chosen: set<Id>)
    requires |rows| == |ids| && Distinct(ids) && chosen <= Elements(ids)
    requires forall i :: 0 <= i < |rows| ==> (p(rows[i]) <==> ids[i] in chosen)
    ensures Count(p, rows) == |chosen|
  {
    var q := (id: Id) => id in chosen;
    CountIndexed(p, q, rows, ids);
    assert Select(Elements(ids), q) == chosen;
  }

  /** Counting histories is counting the listings they belong to. */
  lemma CountHistories(snapshots: set<ListingSnapshot>, p: seq<ListingSnapshot> -> bool, chosen: set<Id>)
    requires AllValid(snapshots) && Agreeing(snapshots) && chosen <= ObservedIn(snapshots)
    requires forall id :: HistoryIn(EvidenceOf(snapshots), id) != [] ==>
               (p(HistoryIn(EvidenceOf(snapshots), id)) <==> id in chosen)
    ensures Count(p, OrderedHistories(EvidenceOf(snapshots))) == |chosen|
  {
    var obs := EvidenceOf(snapshots);
    var hs, ids := OrderedHistories(obs), SortedIds(ObservedIds(obs));
    SuppliedWellKeyed(snapshots);
    forall i | 0 <= i < |hs| ensures p(hs[i]) <==> ids[i] in chosen {
      ObservedHistories(snapshots, i);
    }
    CountChosen(p, hs, ids, chosen);
  }

  lemma MovedObserved(snapshots: set<ListingSnapshot>, move: (real, real) -> bool)
    ensures MovedIds(snapshots, move) <= ObservedIn(snapshots)
  {
  }

  lemma CountMoved(snapshots: set<ListingSnapshot>, p: seq<ListingSnapshot> -> bool, move: (real, real) -> bool)
    requires AllValid(snapshots) && Agreeing(snapshots)
    requires forall h: seq<ListingSnapshot> :: h != [] && h[0].listPriceCny > 0.0 ==>
               (p(h) <==> |h| > 1 && move(h[0].listPriceCny, h[|h| - 1].listPriceCny))
    ensures Count(p, OrderedHistories(EvidenceOf(snapshots))) == |MovedIds(snapshots, move)|
  {
    forall id | HistoryIn(EvidenceOf(snapshots), id) != []
      ensures p(HistoryIn(EvidenceOf(snapshots), id)) <==> id in MovedIds(snapshots, move)
    {
      EntrySupplied(snapshots, id, 0);
      MovedExactly(snapshots, id, move);
    }
    MovedObserved(snapshots, move);
    CountHistories(snapshots, p, MovedIds(snapshots, move));
  }

  lemma LatestAt(snapshots: set<ListingSnapshot>, i: nat)
    requires AllValid(snapshots) && Agreeing(snapshots) && AllPriced(OrderedHistories(EvidenceOf(snapshots)))
    requires i < |Latest(OrderedHistories(EvidenceOf(snapshots)))|
    ensures var s := Latest(OrderedHistories(EvidenceOf(snapshots)))[i];
            && s.listingId == SortedIds(ObservedIds(EvidenceOf(snapshots)))[i] && IsLatest(s, snapshots)
  {
    ObservedHistories(snapshots, i);
    HistoryEnds(snapshots, SortedIds(ObservedIds(EvidenceOf(snapshots)))[i]);
  }

  lemma LatestListed(snapshots: set<ListingSnapshot>, s: ListingSnapshot)
    requires AllValid(snapshots) && Agreeing(snapshots) && AllPriced(OrderedHistories(EvidenceOf(snapshots)))
    requires IsLatest(s, snapshots)
    ensures s in Latest(OrderedHistories(EvidenceOf(snapshots)))
  {
    var latest := Latest(OrderedHistories(EvidenceOf(snapshots)));
    var ids := SortedIds(ObservedIds(EvidenceOf(snapshots)));
    SuppliedWellKeyed(snapshots);
    assert s.listingId in Elements(ids);
    var i :| 0 <= i < |ids| && ids[i] == s.listingId;
    LatestAt(snapshots, i);
    LatestUnique(s, latest[i], snapshots);
  }

  lemma LatestExactly(snapshots: set<ListingSnapshot>, s: ListingSnapshot)
    requires AllValid(snapshots) && Agreeing(snapshots) && AllPriced(OrderedHistories(EvidenceOf(snapshots)))
    ensures s in Latest(OrderedHistories(EvidenceOf(snapshots))) <==> s in LatestIn(snapshots)
  {
    var latest := Latest(OrderedHistories(EvidenceOf(snapshots)));
    if s in latest {
      var i :| 0 <= i < |latest| && latest[i] == s;
      LatestAt(snapshots, i);
    }
    if s in LatestIn(snapshots) {
      LatestListed(snapshots, s);
    }
  }

  lemma DistinctByListing(rows: seq<ListingSnapshot>, ids: seq<Id>)
    requires |rows| == |ids| && Distinct(ids) && forall i :: 0 <= i < |rows| ==> rows[i].listingId == ids[i]
    ensures Distinct(rows)
  {
  }

  lemma LatestDistinct(snapshots: set<ListingSnapshot>)
    requires AllValid(snapshots) && Agreeing(snapshots) && AllPriced(OrderedHistories(EvidenceOf(snapshots)))
    ensures Distinct(Latest(OrderedHistories(EvidenceOf(snapshots))))
  {
    var latest := Latest(OrderedHistories(EvidenceOf(snapshots)));
    var ids := SortedIds(ObservedIds(EvidenceOf(snapshots)));
    forall i | 0 <= i < |latest| ensures latest[i].listingId == ids[i] {
      LatestAt(snapshots, i);
    }
    DistinctByListing(latest, ids);
  }

  /** The metrics' latest observations are the latest supplied ones, one per observed listing. */
  lemma LatestSupplied(snapshots: set<ListingSnapshot>)
    requires AllValid(snapshots) && Agreeing(snapshots) && AllPriced(OrderedHistories(EvidenceOf(snapshots)))
    ensures var latest := Latest(OrderedHistories(EvidenceOf(snapshots)));
            Distinct(latest) && Elements(latest) == LatestIn(snapshots)
  {
    LatestDistinct(snapshots);
    var latest := Latest(OrderedHistories(EvidenceOf(snapshots)));
    forall s ensures s in latest <==> s in LatestIn(snapshots) {
      LatestExactly(snapshots, s);
    }
    ElementsAre(latest, LatestIn(snapshots));
  }

  lemma LatestStatus(snapshots: set<ListingSnapshot>, i: nat, status: ListingStatus)
    requires AllValid(snapshots) && Agreeing(snapshots) && AllPriced(OrderedHistories(EvidenceOf(snapshots)))
    requires i < |Latest(OrderedHistories(EvidenceOf(snapshots)))|
    ensures Latest(OrderedHistories(EvidenceOf(snapshots)))[i].status == status
            <==> SortedIds(ObservedIds(EvidenceOf(snapshots)))[i] in StatusIds(snapshots, status)
  {
    ObservedHistories(snapshots, i);
    StatusExactly(snapshots, SortedIds(ObservedIds(EvidenceOf(snapshots)))[i], status);
  }

  lemma LatestStatuses(snapshots: set<ListingSnapshot>, status: ListingStatus)
    requires AllValid(snapshots) && Agreeing(snapshots) && AllPriced(OrderedHistories(EvidenceOf(snapshots)))
    ensures var latest := Latest(OrderedHistories(EvidenceOf(snapshots)));
            var ids := SortedIds(ObservedIds(EvidenceOf(snapshots)));
            && |latest| == |ids|
            && forall i :: 0 <= i < |latest| ==>
                 (latest[i].status == status <==> ids[i] in StatusIds(snapshots, status))
  {
    var latest := Latest(OrderedHistories(EvidenceOf(snapshots)));
    var ids := SortedIds(ObservedIds(EvidenceOf(snapshots)));
    forall i | 0 <= i < |latest| ensures latest[i].status == status <==> ids[i] in StatusIds(snapshots, status) {
      LatestStatus(snapshots, i, status);
    }
  }

  lemma CountStatusChosen(rows: seq<ListingSnapshot>, ids: seq<Id>, status: ListingStatus, chosen: set<Id>)
    requires |rows| == |ids| && Distinct(ids) && chosen <= Elements(ids)
    requires forall i :: 0 <= i < |rows| ==> (rows[i].status == status <==> ids[i] in chosen)
    ensures CountStatus(status, rows) == |chosen|
  {
    CountChosen((s: ListingSnapshot) => s.status == status, rows, ids, chosen);
  }

  lemma StatusObserved(snapshots: set<ListingSnapshot>, status: ListingStatus)
    ensures StatusIds(snapshots, status) <= ObservedIn(snapshots)
  {
  }

  lemma CountLatest(snapshots: set<ListingSnapshot>, status: ListingStatus)
    requires AllValid(snapshots) && Agreeing(snapshots) && AllPriced(OrderedHistories(EvidenceOf(snapshots)))
    ensures CountStatus(status, Latest(OrderedHistories(EvidenceOf(snapshots)))) == |StatusIds(snapshots, status)|
  {
    var latest := Latest(OrderedHistories(EvidenceOf(snapshots)));
    var ids := SortedIds(ObservedIds(EvidenceOf(snapshots)));
    var chosen := StatusIds(snapshots, status);
    SuppliedWellKeyed(snapshots);
    StatusObserved(snapshots, status);
    LatestStatuses(snapshots, status);
    CountStatusChosen(latest, ids, status, chosen);
  }

  // ---- What an accepted call computed ----

  /** What acceptance grants: every snapshot belongs to a supplied listing and no two disagree. */
  lemma Granted(listings: multiset<Listing>, snapshots: set<ListingSnapshot>, c: Id, minimum: int)
    requires AllValid(snapshots) && Assess(listings, snapshots, c, minimum).Computed?
    ensures minimum >= 1 && RepeatedIn(listings) == {}
    ensures Agreeing(snapshots) && ObservedIn(snapshots) <= IdsIn(listings)
    ensures AllPriced(OrderedHistories(EvidenceOf(snapshots)))
    ensures Assess(listings, snapshots, c, minimum).value ==
            Summary(c, minimum, IdsIn(listings), OrderedHistories(EvidenceOf(snapshots)))
  {
    NoConflictsAgree(snapshots, IdsIn(listings));
    SuppliedWellKeyed(snapshots);
    HistoriesPriced(EvidenceOf(snapshots));
    forall s | s in snapshots ensures s.listingId in IdsIn(listings) {
      assert s.listingId !in UnknownIn(snapshots, IdsIn(listings));
    }
  }

  lemma RestUnique(rest: multiset<Listing>, l: Listing)
    requires RepeatedIn(rest + multiset{l}) == {}
    ensures RepeatedIn(rest) == {} && l.listingId !in IdsIn(rest)
    ensures |IdsIn(rest + multiset{l})| == |IdsIn(rest)| + 1
  {
    RepeatedGrows(rest, l);
    MultisetGrows(rest, l, l.communityId);
    assert l.listingId !in RepeatedIn(rest + multiset{l});
  }

  lemma {:induction false} UniqueIds(listings: multiset<Listing>)
    requires RepeatedIn(listings) == {}
    ensures |IdsIn(listings)| == |listings|
    decreases |listings|
  {
    if listings == multiset{} {
      assert IdsIn(listings) == {};
    } else {
      var l :| l in listings;
      var rest := listings - multiset{l};
      assert listings == rest + multiset{l};
      RestUnique(rest, l);
      UniqueIds(rest);
    }
  }

  /** Inventory of an accepted call: every supplied listing and every distinct observation is counted once. */
  lemma AcceptedInventory(listings: multiset<Listing>, snapshots: set<ListingSnapshot>, c: Id, minimum: int)
    requires AllValid(snapshots) && Assess(listings, snapshots, c, minimum).Computed?
    ensures var m := Assess(listings, snapshots, c, minimum).value;
            && m.listingCount == |listings|
            && m.snapshotCount == |set s | s in snapshots :: (s.listingId, s.snapshotAt)|
            && m.observedListingCount == |ObservedIn(snapshots)|
            && m.identityOnlyListingCount == |IdsIn(listings) - ObservedIn(snapshots)|
            && m.observedListingCount + m.identityOnlyListingCount == m.listingCount
            && m.snapshotCount >= m.observedListingCount + m.repricingObservableCount
  {
    Granted(listings, snapshots, c, minimum);
    SuppliedWellKeyed(snapshots);
    UniqueIds(listings);
    InventoryAddsUp(c, minimum, IdsIn(listings), EvidenceOf(snapshots));
    ObservationsCounted(snapshots);
  }

  lemma ObservationsCounted(snapshots: set<ListingSnapshot>)
    requires AllValid(snapshots) && Agreeing(snapshots)
    ensures |EvidenceOf(snapshots)| == |set s | s in snapshots :: (s.listingId, s.snapshotAt)|
  {
    assert EvidenceOf(snapshots).Keys == set s | s in snapshots :: (s.listingId, s.snapshotAt);
    assert |EvidenceOf(snapshots)| == |EvidenceOf(snapshots).Keys|;
  }

  lemma SummaryNames(c: Id, minimum: int, ids: set<Id>, hs: seq<seq<ListingSnapshot>>)
    requires minimum >= 1 && AllPriced(hs)
    ensures var m := Summary(c, minimum, ids, hs);
            && m.communityId == c && m.minimumSampleCount == minimum
            && Sorted(StrLe, m.listingIds) && Distinct(m.listingIds) && forall id :: id in m.listingIds <==> id in ids
  {
    assert forall id :: id in SortedIds(ids) <==> id in Elements(SortedIds(ids));
  }

  /** An accepted call names its community and minimum, and lists the supplied identifiers in order, each once. */
  lemma AcceptedNames(listings: multiset<Listing>, snapshots: set<ListingSnapshot>, c: Id, minimum: int)
    requires AllValid(snapshots) && Assess(listings, snapshots, c, minimum).Computed?
    ensures var m := Assess(listings, snapshots, c, minimum).value;
            && m.communityId == c && m.minimumSampleCount == minimum
            && Sorted(StrLe, m.listingIds) && Distinct(m.listingIds)
            && (forall id :: id in m.listingIds <==> exists l :: l in listings && l.listingId == id)
  {
    Granted(listings, snapshots, c, minimum);
    SummaryNames(c, minimum, IdsIn(listings), OrderedHistories(EvidenceOf(snapshots)));
  }

  /** Repricing of an accepted call: the listings seen at two instants or more, split by whether the last asking
      price is below, above or equal to the first; the cut share is their exact proportion. */
  lemma AcceptedRepricing(listings: multiset<Listing>, snapshots: set<ListingSnapshot>, c: Id, minimum: int)
    requires AllValid(snapshots) && Assess(listings, snapshots, c, minimum).Computed?
    ensures var m := Assess(listings, snapshots, c, minimum).value;
            && m.repricingObservableCount == |MovedIds(snapshots, ANY_MOVE)|
            && m.priceCutCount == |MovedIds(snapshots, CUT)|
            && m.priceIncreaseCount == |MovedIds(snapshots, RAISED)|
            && m.unchangedPriceCount == |MovedIds(snapshots, UNMOVED)|
            && (m.priceCutShare.Some? <==> MovedIds(snapshots, ANY_MOVE) != {})
            && (m.priceCutShare.Some? ==>
                  && m.priceCutShare.value == m.priceCutCount as real / m.repricingObservableCount as real
                  && 0.0 <= m.priceCutShare.value <= 1.0)
  {
    Granted(listings, snapshots, c, minimum);
    var hs := OrderedHistories(EvidenceOf(snapshots));
    RepricingSplits(c, minimum, IdsIn(listings), hs);
    CutShare(c, minimum, IdsIn(listings), hs);
    CountMoved(snapshots, Repriced, ANY_MOVE);
    CountMoved(snapshots, PriceCut, CUT);
    CountMoved(snapshots, PriceRaised, RAISED);
    CountMoved(snapshots, PriceUnmoved, UNMOVED);
  }

  /** The supplied snapshots, one listing after another, each listing's in time order. */
  ghost predicate Chronicles(hs: seq<seq<ListingSnapshot>>, snapshots: set<ListingSnapshot>) {
    && (forall i, j :: 0 <= i < |hs| && 0 <= j < |hs[i]| ==>
          hs[i][j] in snapshots && hs[i][j].listingId == hs[i][0].listingId)
    && (forall i, j, k :: 0 <= i < |hs| && 0 <= j < k < |hs[i]| ==> hs[i][j].snapshotAt < hs[i][k].snapshotAt)
    && (forall i :: 0 <= i < |hs| ==> hs[i] != [])
    && (forall i, j :: 0 <= i < j < |hs| && hs[i] != [] && hs[j] != [] ==> hs[i][0].listingId != hs[j][0].listingId)
    && (forall s :: s in snapshots ==> exists i :: 0 <= i < |hs| && s in hs[i])
  }

  /** One of the supplied histories. */
  lemma SuppliedChronicle(snapshots: set<ListingSnapshot>, i: nat)
    requires AllValid(snapshots) && Agreeing(snapshots) && i < |OrderedHistories(EvidenceOf(snapshots))|
    ensures var h := OrderedHistories(EvidenceOf(snapshots))[i];
            var id := SortedIds(ObservedIds(EvidenceOf(snapshots)))[i];
            && h != [] && (forall j :: 0 <= j < |h| ==> h[j] in snapshots && h[j].listingId == id)
            && (forall j, k :: 0 <= j < k < |h| ==> h[j].snapshotAt < h[k].snapshotAt)
            && (forall s :: s in snapshots && s.listingId == id ==> s in h)
  {
    var id := SortedIds(ObservedIds(EvidenceOf(snapshots)))[i];
    ObservedHistories(snapshots, i);
    HistoryOrdered(snapshots, id);
    HistoryMembers(snapshots, id);
  }

  lemma ChroniclesFrom(hs: seq<seq<ListingSnapshot>>, ids: seq<Id>, snapshots: set<ListingSnapshot>)
    requires |hs| == |ids| && Distinct(ids) && Elements(ids) == ObservedIn(snapshots)
    requires forall i :: 0 <= i < |hs| ==> hs[i] != []
    requires forall i, j :: 0 <= i < |hs| && 0 <= j < |hs[i]| ==> hs[i][j] in snapshots && hs[i][j].listingId == ids[i]
    requires forall i, j, k :: 0 <= i < |hs| && 0 <= j < k < |hs[i]| ==> hs[i][j].snapshotAt < hs[i][k].snapshotAt
    requires forall i, s :: 0 <= i < |hs| && s in snapshots && s.listingId == ids[i] ==> s in hs[i]
    ensures Chronicles(hs, snapshots)
  {
    forall s | s in snapshots ensures exists i :: 0 <= i < |hs| && s in hs[i] {
      assert s.listingId in Elements(ids);
      var i :| 0 <= i < |ids| && ids[i] == s.listingId;
      assert s in hs[i];
    }
    assert forall i :: 0 <= i < |hs| ==> hs[i][0].listingId == ids[i];
  }

  lemma SuppliedChronicles(snapshots: set<ListingSnapshot>)
    requires AllValid(snapshots) && Agreeing(snapshots)
    ensures Chronicles(OrderedHistories(EvidenceOf(snapshots)), snapshots)
  {
    var hs: seq<seq<ListingSnapshot>> := OrderedHistories(EvidenceOf(snapshots));
    SuppliedWellKeyed(snapshots);
    forall i | 0 <= i < |hs|
      ensures hs[i] != []
      ensures forall j :: 0 <= j < |hs[i]| ==>
                hs[i][j] in snapshots && hs[i][j].listingId == SortedIds(ObservedIds(EvidenceOf(snapshots)))[i]
      ensures forall j, k :: 0 <= j < k < |hs[i]| ==> hs[i][j].snapshotAt < hs[i][k].snapshotAt
      ensures forall s :: s in snapshots && s.listingId == SortedIds(ObservedIds(EvidenceOf(snapshots)))[i] ==> s in hs[i]
    {
      SuppliedChronicle(snapshots, i);
    }
    ChroniclesFrom(hs, SortedIds(ObservedIds(EvidenceOf(snapshots))), snapshots);
  }

  lemma MoveAgainst(h: seq<ListingSnapshot>, v: real)
    requires h != [] && h[0].listPriceCny > 0.0
    ensures RelativeMove(h) <= v <==> h[|h| - 1].listPriceCny - h[0].listPriceCny <= v * h[0].listPriceCny
    ensures RelativeMove(h) >= v <==> h[|h| - 1].listPriceCny - h[0].listPriceCny >= v * h[0].listPriceCny
  {
    QuotientAgainst(h[|h| - 1].listPriceCny - h[0].listPriceCny, h[0].listPriceCny, v);
  }

  /** The move from the first price to the last is at most, or at least, the factor `v`. */
  function MovedAtMost(v: real): (real, real) -> bool {
    (first, last) => last - first <= v * first
  }

  function MovedAtLeast(v: real): (real, real) -> bool {
    (first, last) => last - first >= v * first
  }

  /** Histories whose price moved at most by the factor `v`, counted over the supplied snapshots. */
  lemma CountAtMost(snapshots: set<ListingSnapshot>, v: real)
    requires AllValid(snapshots) && Agreeing(snapshots)
    ensures Count((h: seq<ListingSnapshot>) => Repriced(h) && RelativeMove(h) <= v,
                  OrderedHistories(EvidenceOf(snapshots))) == |MovedIds(snapshots, MovedAtMost(v))|
  {
    forall h: seq<ListingSnapshot> | h != [] && h[0].listPriceCny > 0.0
      ensures RelativeMove(h) <= v <==> MovedAtMost(v)(h[0].listPriceCny, h[|h| - 1].listPriceCny)
    {
      MoveAgainst(h, v);
    }
    CountMoved(snapshots, (h: seq<ListingSnapshot>) => Repriced(h) && RelativeMove(h) <= v, MovedAtMost(v));
  }

  lemma CountAtLeast(snapshots: set<ListingSnapshot>, v: real)
    requires AllValid(snapshots) && Agreeing(snapshots)
    ensures Count((h: seq<ListingSnapshot>) => Repriced(h) && RelativeMove(h) >= v,
                  OrderedHistories(EvidenceOf(snapshots))) == |MovedIds(snapshots, MovedAtLeast(v))|
  {
    forall h: seq<ListingSnapshot> | h != [] && h[0].listPriceCny > 0.0
      ensures RelativeMove(h) >= v <==> MovedAtLeast(v)(h[0].listPriceCny, h[|h| - 1].listPriceCny)
    {
      MoveAgainst(h, v);
    }
    CountMoved(snapshots, (h: seq<ListingSnapshot>) => Repriced(h) && RelativeMove(h) >= v, MovedAtLeast(v));
  }

  /** The halves of the median, counted over the supplied snapshots. */
  lemma AcceptedHalves(snapshots: set<ListingSnapshot>, c: Id, minimum: int, ids: set<Id>, v: real)
    requires minimum >= 1 && AllValid(snapshots) && Agreeing(snapshots)
    requires AllPriced(OrderedHistories(EvidenceOf(snapshots)))
    requires Summary(c, minimum, ids, OrderedHistories(EvidenceOf(snapshots))).medianPriceChangeRatio.value == Some(v)
    ensures var hs := OrderedHistories(EvidenceOf(snapshots));
            var usable := Summary(c, minimum, ids, hs).medianPriceChangeRatio.usableCount;
            2 * |MovedIds(snapshots, MovedAtMost(v))| >= usable && 2 * |MovedIds(snapshots, MovedAtLeast(v))| >= usable
  {
    MoveHalves(c, minimum, ids, OrderedHistories(EvidenceOf(snapshots)), v,
               (h: seq<ListingSnapshot>) => Repriced(h) && RelativeMove(h) <= v,
               (h: seq<ListingSnapshot>) => Repriced(h) && RelativeMove(h) >= v);
    CountAtMost(snapshots, v);
    CountAtLeast(snapshots, v);
  }

  /** The median move of an accepted call: at least half of the repriced listings moved by its factor or less, at
      least half by its factor or more; it is above -1, and follows a strict majority of cuts or increases. */
  lemma AcceptedMedianMove(listings: multiset<Listing>, snapshots: set<ListingSnapshot>, c: Id, minimum: int)
    requires AllValid(snapshots) && Assess(listings, snapshots, c, minimum).Computed?
    ensures var metric := Assess(listings, snapshots, c, minimum).value.medianPriceChangeRatio;
            var repriced := |MovedIds(snapshots, ANY_MOVE)|;
            && metric.usableCount == repriced && (metric.value.Some? <==> repriced >= minimum)
            && (metric.value.Some? ==>
                  var v := metric.value.value;
                  && v > -1.0
                  && 2 * |MovedIds(snapshots, MovedAtMost(v))| >= repriced
                  && 2 * |MovedIds(snapshots, MovedAtLeast(v))| >= repriced
                  && (2 * |MovedIds(snapshots, CUT)| > repriced ==> v < 0.0)
                  && (2 * |MovedIds(snapshots, RAISED)| > repriced ==> v > 0.0))
  {
    AcceptedRepricing(listings, snapshots, c, minimum);
    Granted(listings, snapshots, c, minimum);
    MajorityMovesMedian(c, minimum, IdsIn(listings), OrderedHistories(EvidenceOf(snapshots)));
    var value := Assess(listings, snapshots, c, minimum).value.medianPriceChangeRatio.value;
    if value.Some? {
      var v := value.value;
      AcceptedHalves(snapshots, c, minimum, IdsIn(listings), v);
    }
  }

  /** Last price over first price, less one. */
  function PriceFactor(h: seq<ListingSnapshot>): real {
    if h != [] && h[0].listPriceCny > 0.0 then h[|h| - 1].listPriceCny / h[0].listPriceCny - 1.0 else 0.0
  }

  lemma FactorIsMove(h: seq<ListingSnapshot>)
    ensures PriceFactor(h) == RelativeMove(h)
  {
    if h != [] && h[0].listPriceCny > 0.0 {
      LessOne(h[|h| - 1].listPriceCny, h[0].listPriceCny);
    }
  }

  /** The median move is the exact median of last price over first price, less one, over the listings supplied with
      two instants or more. */
  lemma AcceptedMoveIsMedian(listings: multiset<Listing>, snapshots: set<ListingSnapshot>, c: Id, minimum: int)
    returns (hs: seq<seq<ListingSnapshot>>)
    requires AllValid(snapshots) && Assess(listings, snapshots, c, minimum).Computed?
    ensures Chronicles(hs, snapshots)
    ensures MedianFor(Assess(listings, snapshots, c, minimum).value.medianPriceChangeRatio, minimum, hs,
                      Repriced, PriceFactor)
  {
    Granted(listings, snapshots, c, minimum);
    hs := OrderedHistories(EvidenceOf(snapshots));
    SuppliedChronicles(snapshots);
    ChangesAreMoves(hs);
    forall h ensures PriceFactor(h) == RelativeMove(h) {
      FactorIsMove(h);
    }
    MedianOfField(minimum, hs, Repriced, RelativeMove, Repriced, PriceFactor);
  }

  /** One line of the status tally, left out where nobody is in the status. */
  ghost function StatusLine(snapshots: set<ListingSnapshot>, status: ListingStatus): seq<StatusCount> {
    var n := |set s | s in snapshots && IsLatest(s, snapshots) && s.status == status :: s.listingId|;
    if n > 0 then [StatusCount(status, n)] else []
  }

  lemma {:induction false} StatusLines(snapshots: set<ListingSnapshot>, statuses: seq<ListingStatus>)
    requires AllValid(snapshots) && Agreeing(snapshots) && AllPriced(OrderedHistories(EvidenceOf(snapshots)))
    ensures var latest := Latest(OrderedHistories(EvidenceOf(snapshots)));
            StatusCounts(statuses, latest) ==
            if statuses == [] then [] else StatusLine(snapshots, statuses[0]) + StatusCounts(statuses[1..], latest)
  {
    if statuses != [] {
      CountLatest(snapshots, statuses[0]);
      assert StatusIds(snapshots, statuses[0]) ==
        set s | s in snapshots && IsLatest(s, snapshots) && s.status == statuses[0] :: s.listingId;
    }
  }

  lemma FiveLines(a: seq<StatusCount>, b: seq<StatusCount>, c: seq<StatusCount>, d: seq<StatusCount>,
                  e: seq<StatusCount>)
    ensures a + (b + (c + (d + (e + [])))) == a + b + c + d + e
  {
  }

  lemma WholeTally(snapshots: set<ListingSnapshot>)
    requires AllValid(snapshots) && Agreeing(snapshots) && AllPriced(OrderedHistories(EvidenceOf(snapshots)))
    ensures StatusCounts(STATUSES, Latest(OrderedHistories(EvidenceOf(snapshots)))) ==
            StatusLine(snapshots, ACTIVE) + StatusLine(snapshots, SOLD) + StatusLine(snapshots, WITHDRAWN)
            + StatusLine(snapshots, OFF_MARKET) + StatusLine(snapshots, UNKNOWN)
  {
    StatusLines(snapshots, [ACTIVE, SOLD, WITHDRAWN, OFF_MARKET, UNKNOWN]);
    StatusLines(snapshots, [SOLD, WITHDRAWN, OFF_MARKET, UNKNOWN]);
    StatusLines(snapshots, [WITHDRAWN, OFF_MARKET, UNKNOWN]);
    StatusLines(snapshots, [OFF_MARKET, UNKNOWN]);
    StatusLines(snapshots, [UNKNOWN]);
    StatusLines(snapshots, []);
    assert [ACTIVE, SOLD, WITHDRAWN, OFF_MARKET, UNKNOWN][1..] == [SOLD, WITHDRAWN, OFF_MARKET, UNKNOWN];
    assert [SOLD, WITHDRAWN, OFF_MARKET, UNKNOWN][1..] == [WITHDRAWN, OFF_MARKET, UNKNOWN];
    assert [WITHDRAWN, OFF_MARKET, UNKNOWN][1..] == [OFF_MARKET, UNKNOWN];
    assert [OFF_MARKET, UNKNOWN][1..] == [UNKNOWN];
    assert [UNKNOWN][1..] == [];
    FiveLines(StatusLine(snapshots, ACTIVE), StatusLine(snapshots, SOLD), StatusLine(snapshots, WITHDRAWN),
              StatusLine(snapshots, OFF_MARKET), StatusLine(snapshots, UNKNOWN));
  }

  /** Statuses of an accepted call: in a fixed order, each status somebody is in counts the listings whose latest
      observation has it; together they count every observed listing. */
  lemma AcceptedStatuses(listings: multiset<Listing>, snapshots: set<ListingSnapshot>, c: Id, minimum: int)
    requires AllValid(snapshots) && Assess(listings, snapshots, c, minimum).Computed?
    ensures var m := Assess(listings, snapshots, c, minimum).value;
            && m.currentStatusCounts ==
                 StatusLine(snapshots, ACTIVE) + StatusLine(snapshots, SOLD) + StatusLine(snapshots, WITHDRAWN)
                 + StatusLine(snapshots, OFF_MARKET) + StatusLine(snapshots, UNKNOWN)
            && Tally(m.currentStatusCounts) == |ObservedIn(snapshots)|
            && m.activeListingCount == |StatusIds(snapshots, ACTIVE)|
  {
    Granted(listings, snapshots, c, minimum);
    SuppliedWellKeyed(snapshots);
    StatusesPartition(c, minimum, IdsIn(listings), OrderedHistories(EvidenceOf(snapshots)), ACTIVE);
    CountLatest(snapshots, ACTIVE);
    WholeTally(snapshots);
  }

  lemma SameSources(rows: seq<ListingSnapshot>)
    ensures (set s | s in rows :: s.source) == (set s | s in Elements(rows) :: s.source)
  {
  }

  /** Asking prices of an accepted call: exact medians over the latest observation of each listing, where that is
      ACTIVE, and for the unit price where it also carries one. */
  lemma AcceptedMedians(listings: multiset<Listing>, snapshots: set<ListingSnapshot>, c: Id, minimum: int)
    returns (latest: seq<ListingSnapshot>)
    requires AllValid(snapshots) && Assess(listings, snapshots, c, minimum).Computed?
    ensures Distinct(latest) && forall s :: s in latest <==> s in snapshots && IsLatest(s, snapshots)
    ensures var m := Assess(listings, snapshots, c, minimum).value;
            && MedianFor(m.medianActiveListPriceCny, minimum, latest,
                         (s: ListingSnapshot) => s.status == ACTIVE, (s: ListingSnapshot) => s.listPriceCny)
            && MedianFor(m.medianActiveUnitPriceCnySqm, minimum, latest,
                         (s: ListingSnapshot) => s.status == ACTIVE && s.unitPriceCnySqm.Some?,
                         (s: ListingSnapshot) => if s.unitPriceCnySqm.Some? then s.unitPriceCnySqm.value else 0.0)
  {
    Granted(listings, snapshots, c, minimum);
    latest := Latest(OrderedHistories(EvidenceOf(snapshots)));
    LatestSupplied(snapshots);
    ActivePrices(c, minimum, IdsIn(listings), OrderedHistories(EvidenceOf(snapshots)));
    assert forall s :: s in latest <==> s in Elements(latest);
  }

  /** Provenance of an accepted call: the sources of the latest observations, each once, in order. */
  lemma AcceptedSources(listings: multiset<Listing>, snapshots: set<ListingSnapshot>, c: Id, minimum: int)
    requires AllValid(snapshots) && Assess(listings, snapshots, c, minimum).Computed?
    ensures var sources := Assess(listings, snapshots, c, minimum).value.latestSnapshotSources;
            && Sorted(StrLe, sources) && Distinct(sources)
            && forall source :: source in sources <==>
                 exists s :: s in snapshots && IsLatest(s, snapshots) && s.source == source
  {
    Granted(listings, snapshots, c, minimum);
    var latest := Latest(OrderedHistories(EvidenceOf(snapshots)));
    var sources := Assess(listings, snapshots, c, minimum).value.latestSnapshotSources;
    LatestSupplied(snapshots);
    SameSources(latest);
    assert forall source :: source in sources <==> source in Elements(sources);
  }

  /** Recency of an accepted call: the newest supplied instant. */
  lemma AcceptedRecency(listings: multiset<Listing>, snapshots: set<ListingSnapshot>, c: Id, minimum: int)
    requires AllValid(snapshots) && Assess(listings, snapshots, c, minimum).Computed?
    ensures var at := Assess(listings, snapshots, c, minimum).value.latestSnapshotAt;
            && (at.None? <==> snapshots == {})
            && (at.Some? ==>
                  && (forall s :: s in snapshots ==> s.snapshotAt <= at.value)
                  && (exists s :: s in snapshots && s.snapshotAt == at.value))
  {
    Granted(listings, snapshots, c, minimum);
    SuppliedWellKeyed(snapshots);
    RecencyIsNewest(EvidenceOf(snapshots));
    NothingSupplied(snapshots);
    var at := LatestInstant(Latest(OrderedHistories(EvidenceOf(snapshots))));
    if at.Some? {
      NewestSupplied(snapshots, at.value);
      NewestOf(snapshots, at.value);
    }
  }

  lemma NewestOf(snapshots: set<ListingSnapshot>, at: Instant)
    requires IsMax(at, InstantsIn(snapshots))
    ensures (forall s :: s in snapshots ==> s.snapshotAt <= at) && exists s :: s in snapshots && s.snapshotAt == at
  {
    forall s | s in snapshots ensures s.snapshotAt <= at {
      var y := s.snapshotAt;
      assert y in InstantsIn(snapshots);
    }
  }

  lemma InstantSupplied(snapshots: set<ListingSnapshot>, k: SnapshotKey)
    requires Agreeing(snapshots) && k in EvidenceOf(snapshots)
    ensures k.1 in InstantsIn(snapshots)
  {
    var s := EvidenceOf(snapshots)[k];
    assert s in snapshots && s.snapshotAt == k.1;
  }

  lemma SuppliedInstant(snapshots: set<ListingSnapshot>, s: ListingSnapshot)
    requires Agreeing(snapshots) && s in snapshots
    ensures s.snapshotAt in ObservedInstants(EvidenceOf(snapshots))
  {
    var key := s.Key();
    assert key in EvidenceOf(snapshots) && key.1 == s.snapshotAt;
  }

  /** The newest observed instant is the newest supplied one. */
  lemma NewestSupplied(snapshots: set<ListingSnapshot>, at: Instant)
    requires Agreeing(snapshots) && IsMax(at, ObservedInstants(EvidenceOf(snapshots)))
    ensures IsMax(at, InstantsIn(snapshots))
  {
    var k :| k in EvidenceOf(snapshots) && k.1 == at;
    InstantSupplied(snapshots, k);
    forall s | s in snapshots ensures s.snapshotAt <= at {
      SuppliedInstant(snapshots, s);
      var y := s.snapshotAt;
      assert y in ObservedInstants(EvidenceOf(snapshots));
    }
  }

  lemma NothingSupplied(snapshots: set<ListingSnapshot>)
    requires Agreeing(snapshots)
    ensures EvidenceOf(snapshots) == map[] <==> snapshots == {}
  {
    if snapshots != {} {
      var s :| s in snapshots;
      assert s.Key() in EvidenceOf(snapshots);
    } else {
      assert EvidenceOf(snapshots).Keys == {};
    }
  }
}
