/** What the counts and medians of the listing metrics mean. */
module ListingAccounting {
  import opened Text
  import opened Orders
  import opened Sequences
  import opened Ratios
  import opened Statistics
  import opened Domain
  import opened ListingStore
  import opened ListingReads
  import opened ListingMetrics

  // ---- Snapshots ----

  function KeysFor(obs: Evidence, id: Id): set<SnapshotKey> {
    set k | k in obs && k.0 == id
  }

  lemma HistoryLength(obs: Evidence, id: Id)
    ensures |HistoryIn(obs, id)| == |KeysFor(obs, id)|
  {
    var t := Tables(map[], obs);
    var ks := KeysOf(id, SortedInts(Instants(t, id)));
    BlockKeys(t, id);
    DistinctCardinality(ks);
    assert Elements(ks) == KeysFor(obs, id);
  }

  function KeysAmong(obs: Evidence, ids: seq<Id>): set<SnapshotKey> {
    set k | k in obs && k.0 in ids
  }

  lemma KeysSplit(obs: Evidence, ids: seq<Id>)
    requires Distinct(ids) && ids != []
    ensures |KeysAmong(obs, ids)| == |KeysFor(obs, ids[0])| + |KeysAmong(obs, ids[1..])|
  {
    assert forall id :: id in ids <==> id == ids[0] || id in ids[1..];
    assert KeysAmong(obs, ids) == KeysFor(obs, ids[0]) + KeysAmong(obs, ids[1..]);
    assert ids[0] !in ids[1..];
    assert KeysFor(obs, ids[0]) !! KeysAmong(obs, ids[1..]);
  }

  lemma {:induction false} SumOfHistories(obs: Evidence, ids: seq<Id>)
    requires Distinct(ids)
    ensures SumLengths(HistoriesFor(obs, ids)) == |KeysAmong(obs, ids)|
  {
    if ids == [] {
      assert KeysAmong(obs, ids) == {};
    } else {
      SumOfHistories(obs, ids[1..]);
      HistoryLength(obs, ids[0]);
      KeysSplit(obs, ids);
      assert HistoriesFor(obs, ids)[1..] == HistoriesFor(obs, ids[1..]);
    }
  }

  /** `snapshot_count` is the number of distinct (listing, instant) pairs. */
  lemma SnapshotsCounted(obs: Evidence)
    ensures SumLengths(OrderedHistories(obs)) == |obs|
  {
    var ids := SortedIds(ObservedIds(obs));
    SumOfHistories(obs, ids);
    assert KeysAmong(obs, ids) == obs.Keys by {
      forall k | k in obs ensures k.0 in ids {
        assert k.0 in Elements(ids);
      }
    }
  }

  // ---- Repricing ----

  predicate Repriced(h: seq<ListingSnapshot>) { |h| > 1 }

  predicate PriceCut(h: seq<ListingSnapshot>) { |h| > 1 && h[|h| - 1].listPriceCny < h[0].listPriceCny }

  predicate PriceRaised(h: seq<ListingSnapshot>) { |h| > 1 && h[|h| - 1].listPriceCny > h[0].listPriceCny }

  predicate PriceUnmoved(h: seq<ListingSnapshot>) { |h| > 1 && h[|h| - 1].listPriceCny == h[0].listPriceCny }

  lemma RatioSign(h: seq<ListingSnapshot>)
    requires Priced(h)
    ensures PriceChangeRatio(h) > -1.0
    ensures PriceChangeRatio(h) < 0.0 <==> h[|h| - 1].listPriceCny < h[0].listPriceCny
    ensures PriceChangeRatio(h) > 0.0 <==> h[|h| - 1].listPriceCny > h[0].listPriceCny
  {
    var a, b := h[0].listPriceCny, h[|h| - 1].listPriceCny;
    assert h[0] in h && h[|h| - 1] in h;
    QuotientSign(b - a, a);
    QuotientAboveMinusOne(b - a, a);
  }

  lemma {:induction false} ChangesCounted(hs: seq<seq<ListingSnapshot>>)
    requires AllPriced(hs)
    ensures |Changes(hs)| == Count(Repriced, hs)
    ensures Count(IsCut, Changes(hs)) == Count(PriceCut, hs)
    ensures Count(IsIncrease, Changes(hs)) == Count(PriceRaised, hs)
    ensures forall r :: r in Changes(hs) ==> r > -1.0
  {
    if hs == [] {
    } else {
      assert AllPriced(hs[1..]);
      ChangesCounted(hs[1..]);
      RatioSign(hs[0]);
      if |hs[0]| > 1 {
        assert ([PriceChangeRatio(hs[0])] + Changes(hs[1..]))[1..] == Changes(hs[1..]);
      } else {
        assert [] + Changes(hs[1..]) == Changes(hs[1..]);
      }
    }
  }

  /** The relative move of a history's price, zero where there is none. */
  function RelativeMove(h: seq<ListingSnapshot>): real {
    if h != [] && h[0].listPriceCny > 0.0
    then (h[|h| - 1].listPriceCny - h[0].listPriceCny) / h[0].listPriceCny
    else 0.0
  }

  lemma {:induction false} ChangesAreMoves(hs: seq<seq<ListingSnapshot>>)
    requires AllPriced(hs)
    ensures Changes(hs) == Map(RelativeMove, Filter(Repriced, hs))
  {
    if hs == [] {
    } else {
      assert AllPriced(hs[1..]);
      ChangesAreMoves(hs[1..]);
      RatioIsMove(hs[0]);
      MapConditionally(RelativeMove, hs[0], |hs[0]| > 1, Filter(Repriced, hs[1..]));
    }
  }

  lemma RatioIsMove(h: seq<ListingSnapshot>)
    requires Priced(h)
    ensures RelativeMove(h) == PriceChangeRatio(h)
  {
    assert h[0] in h;
  }

  lemma {:induction false} MapConditionally<T, U>(f: T -> U, x: T, kept: bool, rest: seq<T>)
    ensures Map(f, (if kept then [x] else []) + rest) == (if kept then [f(x)] else []) + Map(f, rest)
  {
    Empty(rest);
    Empty(Map(f, rest));
    assert ([x] + rest)[1..] == rest;
  }

  /** The reported median move is the median of the relative moves of the repriced histories. */
  lemma MedianMoveFor(c: Id, minimum: int, ids: set<Id>, hs: seq<seq<ListingSnapshot>>)
    requires minimum >= 1 && AllPriced(hs)
    ensures MedianFor(Summary(c, minimum, ids, hs).medianPriceChangeRatio, minimum, hs, Repriced, RelativeMove)
  {
    ChangesAreMoves(hs);
    MedianOfKept(minimum, hs, Repriced, RelativeMove);
  }

  lemma {:induction false} MoveHalves(c: Id, minimum: int, ids: set<Id>, hs: seq<seq<ListingSnapshot>>, v: real,
                   below: seq<ListingSnapshot> -> bool, above: seq<ListingSnapshot> -> bool)
    requires minimum >= 1 && AllPriced(hs)
    requires Summary(c, minimum, ids, hs).medianPriceChangeRatio.value == Some(v)
    requires forall h :: below(h) <==> Repriced(h) && RelativeMove(h) <= v
    requires forall h :: above(h) <==> Repriced(h) && RelativeMove(h) >= v
    ensures var metric := Summary(c, minimum, ids, hs).medianPriceChangeRatio;
            2 * Count(below, hs) >= metric.usableCount && 2 * Count(above, hs) >= metric.usableCount
  {
    MedianMoveFor(c, minimum, ids, hs);
    HalvesOf(Summary(c, minimum, ids, hs).medianPriceChangeRatio, minimum, hs, Repriced, RelativeMove, below, above);
  }

  lemma {:induction false} ChangesSplit(hs: seq<seq<ListingSnapshot>>)
    requires AllPriced(hs)
    ensures |Changes(hs)| - Count(IsCut, Changes(hs)) - Count(IsIncrease, Changes(hs)) == Count(PriceUnmoved, hs)
  {
    ChangesCounted(hs);
    var moved := (h: seq<ListingSnapshot>) => PriceCut(h) || PriceRaised(h);
    CountSplit(moved, PriceCut, PriceRaised, hs);
    CountSplit(Repriced, moved, PriceUnmoved, hs);
  }

  /** Repricing splits exactly into listings whose last price is below, above or equal to their first. */
  lemma {:induction false} RepricingSplits(c: Id, minimum: int, ids: set<Id>, hs: seq<seq<ListingSnapshot>>)
    requires minimum >= 1 && AllPriced(hs)
    ensures var m := Summary(c, minimum, ids, hs);
            && m.repricingObservableCount == Count(Repriced, hs)
            && m.priceCutCount == Count(PriceCut, hs)
            && m.priceIncreaseCount == Count(PriceRaised, hs)
            && m.unchangedPriceCount == Count(PriceUnmoved, hs)
  {
    ChangesCounted(hs);
    ChangesSplit(hs);
  }

  /** The cut share is present exactly when something was repriced, and is then the exact
      proportion of cuts, between zero and one. */
  lemma CutShare(c: Id, minimum: int, ids: set<Id>, hs: seq<seq<ListingSnapshot>>)
    requires minimum >= 1 && AllPriced(hs)
    ensures var m := Summary(c, minimum, ids, hs);
            && (m.priceCutShare.Some? <==> m.repricingObservableCount > 0)
            && (m.priceCutShare.Some? ==>
                  && m.priceCutShare.value == Share(m.priceCutCount, m.repricingObservableCount)
                  && 0.0 <= m.priceCutShare.value <= 1.0)
  {
    if Changes(hs) != [] {
      ShareRange(Count(IsCut, Changes(hs)), |Changes(hs)|);
    }
  }

  lemma ShareRange(part: nat, whole: nat)
    requires 0 < whole && part <= whole
    ensures 0.0 <= Share(part, whole) <= 1.0
    ensures Share(part, whole) * whole as real == part as real
  {
    var share, w := Share(part, whole), whole as real;
    assert 0.0 <= part as real <= w;
    QuotientSign(part as real, w);
    assert share < 0.0 <==> part as real < 0.0;
    assert 0.0 <= share;
    assert share * w == part as real;
    SignProduct(share - 1.0, w);
    assert (share - 1.0) * w == share * w - w;
  }

  /** The reported median move is above -1; a strict majority of cuts makes it negative,
      a strict majority of increases positive. */
  lemma MajorityMovesMedian(c: Id, minimum: int, ids: set<Id>, hs: seq<seq<ListingSnapshot>>)
    requires minimum >= 1 && AllPriced(hs)
    ensures var m := Summary(c, minimum, ids, hs);
            m.medianPriceChangeRatio.value.Some? ==>
              && m.medianPriceChangeRatio.value.value > -1.0
              && (2 * m.priceCutCount > m.repricingObservableCount ==> m.medianPriceChangeRatio.value.value < 0.0)
              && (2 * m.priceIncreaseCount > m.repricingObservableCount ==> m.medianPriceChangeRatio.value.value > 0.0)
  {
    ChangesCounted(hs);
    var changes := Changes(hs);
    if changes != [] {
      MedianAbove(changes, -1.0);
      CountSplit(IsCut, (v: real) => v < 0.0, (v: real) => false, changes);
      CountSplit(IsIncrease, (v: real) => v > 0.0, (v: real) => false, changes);
      CountNone((v: real) => false, changes);
      if 2 * Count(IsCut, changes) > |changes| {
        MajorityBelow(changes, 0.0);
      }
      if 2 * Count(IsIncrease, changes) > |changes| {
        MajorityAbove(changes, 0.0);
      }
    }
  }

  // ---- Status tally ----

  function Tally(counts: seq<StatusCount>): nat {
    if counts == [] then 0 else counts[0].count + Tally(counts[1..])
  }

  /** current_status_count: the reported tally, zero for a status nobody is in. */
  function CurrentStatusCount(counts: seq<StatusCount>, status: ListingStatus): nat {
    if counts == [] then 0
    else if counts[0].status == status then counts[0].count
    else CurrentStatusCount(counts[1..], status)
  }

  function Among(statuses: seq<ListingStatus>): ListingSnapshot -> bool {
    (s: ListingSnapshot) => s.status in statuses
  }

  lemma {:induction false} ConsTally(first: StatusCount, rest: seq<StatusCount>, status: ListingStatus)
    ensures Tally([first] + rest) == first.count + Tally(rest)
    ensures CurrentStatusCount([first] + rest, status) ==
            if first.status == status then first.count else CurrentStatusCount(rest, status)
  {
    assert ([first] + rest)[1..] == rest;
  }

  lemma {:induction false} TallyTotal(statuses: seq<ListingStatus>, latest: seq<ListingSnapshot>)
    requires Distinct(statuses)
    ensures Tally(StatusCounts(statuses, latest)) == Count(Among(statuses), latest)
  {
    if statuses == [] {
      CountNone(Among(statuses), latest);
    } else {
      var rest := StatusCounts(statuses[1..], latest);
      TallyTotal(statuses[1..], latest);
      assert statuses[0] !in statuses[1..];
      CountSplit(Among(statuses), (s: ListingSnapshot) => s.status == statuses[0], Among(statuses[1..]), latest);
      ConsTally(StatusCount(statuses[0], CountStatus(statuses[0], latest)), rest, ACTIVE);
      assert [] + rest == rest;
    }
  }

  lemma {:induction false} TallyCons(statuses: seq<ListingStatus>, latest: seq<ListingSnapshot>, status: ListingStatus)
    requires statuses != []
    ensures var n := CountStatus(statuses[0], latest);
            CurrentStatusCount(StatusCounts(statuses, latest), status) ==
            if n > 0 && status == statuses[0] then n
            else CurrentStatusCount(StatusCounts(statuses[1..], latest), status)
  {
    var rest := StatusCounts(statuses[1..], latest);
    ConsTally(StatusCount(statuses[0], CountStatus(statuses[0], latest)), rest, status);
    Empty(rest);
  }

  lemma {:induction false} TallyEach(statuses: seq<ListingStatus>, latest: seq<ListingSnapshot>, status: ListingStatus)
    requires Distinct(statuses)
    ensures CurrentStatusCount(StatusCounts(statuses, latest), status) ==
            if status in statuses then CountStatus(status, latest) else 0
  {
    if statuses == [] {
    } else {
      TallyEach(statuses[1..], latest, status);
      TallyCons(statuses, latest, status);
      assert statuses[0] !in statuses[1..];
      assert status in statuses <==> status == statuses[0] || status in statuses[1..];
    }
  }

  lemma {:induction false} TallyPositive(statuses: seq<ListingStatus>, latest: seq<ListingSnapshot>)
    ensures forall i :: 0 <= i < |StatusCounts(statuses, latest)| ==> StatusCounts(statuses, latest)[i].count > 0
  {
    if statuses == [] {
    } else {
      TallyPositive(statuses[1..], latest);
    }
  }

  lemma EveryStatus(status: ListingStatus)
    ensures status in STATUSES
  {
    assert STATUSES[0] == ACTIVE && STATUSES[1] == SOLD && STATUSES[2] == WITHDRAWN
           && STATUSES[3] == OFF_MARKET && STATUSES[4] == UNKNOWN;
  }

  lemma {:induction false} StatusTally(latest: seq<ListingSnapshot>, status: ListingStatus)
    ensures Tally(StatusCounts(STATUSES, latest)) == |latest|
    ensures CurrentStatusCount(StatusCounts(STATUSES, latest), status) == CountStatus(status, latest)
    ensures |Filter(IsActive, latest)| == CountStatus(ACTIVE, latest)
  {
    EveryStatus(status);
    TallyTotal(STATUSES, latest);
    TallyEach(STATUSES, latest, status);
    forall s | s in latest ensures Among(STATUSES)(s) { EveryStatus(s.status); }
    CountAll(Among(STATUSES), latest);
    FilterCount(IsActive, latest);
    CountSplit(IsActive, (s: ListingSnapshot) => s.status == ACTIVE, (s: ListingSnapshot) => false, latest);
    CountNone((s: ListingSnapshot) => false, latest);
  }

  /** Status counts partition the observed listings by the status of their latest observation. */
  lemma {:induction false} StatusesPartition(c: Id, minimum: int, ids: set<Id>, hs: seq<seq<ListingSnapshot>>,
                                            status: ListingStatus)
    requires minimum >= 1 && AllPriced(hs)
    ensures var m := Summary(c, minimum, ids, hs);
            && Tally(m.currentStatusCounts) == m.observedListingCount
            && CurrentStatusCount(m.currentStatusCounts, status) == CountStatus(status, Latest(hs))
            && (forall i :: 0 <= i < |m.currentStatusCounts| ==> m.currentStatusCounts[i].count > 0)
            && m.activeListingCount == CountStatus(ACTIVE, Latest(hs))
            && m.medianActiveListPriceCny.usableCount == m.activeListingCount
            && m.medianActiveUnitPriceCnySqm.usableCount <= m.activeListingCount
  {
    StatusTally(Latest(hs), status);
    TallyPositive(STATUSES, Latest(hs));
  }

  predicate ActivelyQuoted(s: ListingSnapshot) { IsActive(s) && HasUnitPrice(s) }

  /** The asking-price medians are those of the listings whose latest observation is ACTIVE, the unit-price one of
      those that also carry a unit price. */
  lemma ActivePrices(c: Id, minimum: int, ids: set<Id>, hs: seq<seq<ListingSnapshot>>)
    requires minimum >= 1 && AllPriced(hs)
    ensures var m := Summary(c, minimum, ids, hs);
            && MedianFor(m.medianActiveListPriceCny, minimum, Latest(hs),
                         (s: ListingSnapshot) => s.status == ACTIVE, (s: ListingSnapshot) => s.listPriceCny)
            && MedianFor(m.medianActiveUnitPriceCnySqm, minimum, Latest(hs),
                         (s: ListingSnapshot) => s.status == ACTIVE && s.unitPriceCnySqm.Some?,
                         (s: ListingSnapshot) => if s.unitPriceCnySqm.Some? then s.unitPriceCnySqm.value else 0.0)
  {
    FilterTwice(HasUnitPrice, IsActive, ActivelyQuoted, Latest(hs));
    MedianOfField(minimum, Latest(hs), IsActive, ListPrice,
                  (s: ListingSnapshot) => s.status == ACTIVE, (s: ListingSnapshot) => s.listPriceCny);
    MedianOfField(minimum, Latest(hs), ActivelyQuoted, UnitPrice,
                  (s: ListingSnapshot) => s.status == ACTIVE && s.unitPriceCnySqm.Some?,
                  (s: ListingSnapshot) => if s.unitPriceCnySqm.Some? then s.unitPriceCnySqm.value else 0.0);
  }

  // ---- Inventory ----

  lemma {:induction false} RepricedAtLeastTwo(hs: seq<seq<ListingSnapshot>>)
    requires AllPriced(hs)
    ensures SumLengths(hs) >= |hs| + Count(Repriced, hs)
  {
    if hs == [] {
    } else {
      assert AllPriced(hs[1..]);
      RepricedAtLeastTwo(hs[1..]);
    }
  }

  /** Inventory adds up: distinct observations, observed and identity-only listings, repricing evidence. */
  lemma InventoryAddsUp(c: Id, minimum: int, ids: set<Id>, obs: Evidence)
    requires minimum >= 1 && WellKeyed(obs) && ObservedIds(obs) <= ids
    requires AllPriced(OrderedHistories(obs))
    ensures var m := Summary(c, minimum, ids, OrderedHistories(obs));
            && m.listingCount == |ids|
            && m.snapshotCount == |obs|
            && m.observedListingCount == |ObservedIds(obs)|
            && m.identityOnlyListingCount == |ids - ObservedIds(obs)|
            && m.observedListingCount + m.identityOnlyListingCount == m.listingCount
            && m.snapshotCount >= m.observedListingCount + m.repricingObservableCount
            && Elements(m.listingIds) == ids && Distinct(m.listingIds)
  {
    var hs := OrderedHistories(obs);
    SnapshotsCounted(obs);
    ChangesCounted(hs);
    RepricedAtLeastTwo(hs);
    RestCardinality(ids, ObservedIds(obs));
  }

  lemma RestCardinality(all: set<Id>, part: set<Id>)
    requires part <= all
    ensures |all| == |all - part| + |part|
  {
    assert all == (all - part) + part;
  }

  function Times(latest: seq<ListingSnapshot>): set<Instant> {
    set s | s in latest :: s.snapshotAt
  }

  lemma {:induction false} LatestInstantIsMax(latest: seq<ListingSnapshot>)
    ensures LatestInstant(latest).None? <==> latest == []
    ensures latest != [] ==> IsMax(LatestInstant(latest).value, Times(latest))
  {
    if latest == [] {
    } else {
      LatestInstantIsMax(latest[1..]);
      assert latest == [latest[0]] + latest[1..];
      assert Times(latest) == {latest[0].snapshotAt} + Times(latest[1..]);
      assert latest[1..] == [] ==> Times(latest[1..]) == {};
    }
  }

  lemma EndsLast(h: seq<ListingSnapshot>, at: Instant)
    requires Records(h, at) && forall i, j :: 0 <= i < j < |h| ==> h[i].snapshotAt < h[j].snapshotAt
    ensures h != [] && at <= h[|h| - 1].snapshotAt
  {
  }

  lemma HistoryEndsLast(obs: Evidence, k: SnapshotKey)
    requires WellKeyed(obs) && k in obs
    ensures var h := HistoryIn(obs, k.0); h != [] && k.1 <= h[|h| - 1].snapshotAt
  {
    InstantRecorded(obs, k);
    HistoryAscending(Tables(map[], obs), k.0);
    EndsLast(HistoryIn(obs, k.0), k.1);
  }

  lemma InstantRecorded(obs: Evidence, k: SnapshotKey)
    requires WellKeyed(obs) && k in obs
    ensures Records(HistoryIn(obs, k.0), k.1)
  {
    assert k == (k.0, k.1);
    RecordsStored(Tables(map[], obs), k.0, k.1);
  }

  lemma HistoryInEntry(obs: Evidence, id: Id, i: nat)
    requires WellKeyed(obs) && i < |HistoryIn(obs, id)|
    ensures HistoryIn(obs, id)[i].Key() in obs
  {
    HistoryEntry(Tables(map[], obs), id, i);
  }

  lemma LatestOf(obs: Evidence, i: nat)
    requires WellKeyed(obs) && AllPriced(OrderedHistories(obs)) && i < |OrderedHistories(obs)|
    ensures Latest(OrderedHistories(obs))[i].Key() in obs
  {
    var h := OrderedHistories(obs)[i];
    assert h == HistoryIn(obs, SortedIds(ObservedIds(obs))[i]);
    HistoryInEntry(obs, SortedIds(ObservedIds(obs))[i], |h| - 1);
  }

  lemma CoveredByLatest(obs: Evidence, k: SnapshotKey) returns (i: nat)
    requires WellKeyed(obs) && AllPriced(OrderedHistories(obs)) && k in obs
    ensures i < |Latest(OrderedHistories(obs))| && k.1 <= Latest(OrderedHistories(obs))[i].snapshotAt
  {
    var order := SortedIds(ObservedIds(obs));
    assert k.0 in Elements(order);
    i :| 0 <= i < |order| && order[i] == k.0;
    HistoryEndsLast(obs, k);
    assert OrderedHistories(obs)[i] == HistoryIn(obs, k.0);
  }

  lemma NewestIsMax(obs: Evidence, at: Instant, k: SnapshotKey)
    requires k in obs && k.1 == at && forall k' :: k' in obs ==> k'.1 <= at
    ensures IsMax(at, ObservedInstants(obs))
  {
  }

  /** `latest_snapshot_at` bounds every observation of the evidence and is one of them. */
  lemma RecencyIsNewest(obs: Evidence)
    requires WellKeyed(obs) && AllPriced(OrderedHistories(obs))
    ensures var at := LatestInstant(Latest(OrderedHistories(obs)));
            && (at.None? <==> obs == map[])
            && (at.Some? ==> IsMax(at.value, ObservedInstants(obs)))
  {
    var latest := Latest(OrderedHistories(obs));
    var at := LatestInstant(latest);
    LatestInstantIsMax(latest);
    forall k | k in obs ensures at.Some? && k.1 <= at.value {
      var i := CoveredByLatest(obs, k);
      assert latest[i].snapshotAt in Times(latest);
    }
    if at.Some? {
      var i :| 0 <= i < |latest| && latest[i].snapshotAt == at.value;
      LatestOf(obs, i);
      NewestIsMax(obs, at.value, latest[i].Key());
    }
  }
}
