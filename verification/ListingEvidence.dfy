/** Where the store meets the metrics: what is read back always satisfies the analytics'
    demands, and the metrics depend on the delivered observations alone
    (services/community_evidence.py, services/listing_query.py). */
module ListingEvidence {
  import opened Text
  import opened Orders
  import opened Sequences
  import opened Domain
  import opened ListingStore
  import opened ListingReads
  import opened ListingIngestion
  import opened ListingRuns
  import opened ListingMetrics
  import opened ListingAccounting

  /** The stored observations of one community's listings. */
  function StoredObservations(t: Tables, c: Id): Evidence {
    map k | k in JoinedKeys(t, c) :: t.snapshots[k]
  }

  // ---- The identity query ----

  function RecencyKeys(t: Tables, c: Id): set<(int, Id)> {
    set id | id in CommunityIds(t, c) :: (-t.listings[id].lastSeenAt, id)
  }

  lemma RecencyKey(t: Tables, c: Id, k: (int, Id))
    ensures k in RecencyKeys(t, c) <==> k.1 in CommunityIds(t, c) && k.0 == -t.listings[k.1].lastSeenAt
  {
    if k.1 in CommunityIds(t, c) && k.0 == -t.listings[k.1].lastSeenAt {
      assert k == (-t.listings[k.1].lastSeenAt, k.1);
    }
  }

  function ListedIds(t: Tables, c: Id): seq<Id> {
    Ids(SortedRecency(RecencyKeys(t, c)))
  }

  lemma ListedRow(t: Tables, c: Id, i: nat)
    requires WellKept(t) && i < |ListForCommunity(t, c)|
    ensures |ListedIds(t, c)| == |ListForCommunity(t, c)|
    ensures var id := ListedIds(t, c)[i];
            && id in CommunityIds(t, c) && ListForCommunity(t, c)[i] == t.listings[id]
            && ListForCommunity(t, c)[i].listingId == id && ListForCommunity(t, c)[i].communityId == c
  {
    var recency := SortedRecency(RecencyKeys(t, c));
    assert recency[i] in Elements(recency);
    RecencyKey(t, c, recency[i]);
  }

  lemma ListedIdsDistinct(t: Tables, c: Id)
    ensures Distinct(ListedIds(t, c))
  {
    var recency := SortedRecency(RecencyKeys(t, c));
    var ids := ListedIds(t, c);
    forall i, j | 0 <= i < j < |ids| ensures ids[i] != ids[j] {
      assert recency[i] in Elements(recency) && recency[j] in Elements(recency);
      RecencyKey(t, c, recency[i]);
      RecencyKey(t, c, recency[j]);
      assert recency[i] != recency[j];
    }
  }

  lemma ListedId(t: Tables, c: Id, id: Id)
    ensures id in ListedIds(t, c) <==> id in CommunityIds(t, c)
  {
    var recency := SortedRecency(RecencyKeys(t, c));
    var ids := ListedIds(t, c);
    if id in ids {
      var i :| 0 <= i < |ids| && ids[i] == id;
      assert recency[i] in Elements(recency);
      RecencyKey(t, c, recency[i]);
    }
    if id in CommunityIds(t, c) {
      var k := (-t.listings[id].lastSeenAt, id);
      assert k in Elements(recency);
      var i :| 0 <= i < |recency| && recency[i] == k;
      assert ids[i] == id;
    }
  }

  lemma ListedIdsExact(t: Tables, c: Id)
    ensures Distinct(ListedIds(t, c)) && Elements(ListedIds(t, c)) == CommunityIds(t, c)
  {
    ListedIdsDistinct(t, c);
    forall id ensures id in ListedIds(t, c) <==> id in CommunityIds(t, c) {
      ListedId(t, c, id);
    }
  }

  /** Most recently seen first, ties in id order: a total order, so repeated reads agree. */
  lemma ListedByRecency(t: Tables, c: Id, i: nat, j: nat)
    requires WellKept(t) && i < j < |ListForCommunity(t, c)|
    ensures var a, b := ListForCommunity(t, c)[i], ListForCommunity(t, c)[j];
            a.lastSeenAt > b.lastSeenAt
            || (a.lastSeenAt == b.lastSeenAt && a.listingId != b.listingId && StrLe(a.listingId, b.listingId))
  {
    var recency := SortedRecency(RecencyKeys(t, c));
    assert recency[i] in Elements(recency) && recency[j] in Elements(recency);
    RecencyKey(t, c, recency[i]);
    RecencyKey(t, c, recency[j]);
    assert IntStrLe(recency[i], recency[j]) && recency[i] != recency[j];
  }

  lemma DistinctRows(rows: seq<Listing>, ids: seq<Id>)
    requires |rows| == |ids| && Distinct(ids) && forall i :: 0 <= i < |rows| ==> rows[i].listingId == ids[i]
    ensures RepeatedIn(multiset(rows)) == {} && IdsIn(multiset(rows)) == Elements(ids)
  {
    var bag := multiset(rows);
    assert forall l :: l in bag <==> l in rows;
    assert Distinct(rows);
    DistinctMultiset(rows);
    forall l, l' | l in bag && l' in bag && l.listingId == l'.listingId ensures l == l' && bag[l] == 1 {
      var i :| 0 <= i < |rows| && rows[i] == l;
      var j :| 0 <= j < |rows| && rows[j] == l';
      assert ids[i] == ids[j];
    }
    forall id ensures id in IdsIn(bag) <==> id in Elements(ids) {
      if id in ids {
        var i :| 0 <= i < |ids| && ids[i] == id;
        assert rows[i] in bag;
      }
    }
  }

  lemma IdentitiesAccepted(t: Tables, c: Id)
    requires WellKept(t)
    ensures var bag := multiset(ListForCommunity(t, c));
            IdsIn(bag) == CommunityIds(t, c) && ForeignIn(bag, c) == {} && RepeatedIn(bag) == {}
  {
    var rows := ListForCommunity(t, c);
    forall i | 0 <= i < |rows| ensures rows[i].listingId == ListedIds(t, c)[i] && rows[i].communityId == c {
      ListedRow(t, c, i);
    }
    ListedIdsExact(t, c);
    DistinctRows(rows, ListedIds(t, c));
    assert forall l :: l in multiset(rows) <==> l in rows;
  }

  // ---- The history query ----

  lemma HistoryRow(t: Tables, c: Id, i: nat)
    requires WellKept(t) && i < |HistoryForCommunity(t, c)|
    ensures var s := HistoryForCommunity(t, c)[i]; s.Key() in JoinedKeys(t, c) && t.snapshots[s.Key()] == s
  {
    var keys := SortedKeys(JoinedKeys(t, c));
    assert keys[i] in Elements(keys);
  }

  lemma RowInHistory(t: Tables, c: Id, k: SnapshotKey)
    requires k in JoinedKeys(t, c)
    ensures t.snapshots[k] in HistoryForCommunity(t, c)
  {
    var keys := SortedKeys(JoinedKeys(t, c));
    assert k in Elements(keys);
    var i :| 0 <= i < |keys| && keys[i] == k;
    assert HistoryForCommunity(t, c)[i] == t.snapshots[k];
  }

  lemma HistoryElement(t: Tables, c: Id, s: ListingSnapshot)
    requires WellKept(t)
    ensures s in HistoryForCommunity(t, c) <==> s.Key() in JoinedKeys(t, c) && t.snapshots[s.Key()] == s
  {
    var rows := HistoryForCommunity(t, c);
    if s in rows {
      var i :| 0 <= i < |rows| && rows[i] == s;
      HistoryRow(t, c, i);
    }
    if s.Key() in JoinedKeys(t, c) {
      RowInHistory(t, c, s.Key());
    }
  }

  // ---- The reads, in terms of the stored rows ----

  predicate StoredRowOf(t: Tables, l: Listing) {
    l.listingId in t.listings && t.listings[l.listingId] == l
  }

  predicate StoredSnapshot(t: Tables, s: ListingSnapshot) {
    (s.listingId, s.snapshotAt) in t.snapshots && t.snapshots[(s.listingId, s.snapshotAt)] == s
  }

  /** The identity query returns the stored rows of the community, each once. */
  lemma ListedExactly(t: Tables, c: Id, l: Listing)
    requires WellKept(t)
    ensures l in ListForCommunity(t, c) <==> StoredRowOf(t, l) && l.communityId == c
    ensures Distinct(ListForCommunity(t, c))
  {
    var rows, ids := ListForCommunity(t, c), ListedIds(t, c);
    ListedIdsExact(t, c);
    forall i | 0 <= i < |rows|
      ensures |ids| == |rows| && rows[i] == t.listings[ids[i]] && rows[i].listingId == ids[i] && rows[i].communityId == c
      ensures ids[i] in t.listings
    {
      ListedRow(t, c, i);
    }
    if StoredRowOf(t, l) && l.communityId == c {
      assert l.listingId in Elements(ids);
      var i :| 0 <= i < |ids| && ids[i] == l.listingId;
      assert rows[i] == l;
    }
  }

  /** A listing's history holds its stored snapshots and nothing else. */
  lemma HistoryExactly(t: Tables, id: Id, s: ListingSnapshot)
    requires WellKept(t)
    ensures s in History(t, id) <==> StoredSnapshot(t, s) && s.listingId == id
  {
    var h := History(t, id);
    if s in h {
      var i :| 0 <= i < |h| && h[i] == s;
      HistoryEntry(t, id, i);
    }
    if StoredSnapshot(t, s) && s.listingId == id {
      RecordsStored(t, id, s.snapshotAt);
      var i :| 0 <= i < |h| && h[i].snapshotAt == s.snapshotAt;
      HistoryEntry(t, id, i);
    }
  }

  /** The community query returns the stored snapshots of the community's listings, by listing and then by time. */
  lemma CommunityHistoryExactly(t: Tables, c: Id, s: ListingSnapshot)
    requires WellKept(t)
    ensures s in HistoryForCommunity(t, c) <==>
            StoredSnapshot(t, s) && s.listingId in t.listings && t.listings[s.listingId].communityId == c
  {
    HistoryElement(t, c, s);
  }

  lemma CommunityHistoryKey(t: Tables, c: Id, i: nat)
    requires WellKept(t) && i < |HistoryForCommunity(t, c)|
    ensures var s := HistoryForCommunity(t, c)[i]; SortedKeys(JoinedKeys(t, c))[i] == (s.listingId, s.snapshotAt)
  {
    var keys := SortedKeys(JoinedKeys(t, c));
    assert keys[i] in Elements(keys);
    assert t.snapshots[keys[i]].Key() == keys[i];
  }

  /** Its rows come by listing, then strictly by time. */
  lemma CommunityHistoryOrdered(t: Tables, c: Id, i: nat, j: nat)
    requires WellKept(t) && i < j < |HistoryForCommunity(t, c)|
    ensures var a, b := HistoryForCommunity(t, c)[i], HistoryForCommunity(t, c)[j];
            || (a.listingId == b.listingId && a.snapshotAt < b.snapshotAt)
            || (a.listingId != b.listingId && StrLe(a.listingId, b.listingId))
  {
    CommunityHistoryKey(t, c, i);
    CommunityHistoryKey(t, c, j);
    KeyPair(SortedKeys(JoinedKeys(t, c)), i, j);
  }

  lemma KeyPair(keys: seq<SnapshotKey>, i: nat, j: nat)
    requires Sorted(StrIntLe, keys) && Distinct(keys) && i < j < |keys|
    ensures (keys[i].0 == keys[j].0 && keys[i].1 < keys[j].1) || (keys[i].0 != keys[j].0 && StrLe(keys[i].0, keys[j].0))
  {
    var a, b := keys[i], keys[j];
    assert StrIntLe(a, b) && a != b;
  }

  /** The newest stored snapshot of a listing. */
  predicate NewestStored(t: Tables, id: Id, s: ListingSnapshot) {
    StoredSnapshot(t, s) && s.listingId == id
    && forall k :: k in t.snapshots && k.0 == id ==> k.1 <= s.snapshotAt
  }

  /** The current view: the identity rows in their order, each with its newest stored snapshot if it has any. */
  lemma CurrentExactly(t: Tables, c: Id, i: nat)
    requires WellKept(t) && i < |CurrentListings(t, c)|
    ensures var e := CurrentListings(t, c)[i];
            && e.listing == ListForCommunity(t, c)[i]
            && (e.latestSnapshot.None? <==> forall k :: k in t.snapshots ==> k.0 != e.listing.listingId)
            && (e.latestSnapshot.Some? ==> NewestStored(t, e.listing.listingId, e.latestSnapshot.value))
  {
    ListedRow(t, c, i);
    var id := ListForCommunity(t, c)[i].listingId;
    LatestIsLastOfHistory(t, c, id);
    HistoryAscending(t, id);
    LastIsNewest(t, id);
  }

  lemma NotAfterLast(t: Tables, id: Id, at: Instant)
    requires WellKept(t) && (id, at) in t.snapshots
    ensures var h := History(t, id); h != [] && at <= h[|h| - 1].snapshotAt
  {
    RecordsStored(t, id, at);
    HistoryAscending(t, id);
    EndsLast(History(t, id), at);
  }

  lemma LastIsNewest(t: Tables, id: Id)
    requires WellKept(t)
    ensures var h := History(t, id);
            && (h == [] <==> forall k :: k in t.snapshots ==> k.0 != id)
            && (h != [] ==> NewestStored(t, id, h[|h| - 1]))
  {
    var h := History(t, id);
    forall k | k in t.snapshots && k.0 == id ensures h != [] && k.1 <= h[|h| - 1].snapshotAt {
      assert k == (id, k.1);
      NotAfterLast(t, id, k.1);
    }
    if h != [] {
      HistoryEntry(t, id, |h| - 1);
      var k := (id, h[|h| - 1].snapshotAt);
      assert k in t.snapshots && k.0 == id;
    }
  }

  /** `bag` is the community's stored observations. */
  ghost predicate IsStored(bag: set<ListingSnapshot>, t: Tables, c: Id) {
    forall s :: s in bag <==> s.Key() in JoinedKeys(t, c) && t.snapshots[s.Key()] == s
  }

  lemma StoredAccepted(bag: set<ListingSnapshot>, t: Tables, c: Id)
    requires WellKept(t) && IsStored(bag, t, c)
    ensures AllValid(bag) && Agreeing(bag)
    ensures UnknownIn(bag, CommunityIds(t, c)) == {} && ConflictsIn(bag, CommunityIds(t, c)) == {}
  {
  }

  lemma StoredEvidence(bag: set<ListingSnapshot>, t: Tables, c: Id)
    requires WellKept(t) && IsStored(bag, t, c) && Agreeing(bag)
    ensures EvidenceOf(bag) == StoredObservations(t, c)
  {
    var obs := EvidenceOf(bag);
    forall k ensures k in obs <==> k in JoinedKeys(t, c) {
      if k in JoinedKeys(t, c) {
        assert t.snapshots[k].Key() == k;
        assert t.snapshots[k] in bag;
      }
    }
    forall k | k in obs ensures obs[k] == t.snapshots[k] {
      assert obs[k] in bag;
    }
  }

  lemma SnapshotsAccepted(t: Tables, c: Id)
    requires WellKept(t)
    ensures var bag := Elements(HistoryForCommunity(t, c));
            && AllValid(bag) && UnknownIn(bag, CommunityIds(t, c)) == {}
            && ConflictsIn(bag, CommunityIds(t, c)) == {}
            && Agreeing(bag) && EvidenceOf(bag) == StoredObservations(t, c)
  {
    var bag := Elements(HistoryForCommunity(t, c));
    forall s ensures s in bag <==> s.Key() in JoinedKeys(t, c) && t.snapshots[s.Key()] == s {
      HistoryElement(t, c, s);
    }
    StoredAccepted(bag, t, c);
    StoredEvidence(bag, t, c);
  }

  lemma EvidenceWellKeyed(t: Tables, c: Id)
    requires WellKept(t)
    ensures WellKeyed(StoredObservations(t, c)) && AllPriced(OrderedHistories(StoredObservations(t, c)))
    ensures ObservedIds(StoredObservations(t, c)) <= CommunityIds(t, c)
  {
    HistoriesPriced(StoredObservations(t, c));
  }

  /** The metrics a community's stored evidence stands for. */
  function StoredMetrics(t: Tables, c: Id, minimum: int): CommunityListingMetrics
    requires WellKept(t) && minimum >= 1
  {
    EvidenceWellKeyed(t, c);
    Summary(c, minimum, CommunityIds(t, c), OrderedHistories(StoredObservations(t, c)))
  }

  /** On every well-kept store the assembled evidence passes every check of the analytics:
      only a blank subject or a bad minimum is refused. */
  lemma StoredEvidenceAccepted(t: Tables, c: Id, minimum: int)
    requires WellKept(t) && AllValid(Elements(HistoryForCommunity(t, c)))
    ensures var r := Assess(multiset(ListForCommunity(t, c)), Elements(HistoryForCommunity(t, c)), c, minimum);
            if minimum < 1 then r == Invalid(InvalidMinimum)
            else if AllSpace(c) then r == Invalid(BlankCommunity)
            else r == Computed(StoredMetrics(t, c, minimum))
  {
    BlankIsAllSpace(c);
    IdentitiesAccepted(t, c);
    SnapshotsAccepted(t, c);
  }

  // ---- The metrics do not depend on arrival order ----

  lemma SameEvidenceSameMetrics(t1: Tables, t2: Tables, c: Id, minimum: int)
    requires WellKept(t1) && WellKept(t2) && SameEvidence(t1, t2) && minimum >= 1
    ensures StoredMetrics(t1, c, minimum) == StoredMetrics(t2, c, minimum)
  {
    assert CommunityIds(t1, c) == CommunityIds(t2, c);
    assert JoinedKeys(t1, c) == JoinedKeys(t2, c);
    assert StoredObservations(t1, c) == StoredObservations(t2, c);
  }

  /** Any two runs that get the same observations stored give equal metrics for every community,
      under any order, batching or repetition. */
  lemma {:induction false} RunsGiveEqualMetrics(run1: seq<Request>, run2: seq<Request>, c: Id, minimum: int)
    requires Elements(Stored(run1)) == Elements(Stored(run2)) && Consistent(Stored(run1))
    requires forall o :: o in Stored(run1) ==> o.Valid()
    requires minimum >= 1
    ensures var t1, t2 := Replay(EventsOf(Stored(run1))), Replay(EventsOf(Stored(run2)));
            WellKept(t1) && WellKept(t2) && StoredMetrics(t1, c, minimum) == StoredMetrics(t2, c, minimum)
  {
    assert forall o :: o in Stored(run2) <==> o in Elements(Stored(run2));
    assert forall o :: o in Stored(run1) <==> o in Elements(Stored(run1));
    ValidEvents(Stored(run1));
    ValidEvents(Stored(run2));
    ReachableWellKept(EventsOf(Stored(run1)));
    ReachableWellKept(EventsOf(Stored(run2)));
    RunOrderIndependence(run1, run2);
    SameEvidenceSameMetrics(Replay(EventsOf(Stored(run1))), Replay(EventsOf(Stored(run2))), c, minimum);
  }

  // ---- The current view against the metrics ----

  predicate NewestActive(t: Tables, id: Id) {
    var h := History(t, id);
    h != [] && h[|h| - 1].status == ACTIVE
  }

  lemma EvidenceHistory(t: Tables, c: Id, id: Id)
    requires id in CommunityIds(t, c)
    ensures HistoryIn(StoredObservations(t, c), id) == History(t, id)
    ensures id in ObservedIds(StoredObservations(t, c)) <==> History(t, id) != []
  {
    var obs := StoredObservations(t, c);
    SameInstantsSameHistory(Tables(map[], obs), t, id);
    assert History(t, id) == [] <==> Instants(t, id) == {};
    if id in ObservedIds(obs) {
      var k :| k in obs && k.0 == id;
      InstantsExact(t, id, k.1);
      assert k == (id, k.1);
    }
    if Instants(t, id) != {} {
      var at :| at in Instants(t, id);
      InstantsExact(t, id, at);
      assert (id, at) in obs && (id, at).0 == id;
    }
  }

  lemma CurrentEntry(t: Tables, c: Id, ids: seq<Id>, i: nat)
    requires WellKept(t) && i < |ids| == |ListForCommunity(t, c)|
    requires ids[i] in CommunityIds(t, c) && ListForCommunity(t, c)[i].listingId == ids[i]
    ensures var e := CurrentListings(t, c)[i];
            var h := History(t, ids[i]);
            && (e.latestSnapshot.None? <==> h == [])
            && (e.latestSnapshot.Some? && e.latestSnapshot.value.status == ACTIVE <==> NewestActive(t, ids[i]))
  {
    LatestIsLastOfHistory(t, c, ids[i]);
  }

  predicate WithoutSnapshot(e: CurrentListing) { e.latestSnapshot.None? }

  predicate CurrentlyActive(e: CurrentListing) { e.latestSnapshot.Some? && e.latestSnapshot.value.status == ACTIVE }

  function Unobserved(t: Tables): Id -> bool { id => History(t, id) == [] }

  function Active(t: Tables): Id -> bool { id => NewestActive(t, id) }

  lemma CurrentCounts(t: Tables, c: Id)
    requires WellKept(t)
    ensures Count(WithoutSnapshot, CurrentListings(t, c)) == |Select(CommunityIds(t, c), Unobserved(t))|
    ensures Count(CurrentlyActive, CurrentListings(t, c)) == |Select(CommunityIds(t, c), Active(t))|
  {
    var ids, entries := ListedIds(t, c), CurrentListings(t, c);
    ListedIdsExact(t, c);
    assert |ids| == |entries| by { if entries != [] { ListedRow(t, c, 0); } }
    forall i | 0 <= i < |entries|
      ensures WithoutSnapshot(entries[i]) <==> Unobserved(t)(ids[i])
      ensures CurrentlyActive(entries[i]) <==> Active(t)(ids[i])
    {
      ListedRow(t, c, i);
      CurrentEntry(t, c, ids, i);
    }
    CountIndexed(WithoutSnapshot, Unobserved(t), entries, ids);
    CountIndexed(CurrentlyActive, Active(t), entries, ids);
  }

  lemma ObservedActive(t: Tables, c: Id)
    ensures Select(ObservedIds(StoredObservations(t, c)), Active(t)) == Select(CommunityIds(t, c), Active(t))
    ensures CommunityIds(t, c) - ObservedIds(StoredObservations(t, c)) == Select(CommunityIds(t, c), Unobserved(t))
  {
    forall id | id in CommunityIds(t, c)
      ensures id in ObservedIds(StoredObservations(t, c)) <==> History(t, id) != []
    {
      EvidenceHistory(t, c, id);
    }
  }

  lemma LatestActive(t: Tables, c: Id)
    requires WellKept(t) && AllPriced(OrderedHistories(StoredObservations(t, c)))
    ensures CountStatus(ACTIVE, Latest(OrderedHistories(StoredObservations(t, c)))) ==
            |Select(ObservedIds(StoredObservations(t, c)), Active(t))|
  {
    var obs := StoredObservations(t, c);
    var ids, latest := SortedIds(ObservedIds(obs)), Latest(OrderedHistories(obs));
    forall i | 0 <= i < |latest| ensures latest[i].status == ACTIVE <==> Active(t)(ids[i]) {
      assert ids[i] in Elements(ids);
      EvidenceHistory(t, c, ids[i]);
      assert OrderedHistories(obs)[i] == HistoryIn(obs, ids[i]);
    }
    CountIndexed((s: ListingSnapshot) => s.status == ACTIVE, Active(t), latest, ids);
  }

  /** Counting the current view gives the metrics: entries whose newest snapshot is ACTIVE, and entries without one. */
  lemma CurrentViewAgreesWithMetrics(t: Tables, c: Id, minimum: int)
    requires WellKept(t) && minimum >= 1
    ensures var m := StoredMetrics(t, c, minimum);
            && m.activeListingCount == Count(CurrentlyActive, CurrentListings(t, c))
            && m.identityOnlyListingCount == Count(WithoutSnapshot, CurrentListings(t, c))
  {
    EvidenceWellKeyed(t, c);
    CurrentCounts(t, c);
    ObservedActive(t, c);
    LatestActive(t, c);
    StatusesPartition(c, minimum, CommunityIds(t, c), OrderedHistories(StoredObservations(t, c)), ACTIVE);
    InventoryAddsUp(c, minimum, CommunityIds(t, c), StoredObservations(t, c));
  }
}
