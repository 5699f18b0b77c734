/** What whole runs of ingestions guarantee about the stored evidence. */
module ListingRuns {
  import opened Text
  import opened Orders
  import opened Domain
  import opened ListingStore
  import opened ListingReads
  import opened ListingIngestion

  // ---- Replay of one batch ----

  lemma {:induction false} LastOfConcatenation(a: seq<Event>, b: seq<Event>, id: Id, key: SnapshotKey)
    ensures LastListing(a + b, id) == if LastListing(b, id).Some? then LastListing(b, id) else LastListing(a, id)
    ensures LastSnapshot(a + b, key) == if LastSnapshot(b, key).Some? then LastSnapshot(b, key) else LastSnapshot(a, key)
  {
    if b == [] {
      assert a + b == a;
    } else {
      assert (a + b)[..|a + b| - 1] == a + b[..|b| - 1];
      LastOfConcatenation(a, b[..|b| - 1], id, key);
    }
  }

  lemma TwiceSeens(log: seq<Event>, batch: seq<Event>, id: Id)
    ensures FirstSeens(log + batch + batch, id) == FirstSeens(log + batch, id)
    ensures LastSeens(log + batch + batch, id) == LastSeens(log + batch, id)
  {
    assert forall e :: e in log + batch + batch <==> e in log + batch;
  }

  lemma {:induction false} TwiceLast(log: seq<Event>, batch: seq<Event>, id: Id, key: SnapshotKey)
    ensures LastListing(log + batch + batch, id) == LastListing(log + batch, id)
    ensures LastSnapshot(log + batch + batch, key) == LastSnapshot(log + batch, key)
  {
    LastOfConcatenation(log, batch, id, key);
    LastOfConcatenation(log + batch, batch, id, key);
  }

  lemma TwiceRow(log: seq<Event>, batch: seq<Event>, id: Id, row: Listing)
    requires RowReflects(row, log + batch, id)
    ensures RowReflects(row, log + batch + batch, id)
  {
    TwiceSeens(log, batch, id);
    TwiceLast(log, batch, id, (id, 0));
  }

  /** Writing any batch a second time, even one that repeats a listing with different contents,
      leaves the same tables as writing it once. */
  lemma {:induction false} ReplayIdempotent(log: seq<Event>, batch: seq<Event>)
    ensures Replay(log + batch + batch) == Replay(log + batch)
  {
    var once, twice := log + batch, log + batch + batch;
    var t := Replay(once);
    ReplayReflects(once);
    ReplayReflects(twice);
    forall id ensures LastListing(twice, id) == LastListing(once, id) { TwiceLast(log, batch, id, (id, 0)); }
    forall key: SnapshotKey ensures LastSnapshot(twice, key) == LastSnapshot(once, key) {
      TwiceLast(log, batch, key.0, key);
    }
    forall id | id in t.listings ensures RowReflects(t.listings[id], twice, id) {
      TwiceRow(log, batch, id, t.listings[id]);
    }
    assert Reflects(t, twice);
    ReflectsUnique(t, Replay(twice), twice);
  }

  // ---- One fetch has one outcome ----

  lemma InPrefix<T>(s: seq<T>, p: nat, q: nat)
    requires p < |s| && q <= |s|
    ensures p < q ==> s[p] in s[..q]
  {
    assert forall k :: 0 <= k < q ==> s[..q][k] == s[k];
  }

  lemma FirstBeforeOneWay(ids: seq<Id>, a: Id, b: Id)
    requires FirstBefore(ids, a, b) && FirstBefore(ids, b, a)
    ensures a == b
  {
    var p :| 0 <= p < |ids| && ids[p] == a && b !in ids[..p];
    var q :| 0 <= q < |ids| && ids[q] == b && a !in ids[..q];
    InPrefix(ids, p, q);
    InPrefix(ids, q, p);
  }

  /** There is only one duplicate-free first-occurrence order. */
  lemma FirstOccurrencesUnique(r1: seq<Id>, r2: seq<Id>, ids: seq<Id>)
    requires FirstOccurrences(r1, ids) && FirstOccurrences(r2, ids)
    ensures r1 == r2
  {
    var le := (a: Id, b: Id) => a == b || FirstBefore(ids, a, b);
    DistinctMultiset(r1);
    DistinctMultiset(r2);
    forall a, b | a in r1 && b in r1 && le(a, b) && le(b, a) ensures a == b {
      if a != b {
        FirstBeforeOneWay(ids, a, b);
      }
    }
    SortedUnique(le, r1, r2);
  }

  lemma PrefixIn(os: seq<ListingObservation>, n: nat, c: Id)
    requires n <= |os|
    ensures AllIn(os[..n], c) <==> forall k :: 0 <= k < n ==> os[k].listing.communityId == c
  {
    assert forall k :: 0 <= k < n ==> os[..n][k] == os[k];
  }

  /** The reported stray is the first one, and only a batch with a stray reports one. */
  lemma StrayUnique(os: seq<ListingObservation>, c: Id, l1: Id, m1: Id, l2: Id, m2: Id)
    requires FirstStray(os, c, l1, m1)
    ensures !AllIn(os, c)
    ensures FirstStray(os, c, l2, m2) ==> l1 == l2 && m1 == m2
  {
    var n :| 0 <= n < |os| && AllIn(os[..n], c) && os[n].listing.listingId == l1
             && os[n].listing.communityId == m1 != c;
    PrefixIn(os, n, c);
    if FirstStray(os, c, l2, m2) {
      var m :| 0 <= m < |os| && AllIn(os[..m], c) && os[m].listing.listingId == l2
               && os[m].listing.communityId == m2 != c;
      PrefixIn(os, m, c);
    }
  }

  lemma StrayReported(o: IngestionOutcome, c: Id, fetch: Fetch)
    requires Reports(o, c, fetch) && o.ProviderContractError?
    ensures fetch.Delivered? && !AllIn(fetch.result.observations, c)
  {
    StrayUnique(fetch.result.observations, c, o.listingId, o.observedCommunityId, o.listingId, o.observedCommunityId);
  }

  /** The reported outcome is settled by the request and the fetch alone, not by the store:
      replaying a batch reports the same result. */
  lemma OutcomeDetermined(o1: IngestionOutcome, o2: IngestionOutcome, c: Id, fetch: Fetch)
    requires Reports(o1, c, fetch) && Reports(o2, c, fetch)
    ensures o1 == o2
  {
    if o1.ProviderContractError? {
      StrayReported(o1, c, fetch);
    }
    if o2.ProviderContractError? {
      StrayReported(o2, c, fetch);
    }
    match (o1, o2)
    case (ProviderContractError(_, l1, m1), ProviderContractError(_, l2, m2)) =>
      StrayUnique(fetch.result.observations, c, l1, m1, l2, m2);
    case (Ingested(r1), Ingested(r2)) =>
      FirstOccurrencesUnique(r1.listingIds, r2.listingIds, ListingIdsOf(fetch.result.observations));
    case _ =>
  }

  // ---- What one accepted batch touches ----

  lemma {:induction false} EventsExactly(os: seq<ListingObservation>, e: Event)
    ensures e in EventsOf(os) <==>
            exists i :: 0 <= i < |os| && (e == SawListing(os[i].listing) || e == SawSnapshot(os[i].snapshot))
  {
    if os == [] {
    } else {
      var before := os[..|os| - 1];
      EventsExactly(before, e);
      assert os == before + [os[|os| - 1]];
      assert forall i :: 0 <= i < |before| ==> before[i] == os[i];
    }
  }

  lemma {:induction false} ValidEvents(os: seq<ListingObservation>)
    requires forall i :: 0 <= i < |os| ==> os[i].Valid()
    ensures ValidLog(EventsOf(os))
  {
    forall e | e in EventsOf(os) ensures e.Valid() {
      EventsExactly(os, e);
    }
  }

  /** Two stores agree about one listing. */
  ghost predicate SameAbout(t1: Tables, t2: Tables, id: Id) {
    && (id in t1.listings <==> id in t2.listings)
    && (id in t1.listings ==> t1.listings[id] == t2.listings[id])
    && (forall at :: (id, at) in t1.snapshots <==> (id, at) in t2.snapshots)
    && (forall at :: (id, at) in t1.snapshots ==> t1.snapshots[(id, at)] == t2.snapshots[(id, at)])
  }

  predicate About(e: Event, id: Id) {
    match e
    case SawListing(l) => l.listingId == id
    case SawSnapshot(s) => s.listingId == id
  }

  lemma {:induction false} EventsElsewhere(log: seq<Event>, more: seq<Event>, id: Id)
    requires forall e :: e in more ==> !About(e, id)
    ensures SameAbout(Replay(log), Replay(log + more), id)
  {
    if more == [] {
      assert log + more == log;
    } else {
      var front, e := more[..|more| - 1], more[|more| - 1];
      EventsElsewhere(log, front, id);
      assert log + more == log + front + [e];
      assert !About(e, id);
      ReplayOne(log + front, e);
    }
  }

  /** A listing outside the batch keeps its row and its history. */
  lemma {:induction false} UntouchedOutsideBatch(log: seq<Event>, os: seq<ListingObservation>, id: Id)
    requires forall i :: 0 <= i < |os| ==> os[i].Valid() && os[i].listing.listingId != id
    ensures var before, after := Replay(log), Replay(log + EventsOf(os));
            SameAbout(before, after, id) && History(before, id) == History(after, id)
  {
    forall e | e in EventsOf(os) ensures !About(e, id) {
      EventsExactly(os, e);
    }
    EventsElsewhere(log, EventsOf(os), id);
    SameInstantsSameHistory(Replay(log), Replay(log + EventsOf(os)), id);
  }

  /** After an accepted ingestion every listing of the batch is filed under the requested community. */
  lemma {:induction false} BatchFiledUnderCommunity(log: seq<Event>, os: seq<ListingObservation>, c: Id, id: Id)
    requires AllIn(os, c) && id in ListingIdsOf(os)
    ensures var t := Replay(log + EventsOf(os)); id in t.listings && t.listings[id].communityId == c
  {
    var events := EventsOf(os);
    var i :| 0 <= i < |os| && ListingIdsOf(os)[i] == id;
    EventsExactly(os, SawListing(os[i].listing));
    LastListingLogged(events, id);
    var l := LastListing(events, id).value;
    EventsExactly(os, SawListing(l));
    LastOfConcatenation(log, events, id, (id, 0));
    ReplayReflects(log + events);
    assert RowReflects(Replay(log + events).listings[id], log + events, id);
  }

  // ---- Runs ----

  datatype Request = Request(communityId: Id, fetch: Fetch)

  /** The observations a run gets stored, in arrival order: rejected and failed fetches add none. */
  function Stored(run: seq<Request>): seq<ListingObservation> {
    if run == [] then []
    else Stored(run[..|run| - 1]) + Accepted(run[|run| - 1].communityId, run[|run| - 1].fetch)
  }

  ghost predicate ValidRun(run: seq<Request>) {
    forall i :: 0 <= i < |run| ==> run[i].fetch.Delivered? ==> run[i].fetch.result.Valid()
  }

  lemma {:induction false} EventsOfConcatenation(a: seq<ListingObservation>, b: seq<ListingObservation>)
    ensures EventsOf(a + b) == EventsOf(a) + EventsOf(b)
  {
    if b == [] {
      assert a + b == a;
    } else {
      assert (a + b)[..|a + b| - 1] == a + b[..|b| - 1];
      EventsOfConcatenation(a, b[..|b| - 1]);
    }
  }

  predicate OwnOnly(request: Request) {
    && request.fetch.Delivered?
    && forall i :: 0 <= i < |request.fetch.result.observations| ==>
         request.fetch.result.observations[i].listing.communityId == request.communityId
  }

  /** Requests add their whole batch or nothing, in order. */
  lemma {:induction false} StoredGrows(run: seq<Request>, request: Request)
    ensures Stored([]) == []
    ensures OwnOnly(request) ==> Stored(run + [request]) == Stored(run) + request.fetch.result.observations
    ensures !OwnOnly(request) ==> Stored(run + [request]) == Stored(run)
  {
    assert (run + [request])[..|run|] == run;
    Empty(Stored(run));
  }

  /** What a run stores: every observation of the delivered batches that are wholly of their own community. */
  lemma {:induction false} StoredExactlyBy(run: seq<Request>, o: ListingObservation)
    ensures o in Stored(run) <==>
            exists n :: 0 <= n < |run| && OwnOnly(run[n]) && o in run[n].fetch.result.observations
  {
    if run == [] {
    } else {
      var n := |run| - 1;
      StoredExactlyBy(run[..n], o);
      StoredGrows(run[..n], run[n]);
      assert run == run[..n] + [run[n]];
      assert forall k :: 0 <= k < n ==> run[..n][k] == run[k];
    }
  }

  /** Ingesting a whole run, request after request. */
  method IngestAll(run: seq<Request>) returns (repository: ListingRepository)
    requires ValidRun(run)
    ensures fresh(repository) && repository.Valid()
    ensures repository.log == EventsOf(Stored(run))
  {
    repository := new ListingRepository();
    assert run[..0] == [];
    for i := 0 to |run|
      invariant fresh(repository) && repository.Valid()
      invariant repository.log == EventsOf(Stored(run[..i]))
    {
      var _ := Ingest(repository, run[i].communityId, run[i].fetch);
      assert run[..i + 1][..i] == run[..i];
      EventsOfConcatenation(Stored(run[..i]), Accepted(run[i].communityId, run[i].fetch));
    }
    assert run[..|run|] == run;
  }

  /** A listing always names one community, and no two observations disagree at one instant. */
  ghost predicate Consistent(os: seq<ListingObservation>) {
    forall a, b :: a in os && b in os && a.listing.listingId == b.listing.listingId ==>
      && a.listing.communityId == b.listing.communityId
      && (a.snapshot.snapshotAt == b.snapshot.snapshotAt ==> a.snapshot == b.snapshot)
  }

  lemma {:induction false} ConsistentEvents(os: seq<ListingObservation>)
    requires Consistent(os) && forall o :: o in os ==> o.Valid()
    ensures OneCommunity(EventsOf(os)) && OneReading(EventsOf(os))
  {
    var log := EventsOf(os);
    forall a, b | a in log && b in log && a.SawListing? && b.SawListing? && a.listing.listingId == b.listing.listingId
      ensures a.listing.communityId == b.listing.communityId
    {
      EventsExactly(os, a);
      EventsExactly(os, b);
    }
    forall a, b | a in log && b in log && a.SawSnapshot? && b.SawSnapshot? && a.snapshot.Key() == b.snapshot.Key()
      ensures a == b
    {
      EventsExactly(os, a);
      EventsExactly(os, b);
      var i :| 0 <= i < |os| && a == SawSnapshot(os[i].snapshot);
      var j :| 0 <= j < |os| && b == SawSnapshot(os[j].snapshot);
      assert os[i] in os && os[j] in os;
    }
  }

  lemma {:induction false} SameEvents(a: seq<ListingObservation>, b: seq<ListingObservation>)
    requires Elements(a) == Elements(b)
    ensures Elements(EventsOf(a)) == Elements(EventsOf(b))
  {
    assert forall o :: o in a <==> o in Elements(a);
    assert forall o :: o in b <==> o in Elements(b);
    forall e ensures e in EventsOf(a) <==> e in EventsOf(b) {
      EventsExactly(a, e);
      EventsExactly(b, e);
      SameEventsOneWay(a, b, e);
      SameEventsOneWay(b, a, e);
    }
  }

  lemma {:induction false} SameEventsOneWay(a: seq<ListingObservation>, b: seq<ListingObservation>, e: Event)
    requires forall o :: o in a ==> o in b
    ensures e in EventsOf(a) ==> e in EventsOf(b)
  {
    EventsExactly(a, e);
    EventsExactly(b, e);
    if e in EventsOf(a) {
      var i :| 0 <= i < |a| && (e == SawListing(a[i].listing) || e == SawSnapshot(a[i].snapshot));
      assert a[i] in b;
      var j :| 0 <= j < |b| && b[j] == a[i];
    }
  }

  /** Two runs that get the same observations stored, in any order, batching or repetition,
      leave the same evidence behind. */
  lemma {:induction false} RunOrderIndependence(run1: seq<Request>, run2: seq<Request>)
    requires Elements(Stored(run1)) == Elements(Stored(run2)) && Consistent(Stored(run1))
    requires forall o :: o in Stored(run1) ==> o.Valid()
    ensures SameEvidence(Replay(EventsOf(Stored(run1))), Replay(EventsOf(Stored(run2))))
  {
    SameEvents(Stored(run1), Stored(run2));
    ConsistentEvents(Stored(run1));
    OrderIndependence(EventsOf(Stored(run1)), EventsOf(Stored(run2)));
  }

  // ---- Derived columns ----

  /** As the source parser builds them: one row proves one instant. */
  predicate OneInstant(o: ListingObservation) {
    && o.listing.firstSeenAt == o.listing.lastSeenAt == o.snapshot.snapshotAt
    && o.listing.status == o.snapshot.status
  }

  /** The instants a listing was seen at are those its snapshots were taken at. */
  ghost predicate SeenWhenObserved(log: seq<Event>, id: Id) {
    && (forall at :: at in FirstSeens(log, id) <==> Observed(log, id, at))
    && (forall at :: at in LastSeens(log, id) <==> Observed(log, id, at))
  }

  lemma {:induction false} SeenIsObserved(os: seq<ListingObservation>, id: Id, at: Instant, e: Event)
    requires forall i :: 0 <= i < |os| ==> os[i].Valid() && OneInstant(os[i])
    requires e in EventsOf(os) && e.SawListing? && e.listing.listingId == id
    requires e.listing.firstSeenAt == at || e.listing.lastSeenAt == at
    ensures Observed(EventsOf(os), id, at)
  {
    EventsExactly(os, e);
    var i :| 0 <= i < |os| && e == SawListing(os[i].listing);
    EventsExactly(os, SawSnapshot(os[i].snapshot));
    assert SawSnapshot(os[i].snapshot).snapshot.Key() == (id, at);
  }

  lemma {:induction false} ObservedIsSeen(os: seq<ListingObservation>, id: Id, at: Instant)
    requires forall i :: 0 <= i < |os| ==> os[i].Valid() && OneInstant(os[i])
    requires Observed(EventsOf(os), id, at)
    ensures at in FirstSeens(EventsOf(os), id) && at in LastSeens(EventsOf(os), id)
  {
    var e :| e in EventsOf(os) && e.SawSnapshot? && e.snapshot.Key() == (id, at);
    EventsExactly(os, e);
    var i :| 0 <= i < |os| && e == SawSnapshot(os[i].snapshot);
    EventsExactly(os, SawListing(os[i].listing));
    assert SawListing(os[i].listing).listing.firstSeenAt == at;
  }

  lemma {:induction false} SeensAreInstants(os: seq<ListingObservation>, id: Id)
    requires forall i :: 0 <= i < |os| ==> os[i].Valid() && OneInstant(os[i])
    ensures SeenWhenObserved(EventsOf(os), id)
  {
    var log := EventsOf(os);
    forall at
      ensures at in FirstSeens(log, id) <==> Observed(log, id, at)
      ensures at in LastSeens(log, id) <==> Observed(log, id, at)
    {
      if at in FirstSeens(log, id) {
        var e :| e in log && e.SawListing? && e.listing.listingId == id && e.listing.firstSeenAt == at;
        SeenIsObserved(os, id, at, e);
      }
      if at in LastSeens(log, id) {
        var e :| e in log && e.SawListing? && e.listing.listingId == id && e.listing.lastSeenAt == at;
        SeenIsObserved(os, id, at, e);
      }
      if Observed(log, id, at) {
        ObservedIsSeen(os, id, at);
      }
    }
  }

  ghost predicate Spans(row: Listing, h: seq<ListingSnapshot>) {
    h != [] && row.firstSeenAt == h[0].snapshotAt && row.lastSeenAt == h[|h| - 1].snapshotAt
  }

  lemma RowSpan(log: seq<Event>, id: Id, row: Listing, h: seq<ListingSnapshot>)
    requires RowReflects(row, log, id) && Chronicle(log, id, h) && SeenWhenObserved(log, id)
    ensures Spans(row, h)
  {
    assert row.firstSeenAt in FirstSeens(log, id) && row.lastSeenAt in LastSeens(log, id);
    assert Records(h, row.firstSeenAt) && Records(h, row.lastSeenAt);
    assert Records(h, h[0].snapshotAt) && Records(h, h[|h| - 1].snapshotAt);
    assert h[0].snapshotAt in FirstSeens(log, id) && h[|h| - 1].snapshotAt in LastSeens(log, id);
  }

  lemma {:induction false} SeenMeansStored(log: seq<Event>, id: Id)
    ensures id in Replay(log).listings <==> FirstSeens(log, id) != {}
  {
    ReplayReflects(log);
    LastListingLogged(log, id);
    if id in Replay(log).listings {
      assert RowReflects(Replay(log).listings[id], log, id);
    } else {
      NeverSeen(log, id);
    }
  }

  lemma ObservedMeansSeen(log: seq<Event>, id: Id, h: seq<ListingSnapshot>)
    requires Chronicle(log, id, h) && SeenWhenObserved(log, id)
    ensures h != [] ==> FirstSeens(log, id) != {}
  {
    if h != [] {
      assert Records(h, h[0].snapshotAt);
      assert h[0].snapshotAt in FirstSeens(log, id);
    }
  }

  /** A stored listing's seen range is the span of its stored history, whatever the arrival order. */
  lemma {:induction false} SeenRangeIsHistorySpan(os: seq<ListingObservation>, id: Id)
    requires forall i :: 0 <= i < |os| ==> os[i].Valid() && OneInstant(os[i])
    ensures var t := Replay(EventsOf(os));
            && (id in t.listings <==> History(t, id) != [])
            && (id in t.listings ==> Spans(t.listings[id], History(t, id)))
  {
    var log := EventsOf(os);
    ValidEvents(os);
    HistoryOfLog(log, id);
    SeensAreInstants(os, id);
    SeenMeansStored(log, id);
    ObservedMeansSeen(log, id, History(Replay(log), id));
    if id in Replay(log).listings {
      assert RowReflects(Replay(log).listings[id], log, id) by { ReplayReflects(log); }
      RowSpan(log, id, Replay(log).listings[id], History(Replay(log), id));
    }
  }

  /** One listing's snapshots arrive in time order. */
  ghost predicate InTimeOrder(os: seq<ListingObservation>, id: Id) {
    forall i, j :: 0 <= i < j < |os| && os[i].listing.listingId == os[j].listing.listingId == id ==>
      os[i].snapshot.snapshotAt <= os[j].snapshot.snapshotAt
  }

  /** The n-th observation is the last of its listing and supplies both row and newest snapshot. */
  ghost predicate LastArrival(os: seq<ListingObservation>, id: Id, n: nat) {
    && n < |os| && os[n].listing.listingId == id
    && LastListing(EventsOf(os), id) == Some(os[n].listing)
    && LastSnapshot(EventsOf(os), os[n].snapshot.Key()) == Some(os[n].snapshot)
    && forall i :: 0 <= i < |os| && os[i].listing.listingId == id ==>
         os[i].snapshot.snapshotAt <= os[n].snapshot.snapshotAt
  }

  lemma {:induction false} LastOfPair(log: seq<Event>, o: ListingObservation, id: Id, key: SnapshotKey)
    ensures var log' := log + [SawListing(o.listing), SawSnapshot(o.snapshot)];
            && LastListing(log', id) == (if o.listing.listingId == id then Some(o.listing) else LastListing(log, id))
            && LastSnapshot(log', key) == (if o.snapshot.Key() == key then Some(o.snapshot) else LastSnapshot(log, key))
  {
    var log' := log + [SawListing(o.listing), SawSnapshot(o.snapshot)];
    assert log'[..|log'| - 1] == log + [SawListing(o.listing)];
    assert (log + [SawListing(o.listing)])[..|log|] == log;
  }

  lemma {:induction false} LastObservation(os: seq<ListingObservation>, id: Id) returns (n: nat)
    requires forall i :: 0 <= i < |os| ==> os[i].Valid()
    requires InTimeOrder(os, id) && id in ListingIdsOf(os)
    ensures LastArrival(os, id, n)
  {
    var front, o := os[..|os| - 1], os[|os| - 1];
    if o.listing.listingId == id {
      n := |os| - 1;
    } else {
      var i :| 0 <= i < |os| && ListingIdsOf(os)[i] == id;
      assert ListingIdsOf(front)[i] == id;
      n := LastObservation(front, id);
      assert forall i :: 0 <= i < |front| ==> front[i] == os[i];
    }
    LastOfPair(EventsOf(front), o, id, os[n].snapshot.Key());
  }

  lemma {:induction false} ObservedBy(os: seq<ListingObservation>, id: Id, at: Instant)
    requires forall i :: 0 <= i < |os| ==> os[i].Valid()
    ensures Observed(EventsOf(os), id, at) <==>
            exists i :: 0 <= i < |os| && os[i].listing.listingId == id && os[i].snapshot.snapshotAt == at
  {
    var log := EventsOf(os);
    if Observed(log, id, at) {
      var e :| e in log && e.SawSnapshot? && e.snapshot.Key() == (id, at);
      EventsExactly(os, e);
    }
    forall i | 0 <= i < |os| && os[i].listing.listingId == id && os[i].snapshot.snapshotAt == at
      ensures Observed(log, id, at)
    {
      EventsExactly(os, SawSnapshot(os[i].snapshot));
      assert SawSnapshot(os[i].snapshot).snapshot.Key() == (id, at);
    }
  }

  lemma NewestInstant(os: seq<ListingObservation>, id: Id, n: nat, h: seq<ListingSnapshot>)
    requires n < |os| && os[n].listing.listingId == id
    requires forall i :: 0 <= i < |os| && os[i].listing.listingId == id ==>
               os[i].snapshot.snapshotAt <= os[n].snapshot.snapshotAt
    requires forall i, j :: 0 <= i < j < |h| ==> h[i].snapshotAt < h[j].snapshotAt
    requires forall at :: Records(h, at) <==>
               exists i :: 0 <= i < |os| && os[i].listing.listingId == id && os[i].snapshot.snapshotAt == at
    ensures h != [] && h[|h| - 1].snapshotAt == os[n].snapshot.snapshotAt
  {
    assert Records(h, os[n].snapshot.snapshotAt);
    assert Records(h, h[|h| - 1].snapshotAt);
  }

  lemma {:induction false} NewestIsLastArrived(os: seq<ListingObservation>, id: Id, n: nat, h: seq<ListingSnapshot>)
    requires forall i :: 0 <= i < |os| ==> os[i].Valid()
    requires LastArrival(os, id, n) && Chronicle(EventsOf(os), id, h)
    ensures h != [] && h[|h| - 1] == os[n].snapshot
  {
    forall at ensures Records(h, at) <==>
      exists i :: 0 <= i < |os| && os[i].listing.listingId == id && os[i].snapshot.snapshotAt == at
    {
      ObservedBy(os, id, at);
    }
    NewestInstant(os, id, n, h);
    assert LastSnapshot(EventsOf(os), (id, h[|h| - 1].snapshotAt)) == Some(h[|h| - 1]);
  }

  /** When snapshots arrive in time order, a listing's status is its newest snapshot's status. */
  lemma {:induction false} StatusIsLatestStatus(os: seq<ListingObservation>, id: Id)
    requires forall i :: 0 <= i < |os| ==> os[i].Valid() && OneInstant(os[i])
    requires InTimeOrder(os, id) && id in ListingIdsOf(os)
    ensures var t := Replay(EventsOf(os));
            var h := History(t, id);
            id in t.listings && h != [] && t.listings[id].status == h[|h| - 1].status
  {
    var log := EventsOf(os);
    var n := LastObservation(os, id);
    ValidEvents(os);
    HistoryOfLog(log, id);
    NewestIsLastArrived(os, id, n, History(Replay(log), id));
    StoredRow(log, id);
  }

  lemma {:induction false} StoredRow(log: seq<Event>, id: Id)
    requires LastListing(log, id).Some?
    ensures id in Replay(log).listings && Replay(log).listings[id].status == LastListing(log, id).value.status
  {
    ReplayReflects(log);
    assert RowReflects(Replay(log).listings[id], log, id);
  }
}
