/** The two listing tables and what a history of writes leaves in them
    (storage/schema.py, ListingRepository in storage/repositories.py). */
module ListingStore {
  import opened Text
  import opened Orders
  import opened Domain

  type SnapshotKey = (Id, Instant)

  datatype Tables = Tables(listings: map<Id, Listing>, snapshots: map<SnapshotKey, ListingSnapshot>)

  const EMPTY := Tables(map[], map[])

  /** One write to the repository. */
  datatype Event = SawListing(listing: Listing) | SawSnapshot(snapshot: ListingSnapshot)
  {
    predicate Valid() {
      match this
      case SawListing(l) => l.Valid()
      case SawSnapshot(s) => s.Valid()
    }
  }

  function Min(a: int, b: int): int { if a <= b then a else b }

  function Max(a: int, b: int): int { if a <= b then b else a }

  // ---- The writes ----

  /** ON CONFLICT(listing_id): attributes are last-write, the seen range only widens. */
  function Merge(stored: Listing, incoming: Listing): Listing {
    incoming.(firstSeenAt := Min(stored.firstSeenAt, incoming.firstSeenAt),
              lastSeenAt := Max(stored.lastSeenAt, incoming.lastSeenAt))
  }

  function Apply(t: Tables, e: Event): Tables {
    match e
    case SawListing(l) =>
      t.(listings := t.listings[l.listingId :=
           if l.listingId in t.listings then Merge(t.listings[l.listingId], l) else l])
    case SawSnapshot(s) => t.(snapshots := t.snapshots[s.Key() := s])
  }

  function Replay(log: seq<Event>): Tables {
    if log == [] then EMPTY else Apply(Replay(log[..|log| - 1]), log[|log| - 1])
  }

  // ---- What a log says about one key, without any table ----

  function LastListing(log: seq<Event>, id: Id): Option<Listing> {
    if log == [] then None
    else
      match log[|log| - 1]
      case SawListing(l) => if l.listingId == id then Some(l) else LastListing(log[..|log| - 1], id)
      case SawSnapshot(_) => LastListing(log[..|log| - 1], id)
  }

  function LastSnapshot(log: seq<Event>, key: SnapshotKey): Option<ListingSnapshot> {
    if log == [] then None
    else
      match log[|log| - 1]
      case SawSnapshot(s) => if s.Key() == key then Some(s) else LastSnapshot(log[..|log| - 1], key)
      case SawListing(_) => LastSnapshot(log[..|log| - 1], key)
  }

  /** Every `first_seen_at` reported for a listing. */
  function FirstSeens(log: seq<Event>, id: Id): set<Instant> {
    set e | e in log && e.SawListing? && e.listing.listingId == id :: e.listing.firstSeenAt
  }

  function LastSeens(log: seq<Event>, id: Id): set<Instant> {
    set e | e in log && e.SawListing? && e.listing.listingId == id :: e.listing.lastSeenAt
  }

  predicate IsMin(x: int, s: set<int>) { x in s && forall y :: y in s ==> x <= y }

  predicate IsMax(x: int, s: set<int>) { x in s && forall y :: y in s ==> y <= x }

  /** The tables hold exactly what the log says: last-written attributes, extreme seen
      instants, the last snapshot written at each key, and nothing else. */
  ghost predicate Reflects(t: Tables, log: seq<Event>) {
    && (forall id :: id in t.listings <==> LastListing(log, id).Some?)
    && (forall id :: id in t.listings ==> RowReflects(t.listings[id], log, id))
    && (forall k :: k in t.snapshots <==> LastSnapshot(log, k).Some?)
    && (forall k :: k in t.snapshots ==> LastSnapshot(log, k) == Some(t.snapshots[k]))
  }

  ghost predicate RowReflects(row: Listing, log: seq<Event>, id: Id) {
    && IsMin(row.firstSeenAt, FirstSeens(log, id))
    && IsMax(row.lastSeenAt, LastSeens(log, id))
    && LastListing(log, id).Some?
    && row == LastListing(log, id).value.(firstSeenAt := row.firstSeenAt, lastSeenAt := row.lastSeenAt)
  }

  lemma AppendSeens(log: seq<Event>, e: Event, id: Id)
    ensures var mine := e.SawListing? && e.listing.listingId == id;
            && FirstSeens(log + [e], id) == FirstSeens(log, id) + (if mine then {e.listing.firstSeenAt} else {})
            && LastSeens(log + [e], id) == LastSeens(log, id) + (if mine then {e.listing.lastSeenAt} else {})
  {
    assert forall x :: x in log + [e] <==> x in log || x == e;
  }

  lemma AppendRow(log: seq<Event>, e: Event, id: Id, t: Tables)
    requires Reflects(t, log)
    requires id in Apply(t, e).listings
    ensures RowReflects(Apply(t, e).listings[id], log + [e], id)
  {
    assert (log + [e])[..|log|] == log;
    AppendSeens(log, e, id);
    if id in t.listings {
      assert RowReflects(t.listings[id], log, id);
    } else {
      NeverSeen(log, id);
    }
  }

  lemma {:induction false} NeverSeen(log: seq<Event>, id: Id)
    requires LastListing(log, id).None?
    ensures forall e :: e in log && e.SawListing? ==> e.listing.listingId != id
    ensures FirstSeens(log, id) == {} && LastSeens(log, id) == {}
  {
    if log == [] {
    } else {
      var before, last := log[..|log| - 1], log[|log| - 1];
      NeverSeen(before, id);
      assert log == before + [last];
    }
  }

  lemma AppendReflects(log: seq<Event>, e: Event, t: Tables)
    requires Reflects(t, log)
    ensures Reflects(Apply(t, e), log + [e])
  {
    assert (log + [e])[..|log|] == log;
    forall id | id in Apply(t, e).listings ensures RowReflects(Apply(t, e).listings[id], log + [e], id) {
      AppendRow(log, e, id, t);
    }
  }

  /** The tables never drift from the history of writes that built them. */
  lemma {:induction false} ReplayReflects(log: seq<Event>)
    ensures Reflects(Replay(log), log)
  {
    if log == [] {
    } else {
      var before, e := log[..|log| - 1], log[|log| - 1];
      ReplayReflects(before);
      AppendReflects(before, e, Replay(before));
      assert log == before + [e];
    }
  }

  /** A log leaves only one possible state behind. */
  lemma ReflectsUnique(t1: Tables, t2: Tables, log: seq<Event>)
    requires Reflects(t1, log) && Reflects(t2, log)
    ensures t1 == t2
  {
    assert t1.listings.Keys == t2.listings.Keys;
    forall id | id in t1.listings ensures t1.listings[id] == t2.listings[id] {
      assert RowReflects(t1.listings[id], log, id) && RowReflects(t2.listings[id], log, id);
    }
    assert t1.snapshots.Keys == t2.snapshots.Keys;
    forall k | k in t1.snapshots ensures t1.snapshots[k] == t2.snapshots[k] {
      assert LastSnapshot(log, k) == Some(t1.snapshots[k]);
    }
  }

  // ---- Which records a log can leave in a row ----

  lemma {:induction false} LastListingLogged(log: seq<Event>, id: Id)
    ensures match LastListing(log, id)
            case Some(l) => SawListing(l) in log && l.listingId == id
            case None => forall e :: e in log && e.SawListing? ==> e.listing.listingId != id
  {
    if log == [] {
    } else {
      LastListingLogged(log[..|log| - 1], id);
      assert log == log[..|log| - 1] + [log[|log| - 1]];
    }
  }

  lemma {:induction false} LastSnapshotLogged(log: seq<Event>, key: SnapshotKey)
    ensures match LastSnapshot(log, key)
            case Some(s) => SawSnapshot(s) in log && s.Key() == key
            case None => forall e :: e in log && e.SawSnapshot? ==> e.snapshot.Key() != key
  {
    if log == [] {
    } else {
      LastSnapshotLogged(log[..|log| - 1], key);
      assert log == log[..|log| - 1] + [log[|log| - 1]];
    }
  }

  /** The last write of a listing: some write, and none of the listing after it. */
  ghost predicate LastOfListing(log: seq<Event>, id: Id, l: Listing) {
    exists n :: 0 <= n < |log| && log[n] == SawListing(l) && l.listingId == id
      && forall k :: n < k < |log| ==> !(log[k].SawListing? && log[k].listing.listingId == id)
  }

  ghost predicate LastOfSnapshot(log: seq<Event>, id: Id, at: Instant, s: ListingSnapshot) {
    exists n :: 0 <= n < |log| && log[n] == SawSnapshot(s) && s.listingId == id && s.snapshotAt == at
      && forall k :: n < k < |log| ==>
           !(log[k].SawSnapshot? && log[k].snapshot.listingId == id && log[k].snapshot.snapshotAt == at)
  }

  lemma {:induction false} LastListingExactly(log: seq<Event>, id: Id, l: Listing)
    ensures LastListing(log, id) == Some(l) <==> LastOfListing(log, id, l)
  {
    if log == [] {
    } else {
      var n := |log| - 1;
      LastListingExactly(log[..n], id, l);
      assert forall k :: 0 <= k < n ==> log[..n][k] == log[k];
    }
  }

  lemma {:induction false} LastSnapshotExactly(log: seq<Event>, id: Id, at: Instant, s: ListingSnapshot)
    ensures LastSnapshot(log, (id, at)) == Some(s) <==> LastOfSnapshot(log, id, at, s)
  {
    if log == [] {
    } else {
      var n := |log| - 1;
      LastSnapshotExactly(log[..n], id, at, s);
      assert forall k :: 0 <= k < n ==> log[..n][k] == log[k];
    }
  }

  /** What the tables hold after any history of writes, said of the history alone. */
  lemma {:induction false} TablesExactly(log: seq<Event>, id: Id, at: Instant)
    ensures var t := Replay(log);
            && (id in t.listings ==>
                  exists l: Listing :: LastOfListing(log, id, l)
                    && t.listings[id] == l.(firstSeenAt := t.listings[id].firstSeenAt,
                                            lastSeenAt := t.listings[id].lastSeenAt))
            && (id !in t.listings ==> forall l :: !LastOfListing(log, id, l))
            && ((id, at) in t.snapshots ==> LastOfSnapshot(log, id, at, t.snapshots[(id, at)]))
            && ((id, at) !in t.snapshots ==> forall s :: !LastOfSnapshot(log, id, at, s))
    ensures id in Replay(log).listings ==>
              var row := Replay(log).listings[id];
              && (forall e :: e in log && e.SawListing? && e.listing.listingId == id ==>
                    row.firstSeenAt <= e.listing.firstSeenAt && e.listing.lastSeenAt <= row.lastSeenAt)
              && (exists e :: e in log && e.SawListing? && e.listing.listingId == id
                              && e.listing.firstSeenAt == row.firstSeenAt)
              && (exists e :: e in log && e.SawListing? && e.listing.listingId == id
                              && e.listing.lastSeenAt == row.lastSeenAt)
  {
    var t := Replay(log);
    ReplayReflects(log);
    forall l ensures LastListing(log, id) == Some(l) <==> LastOfListing(log, id, l) {
      LastListingExactly(log, id, l);
    }
    forall s ensures LastSnapshot(log, (id, at)) == Some(s) <==> LastOfSnapshot(log, id, at, s) {
      LastSnapshotExactly(log, id, at, s);
    }
    if id in t.listings {
      SeenExtremes(t.listings[id], log, id);
    }
  }

  lemma SeenExtremes(row: Listing, log: seq<Event>, id: Id)
    requires RowReflects(row, log, id)
    ensures forall e :: e in log && e.SawListing? && e.listing.listingId == id ==>
              row.firstSeenAt <= e.listing.firstSeenAt && e.listing.lastSeenAt <= row.lastSeenAt
    ensures exists e :: e in log && e.SawListing? && e.listing.listingId == id && e.listing.firstSeenAt == row.firstSeenAt
    ensures exists e :: e in log && e.SawListing? && e.listing.listingId == id && e.listing.lastSeenAt == row.lastSeenAt
  {
    assert row.firstSeenAt in FirstSeens(log, id) && row.lastSeenAt in LastSeens(log, id);
    assert forall e :: e in log && e.SawListing? && e.listing.listingId == id ==>
        e.listing.firstSeenAt in FirstSeens(log, id) && e.listing.lastSeenAt in LastSeens(log, id);
  }

  /** Rows sit under their own keys and would pass the canonical model's checks when read back. */
  ghost predicate WellKept(t: Tables) {
    && (forall id :: id in t.listings ==> t.listings[id].listingId == id && t.listings[id].Valid())
    && (forall k :: k in t.snapshots ==> t.snapshots[k].Key() == k && t.snapshots[k].Valid())
  }

  ghost predicate ValidLog(log: seq<Event>) {
    forall e :: e in log ==> e.Valid()
  }

  lemma RowWellKept(log: seq<Event>, id: Id, row: Listing)
    requires ValidLog(log) && RowReflects(row, log, id)
    ensures row.listingId == id && row.Valid()
  {
    LastListingLogged(log, id);
    var l := LastListing(log, id).value;
    assert SawListing(l).Valid();
    assert l.firstSeenAt in FirstSeens(log, id) && l.lastSeenAt in LastSeens(log, id);
  }

  /** The widening merge never inverts a seen range, whatever is written in whatever order. */
  lemma {:induction false} ReachableWellKept(log: seq<Event>)
    requires ValidLog(log)
    ensures WellKept(Replay(log))
  {
    var t := Replay(log);
    ReplayReflects(log);
    forall id | id in t.listings ensures t.listings[id].listingId == id && t.listings[id].Valid() {
      RowWellKept(log, id, t.listings[id]);
    }
    forall k | k in t.snapshots ensures t.snapshots[k].Key() == k && t.snapshots[k].Valid() {
      LastSnapshotLogged(log, k);
      assert SawSnapshot(t.snapshots[k]).Valid();
    }
  }

  // ---- Order independence of the stored evidence ----

  /** A listing is only ever reported under one community. */
  ghost predicate OneCommunity(log: seq<Event>) {
    forall a, b :: a in log && b in log && a.SawListing? && b.SawListing?
                   && a.listing.listingId == b.listing.listingId ==>
      a.listing.communityId == b.listing.communityId
  }

  /** No two snapshots disagree about one listing at one instant. */
  ghost predicate OneReading(log: seq<Event>) {
    forall a, b :: a in log && b in log && a.SawSnapshot? && b.SawSnapshot?
                   && a.snapshot.Key() == b.snapshot.Key() ==>
      a == b
  }

  /** Same history, same identities, same communities, same seen ranges;
      the last-write columns may differ. */
  ghost predicate SameEvidence(t1: Tables, t2: Tables) {
    && t1.snapshots == t2.snapshots
    && t1.listings.Keys == t2.listings.Keys
    && forall id :: id in t1.listings ==>
         && t1.listings[id].communityId == t2.listings[id].communityId
         && t1.listings[id].firstSeenAt == t2.listings[id].firstSeenAt
         && t1.listings[id].lastSeenAt == t2.listings[id].lastSeenAt
  }

  lemma SameRows(a: seq<Event>, b: seq<Event>, id: Id, row1: Listing, row2: Listing)
    requires Elements(a) == Elements(b) && OneCommunity(a)
    requires RowReflects(row1, a, id) && RowReflects(row2, b, id)
    ensures row1.communityId == row2.communityId
    ensures row1.firstSeenAt == row2.firstSeenAt && row1.lastSeenAt == row2.lastSeenAt
  {
    assert forall e :: e in a <==> e in Elements(a);
    assert forall e :: e in b <==> e in Elements(b);
    assert FirstSeens(a, id) == FirstSeens(b, id);
    assert LastSeens(a, id) == LastSeens(b, id);
    LastListingLogged(a, id);
    LastListingLogged(b, id);
    assert SawListing(LastListing(b, id).value) in a;
  }

  lemma {:induction false} SameSnapshots(a: seq<Event>, b: seq<Event>, k: SnapshotKey)
    requires Elements(a) == Elements(b) && OneReading(a)
    ensures LastSnapshot(a, k) == LastSnapshot(b, k)
  {
    assert forall e :: e in a <==> e in Elements(a);
    assert forall e :: e in b <==> e in Elements(b);
    LastSnapshotLogged(a, k);
    LastSnapshotLogged(b, k);
  }

  lemma SameHistoryTable(a: seq<Event>, b: seq<Event>, t1: Tables, t2: Tables)
    requires Elements(a) == Elements(b) && OneReading(a)
    requires Reflects(t1, a) && Reflects(t2, b)
    ensures t1.snapshots == t2.snapshots
  {
    forall k ensures LastSnapshot(a, k) == LastSnapshot(b, k) { SameSnapshots(a, b, k); }
    assert t1.snapshots.Keys == t2.snapshots.Keys;
    assert forall k :: k in t1.snapshots ==> Some(t1.snapshots[k]) == Some(t2.snapshots[k]);
  }

  lemma SameIdentity(a: seq<Event>, b: seq<Event>, t1: Tables, t2: Tables, id: Id)
    requires Elements(a) == Elements(b) && OneCommunity(a)
    requires Reflects(t1, a) && Reflects(t2, b) && id in t1.listings && id in t2.listings
    ensures t1.listings[id].communityId == t2.listings[id].communityId
    ensures t1.listings[id].firstSeenAt == t2.listings[id].firstSeenAt
    ensures t1.listings[id].lastSeenAt == t2.listings[id].lastSeenAt
  {
    assert RowReflects(t1.listings[id], a, id) && RowReflects(t2.listings[id], b, id);
    SameRows(a, b, id, t1.listings[id], t2.listings[id]);
  }

  lemma {:induction false} SameListed(a: seq<Event>, b: seq<Event>, id: Id)
    requires Elements(a) == Elements(b)
    ensures LastListing(a, id).Some? <==> LastListing(b, id).Some?
  {
    assert forall e :: e in a <==> e in Elements(a);
    assert forall e :: e in b <==> e in Elements(b);
    LastListingLogged(a, id);
    LastListingLogged(b, id);
  }

  lemma SameTables(a: seq<Event>, b: seq<Event>, t1: Tables, t2: Tables)
    requires Elements(a) == Elements(b) && OneCommunity(a) && OneReading(a)
    requires Reflects(t1, a) && Reflects(t2, b)
    ensures SameEvidence(t1, t2)
  {
    SameHistoryTable(a, b, t1, t2);
    forall id ensures id in t1.listings <==> id in t2.listings {
      SameListed(a, b, id);
    }
    forall id | id in t1.listings
      ensures t1.listings[id].communityId == t2.listings[id].communityId
      ensures t1.listings[id].firstSeenAt == t2.listings[id].firstSeenAt
      ensures t1.listings[id].lastSeenAt == t2.listings[id].lastSeenAt
    {
      SameIdentity(a, b, t1, t2, id);
    }
  }

  /** Any two write histories over the same set of observations leave the same evidence behind,
      under any order and repetition. */
  lemma {:induction false} OrderIndependence(a: seq<Event>, b: seq<Event>)
    requires Elements(a) == Elements(b) && OneCommunity(a) && OneReading(a)
    ensures SameEvidence(Replay(a), Replay(b))
  {
    ReplayReflects(a);
    ReplayReflects(b);
    SameTables(a, b, Replay(a), Replay(b));
  }

  /** Two writes disagree about a listing's community, or about one instant of its history. */
  predicate Disagree(a: Event, b: Event) {
    || (a.SawListing? && b.SawListing? && a.listing.listingId == b.listing.listingId
        && a.listing.communityId != b.listing.communityId)
    || (a.SawSnapshot? && b.SawSnapshot? && a.snapshot.Key() == b.snapshot.Key() && a != b)
  }

  lemma SwapListings(t: Tables, a: Listing, b: Listing)
    ensures var ab, ba := Apply(Apply(t, SawListing(a)), SawListing(b)), Apply(Apply(t, SawListing(b)), SawListing(a));
            SameEvidence(ab, ba) <==> (a.listingId == b.listingId ==> a.communityId == b.communityId)
  {
    var ab, ba := Apply(Apply(t, SawListing(a)), SawListing(b)), Apply(Apply(t, SawListing(b)), SawListing(a));
    assert ab.listings[b.listingId].communityId == b.communityId;
    assert ba.listings[a.listingId].communityId == a.communityId;
  }

  lemma SwapSnapshots(t: Tables, a: ListingSnapshot, b: ListingSnapshot)
    ensures var ab, ba := Apply(Apply(t, SawSnapshot(a)), SawSnapshot(b)), Apply(Apply(t, SawSnapshot(b)), SawSnapshot(a));
            SameEvidence(ab, ba) <==> (a.Key() == b.Key() ==> a == b)
  {
    var ab, ba := Apply(Apply(t, SawSnapshot(a)), SawSnapshot(b)), Apply(Apply(t, SawSnapshot(b)), SawSnapshot(a));
    assert ab.snapshots[b.Key()] == b && ba.snapshots[a.Key()] == a;
    assert a.Key() != b.Key() ==> ab.snapshots == ba.snapshots;
  }

  /** The premises of order independence are tight: swapping two adjacent writes changes the
      evidence exactly when they disagree. */
  lemma SwapWrites(t: Tables, a: Event, b: Event)
    ensures SameEvidence(Apply(Apply(t, a), b), Apply(Apply(t, b), a)) <==> !Disagree(a, b)
  {
    match (a, b)
    case (SawListing(x), SawListing(y)) => SwapListings(t, x, y);
    case (SawSnapshot(x), SawSnapshot(y)) => SwapSnapshots(t, x, y);
    case _ => assert Apply(Apply(t, a), b) == Apply(Apply(t, b), a);
  }

  lemma {:induction false} TwoOrders(a: seq<Event>, x: Event, y: Event)
    requires Disagree(x, y)
    ensures !SameEvidence(Replay(a + [x] + [y]), Replay(a + [y] + [x]))
  {
    ReplayTwo(a, x, y);
    ReplayTwo(a, y, x);
    SwapWrites(Replay(a), x, y);
  }

  /** Some other arrival of the same writes leaves different evidence. */
  lemma OrderShows(a: seq<Event>, x: Event, y: Event) returns (b: seq<Event>)
    requires x in a && y in a && Disagree(x, y)
    ensures Elements(b) == Elements(a) && !SameEvidence(Replay(a), Replay(b))
  {
    var xy, yx := a + [x] + [y], a + [y] + [x];
    SameElements(a, x, y);
    SameElements(a, y, x);
    TwoOrders(a, x, y);
    NotBoth(Replay(a), Replay(xy), Replay(yx));
    b := if SameEvidence(Replay(a), Replay(xy)) then yx else xy;
  }

  lemma SameElements(a: seq<Event>, x: Event, y: Event)
    requires x in a && y in a
    ensures Elements(a + [x] + [y]) == Elements(a)
  {
  }

  lemma NotBoth(t: Tables, t1: Tables, t2: Tables)
    requires !SameEvidence(t1, t2)
    ensures !SameEvidence(t, t1) || !SameEvidence(t, t2)
  {
  }

  lemma {:induction false} ReplayTwo(log: seq<Event>, x: Event, y: Event)
    ensures Replay(log + [x] + [y]) == Apply(Apply(Replay(log), x), y)
  {
    assert (log + [x] + [y])[..|log| + 1] == log + [x] && (log + [x])[..|log|] == log;
  }

  /** What was written settles the evidence, whatever the order and repetition, exactly when no listing was
      reported under two communities and no two snapshots disagree at one instant. */
  lemma {:induction false} OrderIrrelevantExactly(a: seq<Event>)
    ensures (forall b :: Elements(b) == Elements(a) ==> SameEvidence(Replay(a), Replay(b)))
            <==> OneCommunity(a) && OneReading(a)
  {
    if OneCommunity(a) && OneReading(a) {
      forall b | Elements(b) == Elements(a) ensures SameEvidence(Replay(a), Replay(b)) {
        OrderIndependence(a, b);
      }
    } else {
      var x, y :| x in a && y in a && Disagree(x, y);
      var _ := OrderShows(a, x, y);
    }
  }
}
