/** The read side of the listing tables: identities, latest snapshots, histories
    (ListingRepository in storage/repositories.py, services/listing_query.py). */
module ListingReads {
  import opened Text
  import opened Orders
  import opened Domain
  import opened ListingStore

  /** WHERE community_id = ? */
  function CommunityIds(t: Tables, c: Id): set<Id> {
    set id | id in t.listings && t.listings[id].communityId == c
  }

  /** JOIN listing ON listing_id, WHERE community_id = ? */
  function JoinedKeys(t: Tables, c: Id): set<SnapshotKey> {
    set k | k in t.snapshots && k.0 in t.listings && t.listings[k.0].communityId == c
  }

  function Instants(t: Tables, id: Id): set<Instant> {
    set k | k in t.snapshots && k.0 == id :: k.1
  }

  function KeysOf(id: Id, instants: seq<Instant>): (r: seq<SnapshotKey>)
    ensures |r| == |instants|
    ensures forall i :: 0 <= i < |r| ==> r[i] == (id, instants[i])
  {
    seq(|instants|, i requires 0 <= i < |instants| => (id, instants[i]))
  }

  // ---- The four queries ----

  /** ORDER BY last_seen_at DESC, listing_id */
  function ListForCommunity(t: Tables, c: Id): seq<Listing> {
    var recency := SortedRecency(set id | id in CommunityIds(t, c) :: (-t.listings[id].lastSeenAt, id));
    assert forall i :: 0 <= i < |recency| ==> recency[i] in Elements(recency);
    Rows(t.listings, Ids(recency))
  }

  /** ORDER BY snapshot_at, for one listing */
  function History(t: Tables, id: Id): seq<ListingSnapshot> {
    var instants := SortedInts(Instants(t, id));
    assert forall i :: 0 <= i < |instants| ==> instants[i] in Elements(instants);
    Rows(t.snapshots, KeysOf(id, instants))
  }

  /** ORDER BY listing_id, snapshot_at, for one community */
  function HistoryForCommunity(t: Tables, c: Id): seq<ListingSnapshot> {
    var keys := SortedKeys(JoinedKeys(t, c));
    assert forall i :: 0 <= i < |keys| ==> keys[i] in Elements(keys);
    Rows(t.snapshots, keys)
  }

  /** row_number() OVER (PARTITION BY listing_id ORDER BY snapshot_at DESC) */
  function RowNumber(t: Tables, k: SnapshotKey): nat {
    1 + |set later | later in t.snapshots && later.0 == k.0 && later.1 > k.1|
  }

  function LatestKeys(t: Tables, c: Id): set<SnapshotKey> {
    set k | k in JoinedKeys(t, c) && RowNumber(t, k) == 1
  }

  lemma RowNumberOne(t: Tables, k: SnapshotKey)
    ensures RowNumber(t, k) == 1 <==> forall later :: later in t.snapshots && later.0 == k.0 ==> later.1 <= k.1
  {
    var s := set later | later in t.snapshots && later.0 == k.0 && later.1 > k.1;
    assert |s| == 0 <==> s == {};
    if RowNumber(t, k) == 1 {
      forall later | later in t.snapshots && later.0 == k.0 ensures later.1 <= k.1 {
        assert later !in s;
      }
    }
  }

  lemma LatestKeysUnique(t: Tables, c: Id)
    ensures forall a, b :: a in LatestKeys(t, c) && b in LatestKeys(t, c) && a.0 == b.0 ==> a == b
  {
    forall a, b | a in LatestKeys(t, c) && b in LatestKeys(t, c) && a.0 == b.0 ensures a == b {
      RowNumberOne(t, a);
      RowNumberOne(t, b);
    }
  }

  function KeyFor(keys: set<SnapshotKey>, id: Id): (k: SnapshotKey)
    requires exists k :: k in keys && k.0 == id
    requires forall a, b :: a in keys && b in keys && a.0 == b.0 ==> a == b
    ensures k in keys && k.0 == id
  {
    var k :| k in keys && k.0 == id;
    k
  }

  /** QUALIFY row_number() = 1, as a dict keyed by listing_id */
  function LatestSnapshots(t: Tables, c: Id): map<Id, ListingSnapshot> {
    LatestKeysUnique(t, c);
    var keys := LatestKeys(t, c);
    map id | id in (set k | k in keys :: k.0) :: t.snapshots[KeyFor(keys, id)]
  }

  /** Every identity of a community with its newest snapshot, if any. */
  datatype CurrentListing = CurrentListing(listing: Listing, latestSnapshot: Option<ListingSnapshot>)

  function CurrentListings(t: Tables, c: Id): (r: seq<CurrentListing>)
    ensures |r| == |ListForCommunity(t, c)|
  {
    var listings := ListForCommunity(t, c);
    var latest := LatestSnapshots(t, c);
    seq(|listings|, i requires 0 <= i < |listings| =>
      CurrentListing(listings[i],
                     if listings[i].listingId in latest then Some(latest[listings[i].listingId]) else None))
  }

  // ---- One listing's history ----

  lemma InstantsExact(t: Tables, id: Id, at: Instant)
    ensures at in Instants(t, id) <==> (id, at) in t.snapshots
  {
    if (id, at) in t.snapshots {
      assert (id, at).0 == id && (id, at).1 == at;
    }
  }

  lemma SameInstantsSameHistory(t1: Tables, t2: Tables, id: Id)
    requires forall at :: (id, at) in t1.snapshots <==> (id, at) in t2.snapshots
    requires forall at :: (id, at) in t1.snapshots ==> t1.snapshots[(id, at)] == t2.snapshots[(id, at)]
    ensures History(t1, id) == History(t2, id)
  {
    forall at ensures at in Instants(t1, id) <==> at in Instants(t2, id) {
      InstantsExact(t1, id, at);
      InstantsExact(t2, id, at);
    }
    assert Instants(t1, id) == Instants(t2, id);
    var instants := SortedInts(Instants(t1, id));
    forall i | 0 <= i < |instants| ensures History(t1, id)[i] == History(t2, id)[i] {
      assert instants[i] in Elements(instants);
      InstantsExact(t1, id, instants[i]);
    }
  }

  lemma HistoryEntry(t: Tables, id: Id, i: nat)
    requires WellKept(t) && i < |History(t, id)|
    ensures var s := History(t, id)[i];
            && s.listingId == id && s.Valid()
            && s.snapshotAt == SortedInts(Instants(t, id))[i]
            && (id, s.snapshotAt) in t.snapshots && t.snapshots[(id, s.snapshotAt)] == s
  {
    var instants := SortedInts(Instants(t, id));
    assert instants[i] in Elements(instants);
    InstantsExact(t, id, instants[i]);
    assert t.snapshots[(id, instants[i])].Key() == (id, instants[i]);
  }

  lemma HistoryAscending(t: Tables, id: Id)
    requires WellKept(t)
    ensures var h := History(t, id); forall i, j :: 0 <= i < j < |h| ==> h[i].snapshotAt < h[j].snapshotAt
  {
    var h := History(t, id);
    var instants := SortedInts(Instants(t, id));
    forall i | 0 <= i < |h| ensures h[i].snapshotAt == instants[i] { HistoryEntry(t, id, i); }
    forall i, j | 0 <= i < j < |h| ensures h[i].snapshotAt < h[j].snapshotAt {
      assert IntLe(instants[i], instants[j]) && instants[i] != instants[j];
    }
  }

  ghost predicate Records(h: seq<ListingSnapshot>, at: Instant) {
    exists i :: 0 <= i < |h| && h[i].snapshotAt == at
  }

  ghost predicate Observed(log: seq<Event>, id: Id, at: Instant) {
    exists e :: e in log && e.SawSnapshot? && e.snapshot.Key() == (id, at)
  }

  lemma {:induction false} StoredExactly(log: seq<Event>, id: Id, at: Instant)
    ensures (id, at) in Replay(log).snapshots <==> Observed(log, id, at)
  {
    ReplayReflects(log);
    LastSnapshotLogged(log, (id, at));
    if Observed(log, id, at) {
      assert LastSnapshot(log, (id, at)).Some?;
    }
    if (id, at) in Replay(log).snapshots {
      assert SawSnapshot(LastSnapshot(log, (id, at)).value).snapshot.Key() == (id, at);
    }
  }

  lemma RecordsStored(t: Tables, id: Id, at: Instant)
    requires WellKept(t)
    ensures Records(History(t, id), at) <==> (id, at) in t.snapshots
  {
    var h := History(t, id);
    var instants := SortedInts(Instants(t, id));
    InstantsExact(t, id, at);
    if Records(h, at) {
      var i :| 0 <= i < |h| && h[i].snapshotAt == at;
      HistoryEntry(t, id, i);
    }
    if at in Elements(instants) {
      var i :| 0 <= i < |instants| && instants[i] == at;
      HistoryEntry(t, id, i);
    }
  }

  lemma {:induction false} RecordsExactly(log: seq<Event>, id: Id, at: Instant)
    requires ValidLog(log)
    ensures Records(History(Replay(log), id), at) <==> Observed(log, id, at)
  {
    ReachableWellKept(log);
    StoredExactly(log, id, at);
    RecordsStored(Replay(log), id, at);
  }

  /** `h` is the record of one listing in a log: strictly increasing in time, one entry per
      instant ever observed, each entry the last snapshot written for its instant. */
  ghost predicate Chronicle(log: seq<Event>, id: Id, h: seq<ListingSnapshot>) {
    && (forall i, j :: 0 <= i < j < |h| ==> h[i].snapshotAt < h[j].snapshotAt)
    && (forall i :: 0 <= i < |h| ==> LastSnapshot(log, (id, h[i].snapshotAt)) == Some(h[i]))
    && (forall at :: Records(h, at) <==> Observed(log, id, at))
  }

  /** Over any run of writes, what is read back as a listing's history is its chronicle. */
  lemma {:induction false} HistoryOfLog(log: seq<Event>, id: Id)
    requires ValidLog(log)
    ensures Chronicle(log, id, History(Replay(log), id))
  {
    var t := Replay(log);
    var h := History(t, id);
    ReachableWellKept(log);
    ReplayReflects(log);
    HistoryAscending(t, id);
    forall i | 0 <= i < |h| ensures LastSnapshot(log, (id, h[i].snapshotAt)) == Some(h[i]) {
      HistoryEntry(t, id, i);
    }
    forall at ensures Records(h, at) <==> Observed(log, id, at) {
      RecordsExactly(log, id, at);
    }
  }

  lemma ObservedLater(log: seq<Event>, more: seq<Event>, id: Id, at: Instant)
    requires Observed(log, id, at)
    ensures Observed(log + more, id, at)
  {
    var e :| e in log && e.SawSnapshot? && e.snapshot.Key() == (id, at);
    assert e in log + more;
  }

  /** No later write removes an instant from a history. */
  lemma {:induction false} HistoryNeverLoses(log: seq<Event>, more: seq<Event>, id: Id, at: Instant)
    requires ValidLog(log) && ValidLog(more)
    requires Records(History(Replay(log), id), at)
    ensures Records(History(Replay(log + more), id), at)
  {
    RecordsExactly(log, id, at);
    ObservedLater(log, more, id, at);
    RecordsExactly(log + more, id, at);
  }

  // ---- The window function against the history ----

  /** The newest snapshot of each listing is the last of its history; listings without one are absent. */
  lemma LatestIsLastOfHistory(t: Tables, c: Id, id: Id)
    requires WellKept(t)
    ensures id in LatestSnapshots(t, c) <==> id in CommunityIds(t, c) && History(t, id) != []
    ensures id in LatestSnapshots(t, c) ==>
              var h := History(t, id); h != [] && LatestSnapshots(t, c)[id] == h[|h| - 1]
  {
    var h := History(t, id);
    LatestKeysUnique(t, c);
    if id in CommunityIds(t, c) && h != [] {
      NewestRow(t, id);
      var k := h[|h| - 1].Key();
      assert k in LatestKeys(t, c);
      assert k.0 == id && LatestSnapshots(t, c)[id] == t.snapshots[k];
    }
    if id in LatestSnapshots(t, c) {
      var k :| k in LatestKeys(t, c) && k.0 == id;
      InstantsExact(t, id, k.1);
      assert k == (id, k.1);
      assert |Instants(t, id)| > 0;
    }
  }

  lemma NewestRow(t: Tables, id: Id)
    requires WellKept(t) && History(t, id) != []
    ensures var h := History(t, id);
            var k := h[|h| - 1].Key();
            k.0 == id && k in t.snapshots && RowNumber(t, k) == 1 && t.snapshots[k] == h[|h| - 1]
  {
    var h := History(t, id);
    var instants := SortedInts(Instants(t, id));
    HistoryEntry(t, id, |h| - 1);
    var k := h[|h| - 1].Key();
    forall later | later in t.snapshots && later.0 == k.0 ensures later.1 <= k.1 {
      InstantsExact(t, id, later.1);
      assert later == (id, later.1);
      assert later.1 in Elements(instants);
      var j :| 0 <= j < |instants| && instants[j] == later.1;
      assert j == |h| - 1 || IntLe(instants[j], instants[|h| - 1]);
    }
    RowNumberOne(t, k);
  }

  // ---- The community history against the listings' histories ----

  function Histories(t: Tables, ids: seq<Id>): seq<ListingSnapshot> {
    if ids == [] then [] else History(t, ids[0]) + Histories(t, ids[1..])
  }

  ghost function HistoryKeys(t: Tables, ids: seq<Id>): seq<SnapshotKey> {
    if ids == [] then [] else KeysOf(ids[0], SortedInts(Instants(t, ids[0]))) + HistoryKeys(t, ids[1..])
  }

  lemma BlockKeys(t: Tables, id: Id)
    ensures var ks := KeysOf(id, SortedInts(Instants(t, id)));
            && Sorted(StrIntLe, ks) && Distinct(ks)
            && (forall k :: k in ks <==> k in t.snapshots && k.0 == id)
  {
    var instants := SortedInts(Instants(t, id));
    var ks := KeysOf(id, instants);
    forall k ensures k in ks <==> k in t.snapshots && k.0 == id {
      InstantsExact(t, id, k.1);
      assert k.1 in instants <==> k.1 in Elements(instants);
      if k in t.snapshots && k.0 == id {
        var i :| 0 <= i < |instants| && instants[i] == k.1;
        assert ks[i] == k;
      }
    }
    forall i, j | 0 <= i < j < |ks| ensures StrIntLe(ks[i], ks[j]) {
      assert IntLe(instants[i], instants[j]);
    }
  }

  lemma LaterBlock(t: Tables, ids: seq<Id>, a: SnapshotKey, b: SnapshotKey)
    requires Sorted(StrLe, ids) && Distinct(ids) && ids != []
    requires a.0 == ids[0] && b.0 in ids[1..]
    ensures StrIntLe(a, b) && a != b
  {
    var n :| 0 <= n < |ids[1..]| && ids[1..][n] == b.0;
    assert ids[n + 1] == b.0;
  }

  lemma OrderedAppend<T>(le: (T, T) -> bool, a: seq<T>, b: seq<T>)
    requires Sorted(le, a) && Sorted(le, b) && Distinct(a) && Distinct(b)
    requires forall x, y :: x in a && y in b ==> le(x, y) && x != y
    ensures Sorted(le, a + b) && Distinct(a + b)
  {
  }

  lemma {:induction false} HistoryKeysOrdered(t: Tables, ids: seq<Id>)
    requires Sorted(StrLe, ids) && Distinct(ids)
    ensures Sorted(StrIntLe, HistoryKeys(t, ids)) && Distinct(HistoryKeys(t, ids))
    ensures forall k :: k in HistoryKeys(t, ids) <==> k in t.snapshots && k.0 in ids
  {
    if ids == [] {
    } else {
      var block, rest := KeysOf(ids[0], SortedInts(Instants(t, ids[0]))), HistoryKeys(t, ids[1..]);
      BlockKeys(t, ids[0]);
      HistoryKeysOrdered(t, ids[1..]);
      forall a, b | a in block && b in rest ensures StrIntLe(a, b) && a != b {
        LaterBlock(t, ids, a, b);
      }
      OrderedAppend(StrIntLe, block, rest);
      forall k ensures k in block + rest <==> k in t.snapshots && k.0 in ids {
        assert k.0 in ids <==> k.0 == ids[0] || k.0 in ids[1..];
      }
    }
  }

  lemma {:induction false} RowsAppend<K, V>(table: map<K, V>, a: seq<K>, b: seq<K>)
    requires forall k :: k in a ==> k in table
    requires forall k :: k in b ==> k in table
    ensures Rows(table, a + b) == Rows(table, a) + Rows(table, b)
  {
    var r, s := Rows(table, a + b), Rows(table, a) + Rows(table, b);
    forall i | 0 <= i < |r| ensures r[i] == s[i] {
    }
  }

  lemma {:induction false} HistoriesAreRows(t: Tables, ids: seq<Id>)
    ensures forall k :: k in HistoryKeys(t, ids) ==> k in t.snapshots
    ensures Histories(t, ids) == Rows(t.snapshots, HistoryKeys(t, ids))
  {
    if ids == [] {
    } else {
      HistoriesAreRows(t, ids[1..]);
      BlockKeys(t, ids[0]);
      RowsAppend(t.snapshots, KeysOf(ids[0], SortedInts(Instants(t, ids[0]))), HistoryKeys(t, ids[1..]));
    }
  }

  /** The community query returns the listings' histories one after another, in id order. */
  lemma {:induction false} CommunityHistoryIsConcatenation(t: Tables, c: Id)
    ensures HistoryForCommunity(t, c) == Histories(t, SortedIds(CommunityIds(t, c)))
  {
    var ids := SortedIds(CommunityIds(t, c));
    var keys := HistoryKeys(t, ids);
    HistoryKeysOrdered(t, ids);
    HistoriesAreRows(t, ids);
    assert Elements(keys) == JoinedKeys(t, c) by {
      forall k ensures k in keys <==> k in JoinedKeys(t, c) {
        assert k.0 in ids <==> k.0 in Elements(ids);
      }
    }
    OrdersAreTotal();
    EnumerateUnique(StrIntLe, JoinedKeys(t, c), keys);
  }
}
