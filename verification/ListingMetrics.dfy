/** Inventory and repricing metrics over listing evidence (analytics/listing_metrics.py). */
module ListingMetrics {
  import opened Text
  import opened Orders
  import opened Sequences
  import opened Statistics
  import opened Domain
  import opened ListingStore
  import opened ListingReads

  datatype StatusCount = StatusCount(status: ListingStatus, count: nat)

  datatype CommunityListingMetrics = CommunityListingMetrics(
    communityId: Id,
    minimumSampleCount: int,
    listingCount: nat,
    snapshotCount: nat,
    observedListingCount: nat,
    identityOnlyListingCount: int,
    latestSnapshotAt: Option<Instant>,
    currentStatusCounts: seq<StatusCount>,
    activeListingCount: nat,
    medianActiveListPriceCny: MedianMetric,
    medianActiveUnitPriceCnySqm: MedianMetric,
    repricingObservableCount: nat,
    priceCutCount: nat,
    priceIncreaseCount: nat,
    unchangedPriceCount: int,
    priceCutShare: Option<real>,
    medianPriceChangeRatio: MedianMetric,
    listingIds: seq<Id>,
    latestSnapshotSources: seq<string>)

  datatype MetricsError =
    | InvalidMinimum
    | BlankCommunity
    | ForeignListings(communities: set<Id>)
    | RepeatedListings(ids: set<Id>)
    | UnknownSnapshots(ids: set<Id>)
    | ConflictingSnapshots(keys: set<SnapshotKey>)

  datatype Outcome<+T> = Computed(value: T) | Invalid(error: MetricsError)

  // ---- Histories of a set of observations ----

  type Evidence = map<SnapshotKey, ListingSnapshot>

  /** Each observation sits under its own key and has passed the canonical model. */
  ghost predicate WellKeyed(obs: Evidence) {
    forall k :: k in obs ==> obs[k].Key() == k && obs[k].Valid()
  }

  function ObservedIds(obs: Evidence): set<Id> {
    set k | k in obs :: k.0
  }

  function ObservedInstants(obs: Evidence): set<Instant> {
    set k | k in obs :: k.1
  }

  function HistoryIn(obs: Evidence, id: Id): seq<ListingSnapshot> {
    History(Tables(map[], obs), id)
  }

  /** Each observed listing's history, in id order. */
  function OrderedHistories(obs: Evidence): (r: seq<seq<ListingSnapshot>>)
    ensures |r| == |ObservedIds(obs)|
  {
    HistoriesFor(obs, SortedIds(ObservedIds(obs)))
  }

  function HistoriesFor(obs: Evidence, ids: seq<Id>): (r: seq<seq<ListingSnapshot>>)
    ensures |r| == |ids|
    ensures forall i :: 0 <= i < |ids| ==> r[i] == HistoryIn(obs, ids[i])
  {
    seq(|ids|, i requires 0 <= i < |ids| => HistoryIn(obs, ids[i]))
  }

  ghost predicate Priced(h: seq<ListingSnapshot>) {
    h != [] && forall s :: s in h ==> s.listPriceCny > 0.0
  }

  ghost predicate AllPriced(hs: seq<seq<ListingSnapshot>>) {
    forall i :: 0 <= i < |hs| ==> Priced(hs[i])
  }

  lemma ObservedHistory(obs: Evidence, id: Id)
    requires WellKeyed(obs) && id in ObservedIds(obs)
    ensures Priced(HistoryIn(obs, id))
    ensures forall s :: s in HistoryIn(obs, id) ==> s.listingId == id && s.Valid()
  {
    var t := Tables(map[], obs);
    var k :| k in obs && k.0 == id;
    InstantsExact(t, id, k.1);
    assert k == (id, k.1) && |Instants(t, id)| > 0;
    forall i | 0 <= i < |History(t, id)|
      ensures History(t, id)[i].listingId == id && History(t, id)[i].Valid()
    {
      HistoryEntry(t, id, i);
    }
  }

  lemma HistoriesPriced(obs: Evidence)
    requires WellKeyed(obs)
    ensures AllPriced(OrderedHistories(obs))
  {
    var ids := SortedIds(ObservedIds(obs));
    var hs := OrderedHistories(obs);
    forall i | 0 <= i < |ids| ensures Priced(hs[i]) {
      assert ids[i] in Elements(ids);
      ObservedHistory(obs, ids[i]);
      assert hs[i] == HistoryIn(obs, ids[i]);
    }
  }

  // ---- The metrics over those histories ----

  function Latest(hs: seq<seq<ListingSnapshot>>): (r: seq<ListingSnapshot>)
    requires AllPriced(hs)
    ensures |r| == |hs|
    ensures forall i :: 0 <= i < |r| ==> r[i] == hs[i][|hs[i]| - 1]
  {
    seq(|hs|, i requires 0 <= i < |hs| => hs[i][|hs[i]| - 1])
  }

  /** (latest - earliest) / earliest */
  function PriceChangeRatio(h: seq<ListingSnapshot>): real
    requires Priced(h)
  {
    var earliest, latest := h[0].listPriceCny, h[|h| - 1].listPriceCny;
    (latest - earliest) / earliest
  }

  function Changes(hs: seq<seq<ListingSnapshot>>): seq<real>
    requires AllPriced(hs)
  {
    if hs == [] then []
    else (if |hs[0]| > 1 then [PriceChangeRatio(hs[0])] else []) + Changes(hs[1..])
  }

  predicate IsActive(s: ListingSnapshot) { s.status == ACTIVE }

  predicate HasUnitPrice(s: ListingSnapshot) { s.unitPriceCnySqm.Some? }

  predicate IsCut(ratio: real) { ratio < 0.0 }

  predicate IsIncrease(ratio: real) { ratio > 0.0 }

  function ListPrice(s: ListingSnapshot): real { s.listPriceCny }

  function UnitPrice(s: ListingSnapshot): real {
    if s.unitPriceCnySqm.Some? then s.unitPriceCnySqm.value else 0.0
  }

  const STATUSES := [ACTIVE, SOLD, WITHDRAWN, OFF_MARKET, UNKNOWN]

  function CountStatus(status: ListingStatus, latest: seq<ListingSnapshot>): nat {
    Count((s: ListingSnapshot) => s.status == status, latest)
  }

  /** Tally in enumeration order, without the statuses nobody is in. */
  function StatusCounts(statuses: seq<ListingStatus>, latest: seq<ListingSnapshot>): seq<StatusCount> {
    if statuses == [] then []
    else
      var n := CountStatus(statuses[0], latest);
      (if n > 0 then [StatusCount(statuses[0], n)] else []) + StatusCounts(statuses[1..], latest)
  }

  function SumLengths(hs: seq<seq<ListingSnapshot>>): nat {
    if hs == [] then 0 else |hs[0]| + SumLengths(hs[1..])
  }

  function LatestInstant(latest: seq<ListingSnapshot>): Option<Instant> {
    if latest == [] then None
    else
      match LatestInstant(latest[1..])
      case None => Some(latest[0].snapshotAt)
      case Some(at) => Some(Max(latest[0].snapshotAt, at))
  }

  function Share(part: nat, whole: nat): real
    requires whole > 0
  {
    part as real / whole as real
  }

  function Summary(c: Id, minimum: int, ids: set<Id>, hs: seq<seq<ListingSnapshot>>): CommunityListingMetrics
    requires minimum >= 1 && AllPriced(hs)
  {
    var latest := Latest(hs);
    var active := Filter(IsActive, latest);
    var changes := Changes(hs);
    var cuts := Count(IsCut, changes);
    var increases := Count(IsIncrease, changes);
    CommunityListingMetrics(
      c, minimum, |ids|, SumLengths(hs), |hs|, |ids| - |hs|,
      LatestInstant(latest),
      StatusCounts(STATUSES, latest),
      |active|,
      MedianOf(Map(ListPrice, active), minimum),
      MedianOf(Map(UnitPrice, Filter(HasUnitPrice, active)), minimum),
      |changes|, cuts, increases, |changes| - cuts - increases,
      if changes != [] then Some(Share(cuts, |changes|)) else None,
      MedianOf(changes, minimum),
      SortedIds(ids),
      SortedIds(set s | s in latest :: s.source))
  }

  // ---- What the outcome depends on: a multiset of listings and a set of snapshots ----

  function IdsIn(listings: multiset<Listing>): set<Id> {
    set l | l in listings :: l.listingId
  }

  function ForeignIn(listings: multiset<Listing>, c: Id): set<Id> {
    set l | l in listings && l.communityId != c :: l.communityId
  }

  function RepeatedIn(listings: multiset<Listing>): set<Id> {
    set l, l' | l in listings && l' in listings && l.listingId == l'.listingId && (l != l' || listings[l] > 1)
      :: l.listingId
  }

  function UnknownIn(snapshots: set<ListingSnapshot>, ids: set<Id>): set<Id> {
    set s | s in snapshots && s.listingId !in ids :: s.listingId
  }

  /** The keys at which some two supplied snapshots disagree. */
  function ConflictsIn(snapshots: set<ListingSnapshot>, ids: set<Id>): set<SnapshotKey> {
    set s, s' | s in snapshots && s' in snapshots && s.Key() == s'.Key() && s != s' && s.listingId in ids :: s.Key()
  }

  ghost predicate Agreeing(snapshots: set<ListingSnapshot>) {
    forall s, s' :: s in snapshots && s' in snapshots && s.Key() == s'.Key() ==> s == s'
  }

  function EvidenceOf(snapshots: set<ListingSnapshot>): (obs: Evidence)
    requires Agreeing(snapshots)
    ensures forall s :: s in snapshots ==> s.Key() in obs && obs[s.Key()] == s
    ensures forall k :: k in obs ==> obs[k] in snapshots && obs[k].Key() == k
  {
    map k | k in (set s | s in snapshots :: s.Key()) :: SnapshotAt(snapshots, k)
  }

  function SnapshotAt(snapshots: set<ListingSnapshot>, k: SnapshotKey): (s: ListingSnapshot)
    requires Agreeing(snapshots) && exists s :: s in snapshots && s.Key() == k
    ensures s in snapshots && s.Key() == k
  {
    var s :| s in snapshots && s.Key() == k;
    s
  }

  ghost predicate AllValid(snapshots: set<ListingSnapshot>) {
    forall s :: s in snapshots ==> s.Valid()
  }

  lemma NoConflictsAgree(snapshots: set<ListingSnapshot>, ids: set<Id>)
    requires UnknownIn(snapshots, ids) == {} && ConflictsIn(snapshots, ids) == {}
    ensures Agreeing(snapshots)
  {
    forall s, s' | s in snapshots && s' in snapshots && s.Key() == s'.Key() ensures s == s' {
      assert s.listingId in ids by { assert s.listingId !in UnknownIn(snapshots, ids); }
      assert s.Key() !in ConflictsIn(snapshots, ids);
    }
  }

  /** The outcome, with its error kind and named ids, as a function of the evidence alone. */
  function Assess(listings: multiset<Listing>, snapshots: set<ListingSnapshot>, c: Id, minimum: int)
    : Outcome<CommunityListingMetrics>
    requires AllValid(snapshots)
  {
    var ids := IdsIn(listings);
    if minimum < 1 then Invalid(InvalidMinimum)
    else if Strip(c) == "" then Invalid(BlankCommunity)
    else if ForeignIn(listings, c) != {} then Invalid(ForeignListings(ForeignIn(listings, c)))
    else if RepeatedIn(listings) != {} then Invalid(RepeatedListings(RepeatedIn(listings)))
    else AssessSnapshots(ids, snapshots, c, minimum)
  }

  function AssessSnapshots(ids: set<Id>, snapshots: set<ListingSnapshot>, c: Id, minimum: int)
    : Outcome<CommunityListingMetrics>
    requires AllValid(snapshots) && minimum >= 1
  {
    if UnknownIn(snapshots, ids) != {} then Invalid(UnknownSnapshots(UnknownIn(snapshots, ids)))
    else if ConflictsIn(snapshots, ids) != {} then Invalid(ConflictingSnapshots(ConflictsIn(snapshots, ids)))
    else
      NoConflictsAgree(snapshots, ids);
      HistoriesPriced(EvidenceOf(snapshots));
      Computed(Summary(c, minimum, ids, OrderedHistories(EvidenceOf(snapshots))))
  }

  // ---- Repeated listings ----

  lemma SameIdentities(a: multiset<Listing>, b: multiset<Listing>, c: Id)
    requires forall l :: l in a <==> l in b
    ensures IdsIn(a) == IdsIn(b) && ForeignIn(a, c) == ForeignIn(b, c)
  {
  }

  /** The set of listings does not settle the outcome: over the same listings and snapshots it is the same
      exactly when the call is refused earlier or the same identifiers are repeated. */
  lemma SetSufficesExactly(a: seq<Listing>, b: seq<Listing>, snapshots: set<ListingSnapshot>, c: Id, minimum: int)
    requires Elements(a) == Elements(b) && AllValid(snapshots)
    ensures Assess(multiset(a), snapshots, c, minimum) == Assess(multiset(b), snapshots, c, minimum)
            <==> minimum < 1 || Strip(c) == "" || ForeignIn(multiset(a), c) != {}
                 || RepeatedIn(multiset(a)) == RepeatedIn(multiset(b))
  {
    assert forall l :: l in multiset(a) <==> l in Elements(a);
    assert forall l :: l in multiset(b) <==> l in Elements(b);
    SameIdentities(multiset(a), multiset(b), c);
    RepeatsDecide(multiset(a), multiset(b), snapshots, c, minimum);
  }

  lemma RepeatsDecide(a: multiset<Listing>, b: multiset<Listing>, snapshots: set<ListingSnapshot>, c: Id, minimum: int)
    requires IdsIn(a) == IdsIn(b) && ForeignIn(a, c) == ForeignIn(b, c) && AllValid(snapshots)
    ensures Assess(a, snapshots, c, minimum) == Assess(b, snapshots, c, minimum)
            <==> minimum < 1 || Strip(c) == "" || ForeignIn(a, c) != {} || RepeatedIn(a) == RepeatedIn(b)
  {
    if minimum >= 1 {
      NeverRepeated(IdsIn(a), snapshots, c, minimum);
    }
  }

  lemma NeverRepeated(ids: set<Id>, snapshots: set<ListingSnapshot>, c: Id, minimum: int)
    requires AllValid(snapshots) && minimum >= 1
    ensures var r := AssessSnapshots(ids, snapshots, c, minimum); r.Invalid? ==> !r.error.RepeatedListings?
  {
  }

  /** A listing supplied twice is refused, though the set of listings is the accepted one. */
  lemma TwiceRefused(l: Listing, c: Id)
    requires l.communityId == c && Strip(c) != ""
    ensures Elements([l]) == Elements([l, l])
    ensures Assess(multiset([l]), {}, c, MINIMUM_SAMPLE_COUNT).Computed?
    ensures Assess(multiset([l, l]), {}, c, MINIMUM_SAMPLE_COUNT) == Invalid(RepeatedListings({l.listingId}))
  {
    var once, twice := multiset([l]), multiset([l, l]);
    assert once == multiset{l} && twice == multiset{l, l} && twice[l] == 2;
    assert ForeignIn(once, c) == {} && ForeignIn(twice, c) == {};
    assert RepeatedIn(once) == {};
    assert l in twice && l.listingId in RepeatedIn(twice);
    assert RepeatedIn(twice) == {l.listingId};
    assert UnknownIn({}, IdsIn(once)) == {} && ConflictsIn({}, IdsIn(once)) == {};
  }

  // ---- The computation itself ----

  lemma RepeatedGrows(listings: multiset<Listing>, l: Listing)
    ensures RepeatedIn(listings + multiset{l}) ==
            RepeatedIn(listings) + (if l.listingId in IdsIn(listings) then {l.listingId} else {})
  {
    var more := listings + multiset{l};
    forall id | id in RepeatedIn(more)
      ensures id in RepeatedIn(listings) || (id == l.listingId && id in IdsIn(listings))
    {
      var a, b :| a in more && b in more && a.listingId == b.listingId == id && (a != b || more[a] > 1);
      assert (a in listings || a == l) && (b in listings || b == l);
    }
    forall id | id in RepeatedIn(listings) ensures id in RepeatedIn(more) {
      var a, b :| a in listings && b in listings && a.listingId == b.listingId == id && (a != b || listings[a] > 1);
      assert a in more && b in more && more[a] >= listings[a];
    }
    if l.listingId in IdsIn(listings) {
      var a :| a in listings && a.listingId == l.listingId;
      assert a in more && l in more && (a != l || more[a] > 1);
    }
  }

  lemma MultisetGrows(listings: multiset<Listing>, l: Listing, c: Id)
    ensures IdsIn(listings + multiset{l}) == IdsIn(listings) + {l.listingId}
    ensures ForeignIn(listings + multiset{l}, c) ==
            ForeignIn(listings, c) + (if l.communityId != c then {l.communityId} else {})
  {
    assert forall x :: x in listings + multiset{l} <==> x in listings || x == l;
  }

  /** What the indexing loop knows of the listings seen so far. */
  ghost predicate Indexes(identities: map<Id, Listing>, foreign: set<Id>, repeated: set<Id>,
                          listings: multiset<Listing>, c: Id) {
    identities.Keys == IdsIn(listings) && foreign == ForeignIn(listings, c) && repeated == RepeatedIn(listings)
  }

  lemma IndexStep(identities: map<Id, Listing>, foreign: set<Id>, repeated: set<Id>,
                  listings: seq<Listing>, i: nat, c: Id)
    requires i < |listings| && Indexes(identities, foreign, repeated, multiset(listings[..i]), c)
    ensures var l := listings[i];
            Indexes(identities[l.listingId := l],
                    if l.communityId != c then foreign + {l.communityId} else foreign,
                    if l.listingId in identities then repeated + {l.listingId} else repeated,
                    multiset(listings[..i + 1]), c)
  {
    PrefixGrows(listings, i);
    MultisetGrows(multiset(listings[..i]), listings[i], c);
    RepeatedGrows(multiset(listings[..i]), listings[i]);
  }

  method IndexListings(listings: seq<Listing>, c: Id) returns (r: Outcome<map<Id, Listing>>)
    ensures var bag := multiset(listings);
            if ForeignIn(bag, c) != {} then r == Invalid(ForeignListings(ForeignIn(bag, c)))
            else if RepeatedIn(bag) != {} then r == Invalid(RepeatedListings(RepeatedIn(bag)))
            else r.Computed? && r.value.Keys == IdsIn(bag)
  {
    var identities: map<Id, Listing> := map[];
    var foreign: set<Id>, repeated: set<Id> := {}, {};
    for i := 0 to |listings|
      invariant Indexes(identities, foreign, repeated, multiset(listings[..i]), c)
    {
      var listing := listings[i];
      IndexStep(identities, foreign, repeated, listings, i, c);
      if listing.communityId != c {
        foreign := foreign + {listing.communityId};
      }
      if listing.listingId in identities {
        repeated := repeated + {listing.listingId};
      }
      identities := identities[listing.listingId := listing];
    }
    assert listings[..|listings|] == listings;
    if foreign != {} {
      return Invalid(ForeignListings(foreign));
    }
    if repeated != {} {
      return Invalid(RepeatedListings(repeated));
    }
    return Computed(identities);
  }

  type Grouped = map<Id, map<Instant, ListingSnapshot>>

  /** `grouped` holds, for each known listing, one of the supplied snapshots per instant. */
  ghost predicate Groups(grouped: Grouped, snapshots: set<ListingSnapshot>, ids: set<Id>) {
    && (forall s :: s in snapshots && s.listingId in ids ==>
          s.listingId in grouped && s.snapshotAt in grouped[s.listingId])
    && (forall id :: id in grouped ==> id in ids && grouped[id] != map[])
    && (forall id, at :: id in grouped && at in grouped[id] ==>
          grouped[id][at] in snapshots && grouped[id][at].Key() == (id, at))
  }

  lemma SetGrows(snapshots: set<ListingSnapshot>, s: ListingSnapshot, ids: set<Id>)
    ensures UnknownIn(snapshots + {s}, ids) == UnknownIn(snapshots, ids) + (if s.listingId in ids then {} else {s.listingId})
    ensures s.listingId !in ids ==> ConflictsIn(snapshots + {s}, ids) == ConflictsIn(snapshots, ids)
  {
    if s.listingId !in ids {
      forall k ensures k in ConflictsIn(snapshots + {s}, ids) <==> k in ConflictsIn(snapshots, ids) {
      }
    }
  }

  /** Comparing a snapshot only with the one kept at its key finds a conflict
      exactly when it disagrees with some snapshot seen there. */
  lemma ConflictStep(grouped: Grouped, snapshots: set<ListingSnapshot>, s: ListingSnapshot, ids: set<Id>)
    requires Groups(grouped, snapshots, ids) && s.listingId in ids
    ensures var kept := s.listingId in grouped && s.snapshotAt in grouped[s.listingId];
            ConflictsIn(snapshots + {s}, ids) ==
            ConflictsIn(snapshots, ids)
            + (if kept && grouped[s.listingId][s.snapshotAt] != s then {s.Key()} else {})
  {
    var kept := s.listingId in grouped && s.snapshotAt in grouped[s.listingId];
    var more := snapshots + {s};
    forall k ensures k in ConflictsIn(more, ids) <==>
      k in ConflictsIn(snapshots, ids) || (k == s.Key() && kept && grouped[s.listingId][s.snapshotAt] != s)
    {
      if k in ConflictsIn(more, ids) && k !in ConflictsIn(snapshots, ids) {
        var a, b :| a in more && b in more && a.Key() == b.Key() == k && a != b && a.listingId in ids;
        assert !(a in snapshots && b in snapshots);
        var other := if a == s then b else a;
        assert other in snapshots && other.Key() == s.Key() == k && other != s;
        assert kept;
        var first := grouped[s.listingId][s.snapshotAt];
        assert first in snapshots && first.Key() == k;
        assert first == s ==> k in ConflictsIn(snapshots, ids);
      }
      if k == s.Key() && kept && grouped[s.listingId][s.snapshotAt] != s {
        assert grouped[s.listingId][s.snapshotAt] in more && s in more;
      }
    }
  }

  function SortedRows(history: map<Instant, ListingSnapshot>): seq<ListingSnapshot> {
    var instants := SortedInts(history.Keys);
    assert forall at :: at in instants <==> at in Elements(instants);
    Rows(history, instants)
  }

  lemma SameHistory(obs: Evidence, group: map<Instant, ListingSnapshot>, id: Id)
    requires forall at :: at in group <==> (id, at) in obs
    requires forall at :: at in group ==> group[at] == obs[(id, at)]
    ensures SortedRows(group) == HistoryIn(obs, id)
  {
    var t := Tables(map[], obs);
    assert group.Keys == Instants(t, id) by {
      forall at ensures at in group.Keys <==> at in Instants(t, id) {
        InstantsExact(t, id, at);
      }
    }
    assert forall at :: at in SortedInts(group.Keys) <==> at in Elements(SortedInts(group.Keys));
    RowsOfGroup(obs, group, id, SortedInts(group.Keys));
  }

  lemma {:induction false} RowsOfGroup(obs: Evidence, group: map<Instant, ListingSnapshot>, id: Id,
                                      instants: seq<Instant>)
    requires forall at :: at in instants ==> at in group && (id, at) in obs && group[at] == obs[(id, at)]
    ensures forall k :: k in KeysOf(id, instants) ==> k in obs
    ensures Rows(group, instants) == Rows(obs, KeysOf(id, instants))
  {
    var keys := KeysOf(id, instants);
    forall k | k in keys ensures k in obs {
      var i :| 0 <= i < |keys| && keys[i] == k;
      var at := instants[i];
      assert at in instants && (id, at) in obs;
    }
    var a, b := Rows(group, instants), Rows(obs, keys);
    forall i | 0 <= i < |instants| ensures a[i] == b[i] {
      var at := instants[i];
      assert at in instants && keys[i] == (id, at) && keys[i] in obs;
    }
  }

  /** The groups hold the evidence, split by listing. */
  ghost predicate Splits(grouped: Grouped, obs: Evidence) {
    && (forall id :: id in grouped ==> grouped[id] != map[])
    && (forall id, at :: id in grouped && at in grouped[id] <==> (id, at) in obs)
    && (forall id, at :: id in grouped && at in grouped[id] ==> grouped[id][at] == obs[(id, at)])
  }

  lemma GroupEntry(grouped: Grouped, snapshots: set<ListingSnapshot>, ids: set<Id>, id: Id, at: Instant)
    requires Groups(grouped, snapshots, ids) && Agreeing(snapshots) && UnknownIn(snapshots, ids) == {}
    ensures id in grouped && at in grouped[id] <==> (id, at) in EvidenceOf(snapshots)
    ensures id in grouped && at in grouped[id] ==> grouped[id][at] == EvidenceOf(snapshots)[(id, at)]
  {
    var obs := EvidenceOf(snapshots);
    if (id, at) in obs {
      assert obs[(id, at)].listingId !in UnknownIn(snapshots, ids);
    }
    if id in grouped && at in grouped[id] {
      assert grouped[id][at].Key() in obs;
    }
  }

  lemma GroupsSplit(grouped: Grouped, snapshots: set<ListingSnapshot>, ids: set<Id>)
    requires Groups(grouped, snapshots, ids) && Agreeing(snapshots) && UnknownIn(snapshots, ids) == {}
    ensures Splits(grouped, EvidenceOf(snapshots))
  {
    var obs := EvidenceOf(snapshots);
    forall id, at
      ensures id in grouped && at in grouped[id] <==> (id, at) in obs
      ensures id in grouped && at in grouped[id] ==> grouped[id][at] == obs[(id, at)]
    {
      GroupEntry(grouped, snapshots, ids, id, at);
    }
  }

  lemma SomeKey<K, V>(m: map<K, V>) returns (k: K)
    requires m != map[]
    ensures k in m
  {
    assert m.Keys == {} ==> m == map[];
    k :| k in m.Keys;
  }

  lemma GroupedIds(grouped: Grouped, obs: Evidence)
    requires Splits(grouped, obs)
    ensures grouped.Keys == ObservedIds(obs)
  {
    forall id | id in grouped ensures id in ObservedIds(obs) {
      var at := SomeKey(grouped[id]);
      assert (id, at) in obs && (id, at).0 == id;
    }
    forall id | id in ObservedIds(obs) ensures id in grouped {
      var k :| k in obs && k.0 == id;
      var at := k.1;
      assert k == (id, at) && (id, at) in obs;
    }
  }

  lemma GroupHistory(grouped: Grouped, obs: Evidence, id: Id)
    requires Splits(grouped, obs) && id in grouped
    ensures SortedRows(grouped[id]) == HistoryIn(obs, id)
  {
    SameHistory(obs, grouped[id], id);
  }

  function HistoriesOf(grouped: Grouped, order: seq<Id>): (r: seq<seq<ListingSnapshot>>)
    requires forall i :: 0 <= i < |order| ==> order[i] in grouped
    ensures |r| == |order|
    ensures forall i :: 0 <= i < |order| ==> r[i] == SortedRows(grouped[order[i]])
  {
    seq(|order|, i requires 0 <= i < |order| => SortedRows(grouped[order[i]]))
  }

  lemma HistoriesMatch(grouped: Grouped, obs: Evidence, order: seq<Id>)
    requires Splits(grouped, obs) && forall i :: 0 <= i < |order| ==> order[i] in grouped
    ensures HistoriesOf(grouped, order) == HistoriesFor(obs, order)
  {
    forall i | 0 <= i < |order| ensures HistoriesOf(grouped, order)[i] == HistoriesFor(obs, order)[i] {
      GroupHistory(grouped, obs, order[i]);
    }
  }

  /** What `setdefault` leaves in the group of a known snapshot. */
  function Regroup(grouped: Grouped, s: ListingSnapshot): Grouped {
    var history := if s.listingId in grouped then grouped[s.listingId] else map[];
    grouped[s.listingId := if s.snapshotAt in history then history else history[s.snapshotAt := s]]
  }

  lemma RegroupGroups(grouped: Grouped, snapshots: set<ListingSnapshot>, s: ListingSnapshot, ids: set<Id>)
    requires Groups(grouped, snapshots, ids)
    ensures s.listingId in ids ==> Groups(Regroup(grouped, s), snapshots + {s}, ids)
    ensures s.listingId !in ids ==> Groups(grouped, snapshots + {s}, ids)
  {
  }

  lemma SetStep(snapshots: seq<ListingSnapshot>, i: nat)
    requires i < |snapshots|
    ensures Elements(snapshots[..i + 1]) == Elements(snapshots[..i]) + {snapshots[i]}
  {
    assert snapshots[..i + 1] == snapshots[..i] + [snapshots[i]];
  }

  /** What the grouping loop knows of the snapshots seen so far. */
  ghost predicate Grouping(grouped: Grouped, unknown: set<Id>, conflicting: set<SnapshotKey>,
                           snapshots: set<ListingSnapshot>, ids: set<Id>) {
    && unknown == UnknownIn(snapshots, ids) && conflicting == ConflictsIn(snapshots, ids)
    && Groups(grouped, snapshots, ids)
  }

  lemma GroupingUnknown(grouped: Grouped, unknown: set<Id>, conflicting: set<SnapshotKey>,
                        snapshots: set<ListingSnapshot>, s: ListingSnapshot, ids: set<Id>)
    requires Grouping(grouped, unknown, conflicting, snapshots, ids) && s.listingId !in ids
    ensures Grouping(grouped, unknown + {s.listingId}, conflicting, snapshots + {s}, ids)
  {
    SetGrows(snapshots, s, ids);
    RegroupGroups(grouped, snapshots, s, ids);
  }

  lemma GroupingKnown(grouped: Grouped, unknown: set<Id>, conflicting: set<SnapshotKey>,
                      snapshots: set<ListingSnapshot>, s: ListingSnapshot, ids: set<Id>)
    requires Grouping(grouped, unknown, conflicting, snapshots, ids) && s.listingId in ids
    ensures var kept := s.listingId in grouped && s.snapshotAt in grouped[s.listingId];
            Grouping(Regroup(grouped, s), unknown,
                     conflicting + (if kept && grouped[s.listingId][s.snapshotAt] != s then {s.Key()} else {}),
                     snapshots + {s}, ids)
  {
    SetGrows(snapshots, s, ids);
    RegroupGroups(grouped, snapshots, s, ids);
    ConflictStep(grouped, snapshots, s, ids);
  }

  lemma GroupedOrder(grouped: Grouped)
    ensures forall i :: 0 <= i < |SortedIds(grouped.Keys)| ==> SortedIds(grouped.Keys)[i] in grouped
  {
    var order := SortedIds(grouped.Keys);
    assert forall i :: 0 <= i < |order| ==> order[i] in Elements(order);
  }

  lemma SplitHistories(grouped: Grouped, obs: Evidence, order: seq<Id>)
    requires Splits(grouped, obs) && order == SortedIds(grouped.Keys)
    requires forall i :: 0 <= i < |order| ==> order[i] in grouped
    ensures HistoriesOf(grouped, order) == OrderedHistories(obs)
  {
    GroupedIds(grouped, obs);
    HistoriesMatch(grouped, obs, order);
  }

  method GroupSnapshots(snapshots: seq<ListingSnapshot>, identities: map<Id, Listing>)
    returns (r: Outcome<seq<seq<ListingSnapshot>>>)
    ensures var all := Elements(snapshots);
            if UnknownIn(all, identities.Keys) != {} then
              r == Invalid(UnknownSnapshots(UnknownIn(all, identities.Keys)))
            else if ConflictsIn(all, identities.Keys) != {} then
              r == Invalid(ConflictingSnapshots(ConflictsIn(all, identities.Keys)))
            else Agreeing(all) && r == Computed(OrderedHistories(EvidenceOf(all)))
  {
    var grouped: Grouped := map[];
    var unknown: set<Id>, conflicting: set<SnapshotKey> := {}, {};
    ghost var supplied: set<ListingSnapshot> := {};
    for i := 0 to |snapshots|
      invariant supplied == Elements(snapshots[..i])
      invariant Grouping(grouped, unknown, conflicting, supplied, identities.Keys)
    {
      var snapshot := snapshots[i];
      ghost var seen := supplied;
      supplied := supplied + {snapshot};
      SetStep(snapshots, i);
      if snapshot.listingId !in identities {
        GroupingUnknown(grouped, unknown, conflicting, seen, snapshot, identities.Keys);
        unknown := unknown + {snapshot.listingId};
        continue;
      }
      GroupingKnown(grouped, unknown, conflicting, seen, snapshot, identities.Keys);
      ghost var regrouped := Regroup(grouped, snapshot);
      var history := if snapshot.listingId in grouped then grouped[snapshot.listingId] else map[];
      if snapshot.snapshotAt !in history {
        history := history[snapshot.snapshotAt := snapshot];
      }
      if history[snapshot.snapshotAt] != snapshot {
        conflicting := conflicting + {(snapshot.listingId, snapshot.snapshotAt)};
      }
      grouped := grouped[snapshot.listingId := history];
      assert grouped == regrouped;
    }
    assert snapshots[..|snapshots|] == snapshots;
    if unknown != {} {
      return Invalid(UnknownSnapshots(unknown));
    }
    if conflicting != {} {
      return Invalid(ConflictingSnapshots(conflicting));
    }
    NoConflictsAgree(supplied, identities.Keys);
    GroupsSplit(grouped, supplied, identities.Keys);
    GroupedOrder(grouped);
    var order := SortedIds(grouped.Keys);
    SplitHistories(grouped, EvidenceOf(supplied), order);
    return Computed(HistoriesOf(grouped, order));
  }

  /** The whole outcome depends on the multiset of listings and the set of snapshots only. */
  method ComputeCommunityListingMetrics(listings: seq<Listing>, snapshots: seq<ListingSnapshot>, c: Id, minimum: int)
    returns (r: Outcome<CommunityListingMetrics>)
    requires AllValid(Elements(snapshots))
    ensures r == Assess(multiset(listings), Elements(snapshots), c, minimum)
  {
    if minimum < 1 {
      return Invalid(InvalidMinimum);
    }
    if Strip(c) == "" {
      return Invalid(BlankCommunity);
    }
    var identities := IndexListings(listings, c);
    if identities.Invalid? {
      return Invalid(identities.error);
    }
    var histories := GroupSnapshots(snapshots, identities.value);
    if histories.Invalid? {
      return Invalid(histories.error);
    }
    HistoriesPriced(EvidenceOf(Elements(snapshots)));
    return Computed(Summary(c, minimum, identities.value.Keys, histories.value));
  }
}
