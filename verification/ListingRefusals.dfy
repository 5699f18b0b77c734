/** Which evidence the listing metrics refuse, and with which error, from the supplied records alone
    (analytics/listing_metrics.py). */
module ListingRefusals {
  import opened Text
  import opened Orders
  import opened Domain
  import opened ListingStore
  import opened ListingMetrics

  ghost predicate NoForeign(listings: seq<Listing>, c: Id) {
    forall i :: 0 <= i < |listings| ==> listings[i].communityId == c
  }

  ghost predicate NoRepeats(listings: seq<Listing>) {
    forall i, j :: 0 <= i < j < |listings| ==> listings[i].listingId != listings[j].listingId
  }

  ghost predicate Supplied(listings: seq<Listing>, id: Id) {
    exists l :: l in listings && l.listingId == id
  }

  ghost predicate Repeated(listings: seq<Listing>, id: Id) {
    exists i, j :: 0 <= i < j < |listings| && listings[i].listingId == listings[j].listingId == id
  }

  ghost predicate AllKnown(listings: seq<Listing>, snapshots: seq<ListingSnapshot>) {
    forall s :: s in snapshots ==> Supplied(listings, s.listingId)
  }

  /** Two snapshots of one listing and one instant that differ. */
  ghost predicate Clash(snapshots: seq<ListingSnapshot>, id: Id, at: Instant) {
    exists a, b :: a in snapshots && b in snapshots && a != b
      && a.listingId == b.listingId == id && a.snapshotAt == b.snapshotAt == at
  }

  lemma SuppliedIds(listings: seq<Listing>, id: Id)
    ensures id in IdsIn(multiset(listings)) <==> Supplied(listings, id)
  {
    assert forall l :: l in multiset(listings) <==> l in listings;
  }

  lemma ForeignSupplied(listings: seq<Listing>, c: Id, x: Id)
    ensures x in ForeignIn(multiset(listings), c) <==> x != c && exists l :: l in listings && l.communityId == x
  {
    assert forall l :: l in multiset(listings) <==> l in listings;
  }

  lemma TwoPlaces<T>(s: seq<T>, x: T) returns (i: nat, j: nat)
    requires multiset(s)[x] > 1
    ensures i < j < |s| && s[i] == s[j] == x
  {
    i :| 0 <= i < |s| && s[i] == x;
    MultisetAround(s[..i], s[i], s[i + 1..]);
    assert s == s[..i] + [s[i]] + s[i + 1..];
    var rest := s[..i] + s[i + 1..];
    assert x in multiset(rest);
    var k :| 0 <= k < |rest| && rest[k] == x;
    if k < i {
      i, j := k, i;
    } else {
      j := k + 1;
    }
  }

  lemma OccursTwice<T>(s: seq<T>, i: nat, j: nat)
    requires i < j < |s| && s[i] == s[j]
    ensures multiset(s)[s[i]] > 1
  {
    assert s == s[..j] + s[j..];
    assert s[i] in s[..j] && s[i] in s[j..];
    assert s[..j][i] == s[i] && s[j..][0] == s[i];
    assert multiset(s) == multiset(s[..j]) + multiset(s[j..]);
    assert multiset(s[..j])[s[i]] > 0 && multiset(s[j..])[s[i]] > 0;
  }

  lemma RepeatedSupplied(listings: seq<Listing>, id: Id)
    ensures id in RepeatedIn(multiset(listings)) <==> Repeated(listings, id)
  {
    var bag := multiset(listings);
    if Repeated(listings, id) {
      var i, j :| 0 <= i < j < |listings| && listings[i].listingId == listings[j].listingId == id;
      assert listings[i] in bag && listings[j] in bag;
      if listings[i] == listings[j] {
        OccursTwice(listings, i, j);
      }
    }
    if id in RepeatedIn(bag) {
      var l, l' :| l in bag && l' in bag && l.listingId == l'.listingId == id && (l != l' || bag[l] > 1);
      if l != l' {
        var i :| 0 <= i < |listings| && listings[i] == l;
        var j :| 0 <= j < |listings| && listings[j] == l';
        assert i < j || j < i;
      } else {
        var i, j := TwoPlaces(listings, l);
      }
    }
  }

  lemma UnknownSupplied(listings: seq<Listing>, snapshots: seq<ListingSnapshot>, id: Id)
    ensures id in UnknownIn(Elements(snapshots), IdsIn(multiset(listings)))
            <==> !Supplied(listings, id) && exists s :: s in snapshots && s.listingId == id
  {
    SuppliedIds(listings, id);
    assert forall s :: s in Elements(snapshots) <==> s in snapshots;
  }

  lemma ConflictsSupplied(listings: seq<Listing>, snapshots: seq<ListingSnapshot>, id: Id, at: Instant)
    requires AllKnown(listings, snapshots)
    ensures (id, at) in ConflictsIn(Elements(snapshots), IdsIn(multiset(listings))) <==> Clash(snapshots, id, at)
  {
    SuppliedIds(listings, id);
    assert forall s :: s in Elements(snapshots) <==> s in snapshots;
    if Clash(snapshots, id, at) {
      var a, b :| a in snapshots && b in snapshots && a != b
                  && a.listingId == b.listingId == id && a.snapshotAt == b.snapshotAt == at;
      assert a.Key() == b.Key() == (id, at) && a in Elements(snapshots) && b in Elements(snapshots);
      assert Supplied(listings, a.listingId);
    }
    if (id, at) in ConflictsIn(Elements(snapshots), IdsIn(multiset(listings))) {
      var a, b :| a in Elements(snapshots) && b in Elements(snapshots) && a.Key() == b.Key() == (id, at) && a != b;
    }
  }

  lemma IdentitiesClear(listings: seq<Listing>, c: Id)
    ensures ForeignIn(multiset(listings), c) == {} <==> NoForeign(listings, c)
    ensures RepeatedIn(multiset(listings)) == {} <==> NoRepeats(listings)
  {
    forall x ensures x in ForeignIn(multiset(listings), c) <==> x != c && exists l :: l in listings && l.communityId == x {
      ForeignSupplied(listings, c, x);
    }
    forall id ensures id in RepeatedIn(multiset(listings)) <==> Repeated(listings, id) {
      RepeatedSupplied(listings, id);
    }
    if !NoForeign(listings, c) {
      var i :| 0 <= i < |listings| && listings[i].communityId != c;
      assert listings[i] in listings;
      assert listings[i].communityId in ForeignIn(multiset(listings), c);
    }
    if !NoRepeats(listings) {
      var i, j :| 0 <= i < j < |listings| && listings[i].listingId == listings[j].listingId;
      assert Repeated(listings, listings[i].listingId);
    }
  }

  lemma SnapshotsClear(listings: seq<Listing>, snapshots: seq<ListingSnapshot>)
    ensures var ids := IdsIn(multiset(listings));
            && (UnknownIn(Elements(snapshots), ids) == {} <==> AllKnown(listings, snapshots))
            && (AllKnown(listings, snapshots) ==>
                  (ConflictsIn(Elements(snapshots), ids) == {} <==> forall id, at :: !Clash(snapshots, id, at)))
  {
    var ids := IdsIn(multiset(listings));
    forall id
      ensures id in UnknownIn(Elements(snapshots), ids)
              <==> !Supplied(listings, id) && exists s :: s in snapshots && s.listingId == id
    {
      UnknownSupplied(listings, snapshots, id);
    }
    if !AllKnown(listings, snapshots) {
      var s :| s in snapshots && !Supplied(listings, s.listingId);
      assert s.listingId in UnknownIn(Elements(snapshots), ids);
    } else {
      forall id, at ensures (id, at) in ConflictsIn(Elements(snapshots), ids) <==> Clash(snapshots, id, at) {
        ConflictsSupplied(listings, snapshots, id, at);
      }
      forall k ensures k in ConflictsIn(Elements(snapshots), ids) ==> Clash(snapshots, k.0, k.1) {
        assert k == (k.0, k.1);
      }
    }
  }

  /** Which check refuses: the first that fails, in this order; a call no check refuses is computed. */
  lemma RefusedExactly(listings: seq<Listing>, snapshots: seq<ListingSnapshot>, c: Id, minimum: int)
    requires AllValid(Elements(snapshots))
    ensures var r := Assess(multiset(listings), Elements(snapshots), c, minimum);
            if minimum < 1 then r == Invalid(InvalidMinimum)
            else if AllSpace(c) then r == Invalid(BlankCommunity)
            else if !NoForeign(listings, c) then r.Invalid? && r.error.ForeignListings?
            else if !NoRepeats(listings) then r.Invalid? && r.error.RepeatedListings?
            else if !AllKnown(listings, snapshots) then r.Invalid? && r.error.UnknownSnapshots?
            else if exists id, at :: Clash(snapshots, id, at) then r.Invalid? && r.error.ConflictingSnapshots?
            else r.Computed?
  {
    BlankIsAllSpace(c);
    IdentitiesClear(listings, c);
    SnapshotsClear(listings, snapshots);
  }

  /** Whom the error names: exactly the offenders. */
  lemma OffendersNamed(listings: seq<Listing>, snapshots: seq<ListingSnapshot>, c: Id, minimum: int, id: Id, at: Instant)
    requires AllValid(Elements(snapshots)) && Assess(multiset(listings), Elements(snapshots), c, minimum).Invalid?
    ensures var e := Assess(multiset(listings), Elements(snapshots), c, minimum).error;
            && (e.ForeignListings? ==>
                  (id in e.communities <==> id != c && exists l :: l in listings && l.communityId == id))
            && (e.RepeatedListings? ==> (id in e.ids <==> Repeated(listings, id)))
            && (e.UnknownSnapshots? ==>
                  (id in e.ids <==> !Supplied(listings, id) && exists s :: s in snapshots && s.listingId == id))
            && (e.ConflictingSnapshots? ==> ((id, at) in e.keys <==> Clash(snapshots, id, at)))
  {
    ForeignSupplied(listings, c, id);
    RepeatedSupplied(listings, id);
    UnknownSupplied(listings, snapshots, id);
    SnapshotsClear(listings, snapshots);
    if AllKnown(listings, snapshots) {
      ConflictsSupplied(listings, snapshots, id, at);
    }
  }
}
