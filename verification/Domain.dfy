/** Canonical listing records (domain/listing.py, domain/common.py). */
module Domain {
  import opened Text

  type Id = string

  /** An aware timestamp, as microseconds since the epoch in UTC. */
  type Instant = int

  /** A source row the provider's parser could not read, in the parser's own vocabulary. */
  type ParseRejection = string

  datatype ListingStatus = ACTIVE | SOLD | WITHDRAWN | OFF_MARKET | UNKNOWN

  datatype FloorBucket = Low | Mid | High | UnknownFloor

  predicate PositiveIfPresent(v: Option<real>) {
    v.Some? ==> v.value > 0.0
  }

  predicate YearIfPresent(v: Option<int>) {
    v.Some? ==> 1800 <= v.value <= 2200
  }

  datatype Listing = Listing(
    listingId: Id, communityId: Id, source: string, sourceListingId: string, areaSqm: Option<real>,
    layout: Option<string>, floorBucket: FloorBucket, orientation: Option<string>, builtYear: Option<int>,
    buildingType: Option<string>, firstSeenAt: Instant, lastSeenAt: Instant, status: ListingStatus)
  {
    /** What the canonical model checks whenever a listing is built or read back. */
    predicate Valid() {
      && listingId != "" && communityId != "" && source != "" && sourceListingId != ""
      && PositiveIfPresent(areaSqm) && YearIfPresent(builtYear)
      && firstSeenAt <= lastSeenAt
    }
  }

  datatype ListingSnapshot = ListingSnapshot(
    listingId: Id, snapshotAt: Instant, listPriceCny: real, unitPriceCnySqm: Option<real>, status: ListingStatus,
    source: string, sourceUrl: Option<string>, rawPayloadRef: Option<string>, parserVersion: string)
  {
    predicate Valid() {
      && listingId != "" && source != "" && parserVersion != ""
      && listPriceCny > 0.0 && PositiveIfPresent(unitPriceCnySqm)
    }

    /** The primary key of the history table. */
    function Key(): (Id, Instant) { (listingId, snapshotAt) }
  }

  datatype ListingObservation = ListingObservation(listing: Listing, snapshot: ListingSnapshot) {
    predicate Valid() {
      listing.Valid() && snapshot.Valid() && listing.listingId == snapshot.listingId
    }
  }
}
