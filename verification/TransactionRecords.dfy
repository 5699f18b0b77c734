/** What the gates accept and refuse, and what a canonical transaction carries, in the fields of the
    record itself (services/transaction_normalization.py). */
module TransactionRecords {
  import opened Text
  import opened Domain
  import opened Ratios
  import opened TransactionGates

  // ---- Dates ----

  /** The day, less one day of grace, begins no later than the instant of collection. */
  predicate NotInFuture(day: Day, collectedAt: Instant) {
    (day - 1) * 86400000000 <= collectedAt
  }

  lemma FutureExactly(day: Day, collectedAt: Instant)
    ensures day > DayOf(collectedAt) + FUTURE_GRACE_DAYS <==> !NotInFuture(day, collectedAt)
  {
  }

  predicate InWindow(day: Day, g: Gate) {
    (g.startDate.Some? ==> g.startDate.value <= day) && (g.endDate.Some? ==> day <= g.endDate.value)
  }

  // ---- Prices ----

  /** Unit price times area misses the deal price by at most the tolerated share of it, either way. */
  predicate Tolerated(unitPrice: real, area: real, price: real, tolerance: real) {
    price - tolerance * price <= unitPrice * area <= price + tolerance * price
  }

  lemma DeviationExactly(unitPrice: real, area: real, price: real, tolerance: real)
    requires price > 0.0
    ensures Deviation(unitPrice, area, price) > tolerance <==> !Tolerated(unitPrice, area, price, tolerance)
  {
    QuotientAgainst(Abs(unitPrice * area - price), price, tolerance);
    AbsWithin(unitPrice * area - price, tolerance * price);
  }

  lemma AbsWithin(x: real, bound: real)
    ensures Abs(x) <= bound <==> -bound <= x <= bound
  {
  }

  // ---- Which record is refused, and why ----

  predicate Positive(v: Option<real>) {
    v.Some? && v.value > 0.0
  }

  predicate PriceOff(r: RawRecord, g: Gate) {
    && r.unitPriceCnySqm.Some? && r.areaSqm.Some? && r.dealPriceCny.Some?
    && !Tolerated(r.unitPriceCnySqm.value, r.areaSqm.value, r.dealPriceCny.value, g.tolerance)
  }

  /** The reason a record is refused for: the first of its defects, in this order. */
  predicate RefusedFor(reason: Reason, r: RawRecord, g: Gate) {
    if r.sourceTransactionId == None || r.sourceTransactionId == Some("") then reason == MissingSourceIdentity
    else if r.dealDate.None? then reason == MissingDealDate
    else if !NotInFuture(r.dealDate.value, r.collectedAt) then reason == DealDateInFuture
    else if !InWindow(r.dealDate.value, g) then reason == DealDateOutOfRange
    else if !Positive(r.areaSqm) then reason == InvalidArea
    else if !Positive(r.dealPriceCny) then reason == InvalidDealPrice
    else if r.initialListingPriceCny.Some? && !Positive(r.initialListingPriceCny) then reason == InvalidListingPrice
    else if r.daysOnMarket.Some? && r.daysOnMarket.value < 0 then reason == InvalidDaysOnMarket
    else if r.unitPriceCnySqm.Some? && !Positive(r.unitPriceCnySqm) then reason == InvalidUnitPrice
    else if PriceOff(r, g) then reason == InconsistentUnitPrice
    else r.builtYear.Some? && (r.builtYear.value < 1800 || r.builtYear.value > 2200) && reason == SchemaInvalid
  }

  /** A record every required field of which is present and plausible. */
  predicate Acceptable(r: RawRecord, g: Gate) {
    && r.sourceTransactionId.Some? && r.sourceTransactionId.value != ""
    && r.dealDate.Some? && NotInFuture(r.dealDate.value, r.collectedAt) && InWindow(r.dealDate.value, g)
    && Positive(r.areaSqm) && Positive(r.dealPriceCny)
    && (r.initialListingPriceCny.Some? ==> Positive(r.initialListingPriceCny))
    && (r.daysOnMarket.Some? ==> r.daysOnMarket.value >= 0)
    && (r.unitPriceCnySqm.Some? ==>
          Positive(r.unitPriceCnySqm)
          && Tolerated(r.unitPriceCnySqm.value, r.areaSqm.value, r.dealPriceCny.value, g.tolerance))
    && (r.builtYear.Some? ==> 1800 <= r.builtYear.value <= 2200)
  }

  lemma DatesBroken(r: RawRecord, g: Gate)
    requires r.dealDate.Some?
    ensures Breaks(DealDateInFuture, r, g) <==> !NotInFuture(r.dealDate.value, r.collectedAt)
    ensures Breaks(DealDateOutOfRange, r, g) <==> !InWindow(r.dealDate.value, g)
  {
    FutureExactly(r.dealDate.value, r.collectedAt);
  }

  lemma PricesBroken(r: RawRecord, g: Gate)
    requires Positive(r.areaSqm) && Positive(r.dealPriceCny)
    ensures Breaks(InconsistentUnitPrice, r, g) <==> PriceOff(r, g)
  {
    if r.unitPriceCnySqm.Some? {
      DeviationExactly(r.unitPriceCnySqm.value, r.areaSqm.value, r.dealPriceCny.value, g.tolerance);
    }
  }

  /** The gates refuse for exactly the reason the record calls for. */
  lemma FirstBrokenExactly(r: RawRecord, g: Gate, reason: Reason)
    ensures FirstBroken(GATES, r, g) == Some(reason) <==> RefusedFor(reason, r, g)
  {
    GatesInOrder(r, g);
    if r.dealDate.Some? {
      DatesBroken(r, g);
    }
    if Positive(r.areaSqm) && Positive(r.dealPriceCny) {
      PricesBroken(r, g);
    }
  }

  lemma AcceptableExactly(r: RawRecord, g: Gate)
    ensures Acceptable(r, g) <==> forall reason :: !RefusedFor(reason, r, g)
  {
    assert !Acceptable(r, g) ==>
        RefusedFor(MissingSourceIdentity, r, g) || RefusedFor(MissingDealDate, r, g)
        || RefusedFor(DealDateInFuture, r, g) || RefusedFor(DealDateOutOfRange, r, g) || RefusedFor(InvalidArea, r, g)
        || RefusedFor(InvalidDealPrice, r, g) || RefusedFor(InvalidListingPrice, r, g)
        || RefusedFor(InvalidDaysOnMarket, r, g) || RefusedFor(InvalidUnitPrice, r, g)
        || RefusedFor(InconsistentUnitPrice, r, g) || RefusedFor(SchemaInvalid, r, g);
  }

  // ---- What an accepted record becomes ----

  /** Every column of the transaction, from the record, the gate and the identifier function. */
  ghost predicate Carries(t: Transaction, r: RawRecord, g: Gate, ids: TransactionIds) {
    && t.source == r.source && t.sourceTransactionId == r.sourceTransactionId
    && t.sourceTransactionId.Some? && t.transactionId == ids(t.source, t.sourceTransactionId.value)
    && t.communityId == g.communityId && Some(t.dealDate) == r.dealDate && Some(t.areaSqm) == r.areaSqm
    && Some(t.dealPriceCny) == r.dealPriceCny && t.initialListingPriceCny == r.initialListingPriceCny
    && CarriesUnitPrice(t, r) && CarriesFloor(t.floorBucket, r.floorBucket)
    && t.sourceUrl == r.sourceUrl && t.layout == r.layout && t.orientation == r.orientation
    && t.builtYear == r.builtYear && t.daysOnMarket == r.daysOnMarket && t.rawPayloadRef == r.rawPayloadRef
    && t.collectedAt == r.collectedAt && t.parserVersion == r.parserVersion
  }

  /** The unit price is the record's, or else the one that gives the deal price exactly. */
  ghost predicate CarriesUnitPrice(t: Transaction, r: RawRecord) {
    if r.unitPriceCnySqm.Some? then t.unitPriceCnySqm == r.unitPriceCnySqm.value
    else t.unitPriceCnySqm * t.areaSqm == t.dealPriceCny
  }

  ghost predicate CarriesFloor(bucket: FloorBucket, value: Option<string>) {
    && (bucket == Low <==> value.Some? && Strip(value.value) == "low")
    && (bucket == Mid <==> value.Some? && Strip(value.value) == "mid")
    && (bucket == High <==> value.Some? && Strip(value.value) == "high")
  }

  /** A derived unit price and an unrecognised floor are noted, in this order. */
  function ExpectedNotes(r: RawRecord): seq<Note> {
    (if r.unitPriceCnySqm.None? then [DerivedUnitPrice] else [])
    + (if r.floorBucket.Some? && Strip(r.floorBucket.value) !in {"low", "mid", "high", "unknown"}
       then [UnrecognizedFloorBucket] else [])
  }

  lemma CanonicalCarries(r: RawRecord, g: Gate, ids: TransactionIds)
    requires Passes(r, g)
    ensures Carries(Canonical(r, g, ids), r, g, ids) && NotesFor(r) == ExpectedNotes(r)
  {
    PassesEveryGate(r, g, MissingSourceIdentity);
    PassesEveryGate(r, g, MissingDealDate);
    PassesEveryGate(r, g, InvalidArea);
    PassesEveryGate(r, g, InvalidDealPrice);
    FloorCarried(r.floorBucket);
    if r.unitPriceCnySqm.None? {
      QuotientSign(r.dealPriceCny.value, r.areaSqm.value);
    }
  }

  lemma FloorCarried(value: Option<string>)
    ensures CarriesFloor(FloorOf(value), value)
    ensures FloorNotes(value) ==
            if value.Some? && Strip(value.value) !in {"low", "mid", "high", "unknown"} then [UnrecognizedFloorBucket] else []
  {
  }

  /** A record is accepted exactly when it is acceptable, and then becomes the transaction that carries its columns;
      otherwise it is rejected under its own identity for the first of its defects. */
  lemma NormalizedExactly(r: RawRecord, g: Gate, ids: TransactionIds)
    ensures var outcome := Normalized(r, g, ids);
            && (outcome.Accepted? <==> Acceptable(r, g))
            && (outcome.Accepted? ==> Carries(outcome.transaction, r, g, ids) && outcome.notes == ExpectedNotes(r))
            && (outcome.Rejected? ==>
                  && outcome.rejection.source == r.source
                  && outcome.rejection.sourceTransactionId == r.sourceTransactionId
                  && outcome.rejection.sourceUrl == r.sourceUrl
                  && RefusedFor(outcome.rejection.reason, r, g))
  {
    forall reason ensures FirstBroken(GATES, r, g) == Some(reason) <==> RefusedFor(reason, r, g) {
      FirstBrokenExactly(r, g, reason);
    }
    AcceptableExactly(r, g);
    if Passes(r, g) {
      CanonicalCarries(r, g, ids);
    }
  }

  /** The columns leave no freedom: two transactions that carry one record are the same. */
  lemma CarriesUnique(a: Transaction, b: Transaction, r: RawRecord, g: Gate, ids: TransactionIds)
    requires Carries(a, r, g, ids) && Carries(b, r, g, ids) && a.areaSqm > 0.0
    ensures a == b
  {
    if r.unitPriceCnySqm.None? {
      SameFactor(a.unitPriceCnySqm, b.unitPriceCnySqm, a.areaSqm);
    }
  }

  lemma SameFactor(x: real, y: real, a: real)
    requires a > 0.0 && x * a == y * a
    ensures x == y
  {
    assert (x - y) * a == x * a - y * a;
    ZeroProduct(x - y, a);
  }
}
