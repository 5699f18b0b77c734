/** The data-quality gates one provider record must pass (services/transaction_normalization.py). */
module TransactionGates {
  import opened Text
  import opened Domain
  import opened Ratios

  /** Days since the epoch. */
  type Day = int

  const MICROSECONDS_PER_DAY := 86400000000
  const FUTURE_GRACE_DAYS := 1
  const MAX_UNIT_PRICE_TOLERANCE := 1.0

  datatype RawRecord = RawRecord(
    source: string, sourceTransactionId: Option<string>, sourceUrl: Option<string>, dealDate: Option<Day>,
    areaSqm: Option<real>, layout: Option<string>, floorBucket: Option<string>, orientation: Option<string>,
    builtYear: Option<int>, initialListingPriceCny: Option<real>, dealPriceCny: Option<real>,
    unitPriceCnySqm: Option<real>, daysOnMarket: Option<int>, rawPayloadRef: Option<string>,
    collectedAt: Instant, parserVersion: string)
  {
    /** What the provider DTO enforces. */
    predicate Valid() { source != "" && parserVersion != "" }
  }

  datatype Transaction = Transaction(
    transactionId: Id, communityId: Id, source: string, sourceTransactionId: Option<string>,
    sourceUrl: Option<string>, dealDate: Day, areaSqm: real, layout: Option<string>, floorBucket: FloorBucket,
    orientation: Option<string>, builtYear: Option<int>, initialListingPriceCny: Option<real>,
    dealPriceCny: real, unitPriceCnySqm: real, daysOnMarket: Option<int>, rawPayloadRef: Option<string>,
    collectedAt: Instant, parserVersion: string)
  {
    /** What the canonical model checks. */
    predicate Valid() {
      && source != "" && parserVersion != "" && areaSqm > 0.0 && dealPriceCny > 0.0 && unitPriceCnySqm > 0.0
      && PositiveIfPresent(initialListingPriceCny) && YearIfPresent(builtYear)
      && (daysOnMarket.Some? ==> daysOnMarket.value >= 0)
    }
  }

  datatype Reason =
    | MissingSourceIdentity | MissingDealDate | DealDateInFuture | DealDateOutOfRange | InvalidArea
    | InvalidDealPrice | InvalidUnitPrice | InvalidListingPrice | InvalidDaysOnMarket
    | InconsistentUnitPrice | DuplicateInBatch | SchemaInvalid

  datatype Rejection = Rejection(
    source: string, sourceTransactionId: Option<string>, sourceUrl: Option<string>, reason: Reason)

  datatype Note = DerivedUnitPrice | UnrecognizedFloorBucket

  /** What one ingestion asks for: the resolved community, inclusive date bounds, the tolerance in force. */
  datatype Gate = Gate(communityId: Id, startDate: Option<Day>, endDate: Option<Day>, tolerance: real)

  /** stable_id("tx", source, source_transaction_id); nothing is assumed of it. */
  type TransactionIds = (string, string) -> Id

  datatype Outcome = Accepted(transaction: Transaction, notes: seq<Note>) | Rejected(rejection: Rejection)

  /** A tolerance outside its range is an error before any record is looked at. */
  datatype Normalization = Checked(outcome: Outcome) | ToleranceRefused

  predicate ToleranceInRange(value: real) {
    0.0 <= value <= MAX_UNIT_PRICE_TOLERANCE
  }

  function Abs(x: real): real { if x < 0.0 then -x else x }

  /** How far a unit price is off the deal price, relative to the deal price. */
  function Deviation(unitPrice: real, area: real, price: real): real
    requires price > 0.0
  {
    Abs(unitPrice * area - price) / price
  }

  /** The UTC date of an instant. */
  function DayOf(at: Instant): Day { at / MICROSECONDS_PER_DAY }

  // ---- The gates as a table, in the order they are tried ----

  const GATES := [
    MissingSourceIdentity, MissingDealDate, DealDateInFuture, DealDateOutOfRange, InvalidArea, InvalidDealPrice,
    InvalidListingPrice, InvalidDaysOnMarket, InvalidUnitPrice, InconsistentUnitPrice, SchemaInvalid]

  /** Whether a record breaks one gate, taken on its own. */
  predicate Breaks(reason: Reason, r: RawRecord, g: Gate) {
    match reason
    case MissingSourceIdentity => r.sourceTransactionId.None? || r.sourceTransactionId.value == ""
    case MissingDealDate => r.dealDate.None?
    case DealDateInFuture => r.dealDate.Some? && r.dealDate.value > DayOf(r.collectedAt) + FUTURE_GRACE_DAYS
    case DealDateOutOfRange =>
      r.dealDate.Some? && ((g.startDate.Some? && r.dealDate.value < g.startDate.value)
                           || (g.endDate.Some? && r.dealDate.value > g.endDate.value))
    case InvalidArea => r.areaSqm.None? || r.areaSqm.value <= 0.0
    case InvalidDealPrice => r.dealPriceCny.None? || r.dealPriceCny.value <= 0.0
    case InvalidListingPrice => r.initialListingPriceCny.Some? && r.initialListingPriceCny.value <= 0.0
    case InvalidDaysOnMarket => r.daysOnMarket.Some? && r.daysOnMarket.value < 0
    case InvalidUnitPrice => r.unitPriceCnySqm.Some? && r.unitPriceCnySqm.value <= 0.0
    case InconsistentUnitPrice =>
      && r.unitPriceCnySqm.Some? && r.areaSqm.Some? && r.dealPriceCny.Some? && r.dealPriceCny.value > 0.0
      && Deviation(r.unitPriceCnySqm.value, r.areaSqm.value, r.dealPriceCny.value) > g.tolerance
    case SchemaInvalid => !YearIfPresent(r.builtYear)
    case DuplicateInBatch => false
  }

  function FirstBroken(gates: seq<Reason>, r: RawRecord, g: Gate): Option<Reason> {
    if gates == [] then None
    else if Breaks(gates[0], r, g) then Some(gates[0])
    else FirstBroken(gates[1..], r, g)
  }

  predicate Passes(r: RawRecord, g: Gate) {
    FirstBroken(GATES, r, g).None?
  }

  lemma {:induction false} FirstBrokenSpec(gates: seq<Reason>, r: RawRecord, g: Gate)
    ensures FirstBroken(gates, r, g).None? <==> forall i :: 0 <= i < |gates| ==> !Breaks(gates[i], r, g)
    ensures FirstBroken(gates, r, g).Some? ==>
              exists i :: 0 <= i < |gates| && gates[i] == FirstBroken(gates, r, g).value && Breaks(gates[i], r, g)
                          && forall j :: 0 <= j < i ==> !Breaks(gates[j], r, g)
  {
    if gates == [] || Breaks(gates[0], r, g) {
    } else {
      FirstBrokenSpec(gates[1..], r, g);
      if FirstBroken(gates, r, g).Some? {
        var i :| 0 <= i < |gates[1..]| && gates[1..][i] == FirstBroken(gates[1..], r, g).value
                 && Breaks(gates[1..][i], r, g) && forall j :: 0 <= j < i ==> !Breaks(gates[1..][j], r, g);
        assert gates[i + 1] == gates[1..][i];
        assert forall j :: 0 < j < i + 1 ==> gates[j] == gates[1..][j - 1];
      }
    }
  }

  lemma PassesEveryGate(r: RawRecord, g: Gate, reason: Reason)
    requires Passes(r, g)
    ensures !Breaks(reason, r, g)
  {
    FirstBrokenSpec(GATES, r, g);
    assert GATES[0] == MissingSourceIdentity && GATES[1] == MissingDealDate && GATES[2] == DealDateInFuture
           && GATES[3] == DealDateOutOfRange && GATES[4] == InvalidArea && GATES[5] == InvalidDealPrice
           && GATES[6] == InvalidListingPrice && GATES[7] == InvalidDaysOnMarket && GATES[8] == InvalidUnitPrice
           && GATES[9] == InconsistentUnitPrice && GATES[10] == SchemaInvalid;
  }

  // ---- The canonical transaction of a passing record ----

  function RecognizeFloor(text: string): Option<FloorBucket> {
    match Strip(text)
    case "low" => Some(Low)
    case "mid" => Some(Mid)
    case "high" => Some(High)
    case "unknown" => Some(UnknownFloor)
    case _ => None
  }

  function FloorOf(value: Option<string>): FloorBucket {
    if value.Some? && RecognizeFloor(value.value).Some? then RecognizeFloor(value.value).value else UnknownFloor
  }

  function FloorNotes(value: Option<string>): seq<Note> {
    if value.Some? && RecognizeFloor(value.value).None? then [UnrecognizedFloorBucket] else []
  }

  function NotesFor(r: RawRecord): seq<Note> {
    (if r.unitPriceCnySqm.None? then [DerivedUnitPrice] else []) + FloorNotes(r.floorBucket)
  }

  function Canonical(r: RawRecord, g: Gate, ids: TransactionIds): Transaction
    requires Passes(r, g)
  {
    PassesEveryGate(r, g, MissingSourceIdentity);
    PassesEveryGate(r, g, MissingDealDate);
    PassesEveryGate(r, g, InvalidArea);
    PassesEveryGate(r, g, InvalidDealPrice);
    Transaction(
      ids(r.source, r.sourceTransactionId.value), g.communityId, r.source, r.sourceTransactionId, r.sourceUrl,
      r.dealDate.value, r.areaSqm.value, r.layout, FloorOf(r.floorBucket), r.orientation, r.builtYear,
      r.initialListingPriceCny, r.dealPriceCny.value,
      if r.unitPriceCnySqm.Some? then r.unitPriceCnySqm.value else r.dealPriceCny.value / r.areaSqm.value,
      r.daysOnMarket, r.rawPayloadRef, r.collectedAt, r.parserVersion)
  }

  function RejectionFor(r: RawRecord, reason: Reason): Rejection {
    Rejection(r.source, r.sourceTransactionId, r.sourceUrl, reason)
  }

  /** Rejected at the first broken gate, otherwise canonical. */
  function Normalized(r: RawRecord, g: Gate, ids: TransactionIds): Outcome {
    match FirstBroken(GATES, r, g)
    case Some(reason) => Rejected(RejectionFor(r, reason))
    case None => Accepted(Canonical(r, g, ids), NotesFor(r))
  }

  lemma {:induction false} GateStep(n: nat, r: RawRecord, g: Gate)
    requires n < |GATES|
    ensures FirstBroken(GATES[n..], r, g) ==
            if Breaks(GATES[n], r, g) then Some(GATES[n]) else FirstBroken(GATES[n + 1..], r, g)
  {
    assert GATES[n..][0] == GATES[n] && GATES[n..][1..] == GATES[n + 1..];
  }

  /** The table, gate by gate. */
  lemma {:induction false} GatesInOrder(r: RawRecord, g: Gate)
    ensures FirstBroken(GATES, r, g) ==
            if Breaks(MissingSourceIdentity, r, g) then Some(MissingSourceIdentity)
            else if Breaks(MissingDealDate, r, g) then Some(MissingDealDate)
            else if Breaks(DealDateInFuture, r, g) then Some(DealDateInFuture)
            else if Breaks(DealDateOutOfRange, r, g) then Some(DealDateOutOfRange)
            else if Breaks(InvalidArea, r, g) then Some(InvalidArea)
            else if Breaks(InvalidDealPrice, r, g) then Some(InvalidDealPrice)
            else if Breaks(InvalidListingPrice, r, g) then Some(InvalidListingPrice)
            else if Breaks(InvalidDaysOnMarket, r, g) then Some(InvalidDaysOnMarket)
            else if Breaks(InvalidUnitPrice, r, g) then Some(InvalidUnitPrice)
            else if Breaks(InconsistentUnitPrice, r, g) then Some(InconsistentUnitPrice)
            else if Breaks(SchemaInvalid, r, g) then Some(SchemaInvalid)
            else None
  {
    assert GATES[0..] == GATES && GATES[|GATES|..] == [];
    GateStep(0, r, g);
    GateStep(1, r, g);
    GateStep(2, r, g);
    GateStep(3, r, g);
    GateStep(4, r, g);
    GateStep(5, r, g);
    GateStep(6, r, g);
    GateStep(7, r, g);
    GateStep(8, r, g);
    GateStep(9, r, g);
    GateStep(10, r, g);
  }

  /** An unrecognized floor bucket is noted, not refused. */
  method CoerceFloorBucket(value: Option<string>, before: seq<Note>) returns (bucket: FloorBucket, notes: seq<Note>)
    ensures bucket == Low <==> value.Some? && Strip(value.value) == "low"
    ensures bucket == Mid <==> value.Some? && Strip(value.value) == "mid"
    ensures bucket == High <==> value.Some? && Strip(value.value) == "high"
    ensures notes == before || notes == before + [UnrecognizedFloorBucket]
    ensures notes == before <==> value.None? || Strip(value.value) in {"low", "mid", "high", "unknown"}
    ensures bucket == FloorOf(value) && notes == before + FloorNotes(value)
  {
    if value.None? {
      return UnknownFloor, before;
    }
    var recognized := RecognizeFloor(value.value);
    if recognized.Some? {
      return recognized.value, before;
    }
    return UnknownFloor, before + [UnrecognizedFloorBucket];
  }

  /** The cascade of early returns. */
  method NormalizeTransaction(r: RawRecord, g: Gate, ids: TransactionIds) returns (normalization: Normalization)
    ensures ToleranceInRange(g.tolerance) ==> normalization == Checked(Normalized(r, g, ids))
    ensures !ToleranceInRange(g.tolerance) ==> normalization == ToleranceRefused
  {
    if !ToleranceInRange(g.tolerance) {
      return ToleranceRefused;
    }
    GatesInOrder(r, g);
    if r.sourceTransactionId.None? || r.sourceTransactionId.value == "" {
      return Checked(Rejected(RejectionFor(r, MissingSourceIdentity)));
    }
    if r.dealDate.None? {
      return Checked(Rejected(RejectionFor(r, MissingDealDate)));
    }
    var observedOn := DayOf(r.collectedAt);
    if r.dealDate.value > observedOn + FUTURE_GRACE_DAYS {
      return Checked(Rejected(RejectionFor(r, DealDateInFuture)));
    }
    if g.startDate.Some? && r.dealDate.value < g.startDate.value {
      return Checked(Rejected(RejectionFor(r, DealDateOutOfRange)));
    }
    if g.endDate.Some? && r.dealDate.value > g.endDate.value {
      return Checked(Rejected(RejectionFor(r, DealDateOutOfRange)));
    }
    if r.areaSqm.None? || r.areaSqm.value <= 0.0 {
      return Checked(Rejected(RejectionFor(r, InvalidArea)));
    }
    if r.dealPriceCny.None? || r.dealPriceCny.value <= 0.0 {
      return Checked(Rejected(RejectionFor(r, InvalidDealPrice)));
    }
    if r.initialListingPriceCny.Some? && r.initialListingPriceCny.value <= 0.0 {
      return Checked(Rejected(RejectionFor(r, InvalidListingPrice)));
    }
    if r.daysOnMarket.Some? && r.daysOnMarket.value < 0 {
      return Checked(Rejected(RejectionFor(r, InvalidDaysOnMarket)));
    }
    var notes: seq<Note> := [];
    var unitPrice: real;
    if r.unitPriceCnySqm.None? {
      unitPrice := r.dealPriceCny.value / r.areaSqm.value;
      notes := notes + [DerivedUnitPrice];
    } else if r.unitPriceCnySqm.value <= 0.0 {
      return Checked(Rejected(RejectionFor(r, InvalidUnitPrice)));
    } else {
      unitPrice := r.unitPriceCnySqm.value;
      var deviation := Deviation(unitPrice, r.areaSqm.value, r.dealPriceCny.value);
      if deviation > g.tolerance {
        return Checked(Rejected(RejectionFor(r, InconsistentUnitPrice)));
      }
    }
    var floorBucket;
    floorBucket, notes := CoerceFloorBucket(r.floorBucket, notes);
    assert notes == NotesFor(r);
    if !YearIfPresent(r.builtYear) {
      return Checked(Rejected(RejectionFor(r, SchemaInvalid)));
    }
    return Checked(Accepted(
      Transaction(
        ids(r.source, r.sourceTransactionId.value), g.communityId, r.source, r.sourceTransactionId, r.sourceUrl,
        r.dealDate.value, r.areaSqm.value, r.layout, floorBucket, r.orientation, r.builtYear,
        r.initialListingPriceCny, r.dealPriceCny.value, unitPrice, r.daysOnMarket, r.rawPayloadRef,
        r.collectedAt, r.parserVersion),
      notes));
  }

  // ---- What acceptance guarantees ----

  /** The arithmetic and window facts a gate admits a transaction under. */
  ghost predicate Admitted(t: Transaction, g: Gate) {
    && t.Valid() && t.communityId == g.communityId
    && t.dealDate <= DayOf(t.collectedAt) + FUTURE_GRACE_DAYS
    && (g.startDate.Some? ==> g.startDate.value <= t.dealDate)
    && (g.endDate.Some? ==> t.dealDate <= g.endDate.value)
    && Abs(t.unitPriceCnySqm * t.areaSqm - t.dealPriceCny) <= g.tolerance * t.dealPriceCny
  }

  lemma CanonicalInWindow(r: RawRecord, g: Gate, ids: TransactionIds)
    requires Passes(r, g)
    ensures var t := Canonical(r, g, ids);
            && t.communityId == g.communityId && t.dealDate <= DayOf(t.collectedAt) + FUTURE_GRACE_DAYS
            && (g.startDate.Some? ==> g.startDate.value <= t.dealDate)
            && (g.endDate.Some? ==> t.dealDate <= g.endDate.value)
  {
    PassesEveryGate(r, g, MissingDealDate);
    PassesEveryGate(r, g, DealDateInFuture);
    PassesEveryGate(r, g, DealDateOutOfRange);
  }

  lemma CanonicalPrices(r: RawRecord, g: Gate, ids: TransactionIds)
    requires Passes(r, g) && 0.0 <= g.tolerance
    ensures var t := Canonical(r, g, ids);
            && t.areaSqm > 0.0 && t.dealPriceCny > 0.0 && t.unitPriceCnySqm > 0.0
            && Abs(t.unitPriceCnySqm * t.areaSqm - t.dealPriceCny) <= g.tolerance * t.dealPriceCny
  {
    PassesEveryGate(r, g, InvalidArea);
    PassesEveryGate(r, g, InvalidDealPrice);
    PassesEveryGate(r, g, InvalidUnitPrice);
    PassesEveryGate(r, g, InconsistentUnitPrice);
    var area, price := r.areaSqm.value, r.dealPriceCny.value;
    if r.unitPriceCnySqm.None? {
      DerivedWithin(price, area, g.tolerance);
    } else {
      RatioBound(Abs(r.unitPriceCnySqm.value * area - price), price, g.tolerance);
    }
  }

  lemma DerivedWithin(price: real, area: real, tolerance: real)
    requires price > 0.0 && area > 0.0 && 0.0 <= tolerance
    ensures price / area > 0.0 && Abs(price / area * area - price) <= tolerance * price
  {
    QuotientSign(price, area);
    SignProduct(tolerance, price);
  }

  /** Every accepted transaction meets every gate; a derived unit price meets the tolerance exactly. */
  lemma AcceptedIsAdmitted(r: RawRecord, g: Gate, ids: TransactionIds)
    requires r.Valid() && 0.0 <= g.tolerance && Normalized(r, g, ids).Accepted?
    ensures Admitted(Normalized(r, g, ids).transaction, g)
  {
    CanonicalInWindow(r, g, ids);
    CanonicalPrices(r, g, ids);
    PassesEveryGate(r, g, InvalidListingPrice);
    PassesEveryGate(r, g, InvalidDaysOnMarket);
    PassesEveryGate(r, g, SchemaInvalid);
  }

  // ---- What the tolerance can let through ----

  ghost predicate Priced(r: RawRecord) {
    && r.areaSqm.Some? && r.areaSqm.value > 0.0 && r.dealPriceCny.Some? && r.dealPriceCny.value > 0.0
    && r.unitPriceCnySqm.Some? && r.unitPriceCnySqm.value > 0.0
  }

  /** The unit price accounts for no more than the deal price. */
  ghost predicate Understated(r: RawRecord) {
    Priced(r) && r.unitPriceCnySqm.value * r.areaSqm.value <= r.dealPriceCny.value
  }

  ghost predicate Overstated(r: RawRecord) {
    Priced(r) && r.unitPriceCnySqm.value * r.areaSqm.value > r.dealPriceCny.value
  }

  function UnitPriced(unitPrice: real): RawRecord {
    RawRecord("s", Some("1"), None, Some(0), Some(1.0), None, None, None, None, None, Some(1.0), Some(unitPrice),
              None, None, 0, "v")
  }

  lemma UnderstatedBelowOne(r: RawRecord, g: Gate)
    requires Understated(r) && g.tolerance >= 1.0
    ensures !Breaks(InconsistentUnitPrice, r, g)
  {
    var product, price := r.unitPriceCnySqm.value * r.areaSqm.value, r.dealPriceCny.value;
    assert product > 0.0 by { SignProduct(r.unitPriceCnySqm.value, r.areaSqm.value); PositiveProduct(r); }
    QuotientBelowOne(price - product, price);
  }

  lemma PositiveProduct(r: RawRecord)
    requires Priced(r)
    ensures r.unitPriceCnySqm.value * r.areaSqm.value > 0.0
  {
  }

  lemma UnderstatedExample(g: Gate)
    requires g.tolerance < 1.0
    ensures exists r :: Understated(r) && Breaks(InconsistentUnitPrice, r, g)
  {
    var low := if g.tolerance < 0.0 then 0.0 else g.tolerance;
    var unitPrice := (1.0 - low) / 2.0;
    var r := UnitPriced(unitPrice);
    assert unitPrice * 1.0 == unitPrice && Abs(unitPrice - 1.0) / 1.0 == 1.0 - unitPrice;
    assert Understated(r) && Breaks(InconsistentUnitPrice, r, g);
  }

  /** The price gate against the two ways a unit price can be wrong: understated ones can be rejected exactly
      below a tolerance of one, overstated ones under every tolerance. */
  lemma PriceGateReach(g: Gate)
    ensures (exists r :: Understated(r) && Breaks(InconsistentUnitPrice, r, g)) <==> g.tolerance < 1.0
    ensures exists r :: Overstated(r) && Breaks(InconsistentUnitPrice, r, g)
  {
    if g.tolerance < 1.0 {
      UnderstatedExample(g);
    }
    forall r | Understated(r) && Breaks(InconsistentUnitPrice, r, g) ensures g.tolerance < 1.0 {
      if g.tolerance >= 1.0 {
        UnderstatedBelowOne(r, g);
      }
    }
    var unitPrice := Abs(g.tolerance) + 3.0;
    var r := UnitPriced(unitPrice);
    assert unitPrice * 1.0 == unitPrice && Abs(unitPrice - 1.0) / 1.0 == unitPrice - 1.0;
    assert Overstated(r) && Breaks(InconsistentUnitPrice, r, g);
  }
}
