/** Stored-transaction reads and their baseline metrics (services/transaction_query.py,
    analytics/transaction_metrics.py). */
module TransactionMetrics {
  import opened Text
  import opened Orders
  import opened Sequences
  import opened Ratios
  import opened Statistics
  import opened Domain
  import opened TransactionGates
  import opened TransactionIngestion

  // ---- The query ----

  datatype Query = Query(communityId: Id, startDate: Option<Day>, endDate: Option<Day>)

  datatype QueryCheck = Fine | BlankSubject | InvertedRange

  function CheckQuery(q: Query): QueryCheck {
    if Strip(q.communityId) == "" then BlankSubject
    else if q.startDate.Some? && q.endDate.Some? && q.startDate.value > q.endDate.value then InvertedRange
    else Fine
  }

  lemma CheckExactly(q: Query)
    ensures CheckQuery(q) == BlankSubject <==> AllSpace(q.communityId)
    ensures CheckQuery(q) == InvertedRange <==>
            !AllSpace(q.communityId) && q.startDate.Some? && q.endDate.Some? && q.endDate.value < q.startDate.value
  {
    BlankIsAllSpace(q.communityId);
  }

  predicate Matches(t: Transaction, q: Query) {
    && t.communityId == q.communityId
    && (q.startDate.Some? ==> t.dealDate >= q.startDate.value)
    && (q.endDate.Some? ==> t.dealDate <= q.endDate.value)
  }

  function NewestFirst(table: TransactionTable, q: Query): set<(int, Id)> {
    set id | id in table && Matches(table[id], q) :: (-table[id].dealDate, id)
  }

  /** WHERE community and window, ORDER BY deal_date DESC, transaction_id */
  function ListTransactions(table: TransactionTable, q: Query): seq<Transaction> {
    var keys := SortedRecency(NewestFirst(table, q));
    assert forall i :: 0 <= i < |keys| ==> keys[i] in Elements(keys);
    Rows(table, Ids(keys))
  }

  lemma NewestFirstKey(table: TransactionTable, q: Query, k: (int, Id))
    ensures k in NewestFirst(table, q) <==>
            k.1 in table && Matches(table[k.1], q) && k.0 == -table[k.1].dealDate
  {
    if k.1 in table && Matches(table[k.1], q) && k.0 == -table[k.1].dealDate {
      assert k == (-table[k.1].dealDate, k.1);
    }
  }

  lemma ListedTransaction(table: TransactionTable, q: Query, i: nat)
    requires i < |ListTransactions(table, q)|
    ensures |SortedRecency(NewestFirst(table, q))| == |ListTransactions(table, q)|
    ensures var k := SortedRecency(NewestFirst(table, q))[i];
            && k.1 in table && Matches(table[k.1], q) && k.0 == -table[k.1].dealDate
            && ListTransactions(table, q)[i] == table[k.1]
  {
    var keys := SortedRecency(NewestFirst(table, q));
    assert keys[i] in Elements(keys);
    NewestFirstKey(table, q, keys[i]);
  }

  lemma RowListed(table: TransactionTable, q: Query, t: Transaction)
    requires t.transactionId in table && table[t.transactionId] == t && Matches(t, q)
    ensures t in ListTransactions(table, q)
  {
    var keys := SortedRecency(NewestFirst(table, q));
    var k := (-t.dealDate, t.transactionId);
    NewestFirstKey(table, q, k);
    assert k in Elements(keys);
    var i :| 0 <= i < |keys| && keys[i] == k;
    ListedTransaction(table, q, i);
  }

  /** The read returns exactly the rows of the community inside the window. */
  lemma ListExactly(table: TransactionTable, q: Query, t: Transaction)
    requires forall id :: id in table ==> table[id].transactionId == id
    ensures t in ListTransactions(table, q) <==>
            && t.transactionId in table && table[t.transactionId] == t && t.communityId == q.communityId
            && (q.startDate == None || q.startDate.value <= t.dealDate)
            && (q.endDate == None || t.dealDate <= q.endDate.value)
  {
    var rows := ListTransactions(table, q);
    if t in rows {
      var i :| 0 <= i < |rows| && rows[i] == t;
      ListedTransaction(table, q, i);
    }
    if t.transactionId in table && table[t.transactionId] == t && Matches(t, q) {
      RowListed(table, q, t);
    }
  }

  /** Newest deal first, ties in identifier order, no row twice. */
  lemma ListedNewestFirst(table: TransactionTable, q: Query, i: nat, j: nat)
    requires forall id :: id in table ==> table[id].transactionId == id
    requires i < j < |ListTransactions(table, q)|
    ensures var a, b := ListTransactions(table, q)[i], ListTransactions(table, q)[j];
            a.dealDate > b.dealDate
            || (a.dealDate == b.dealDate && a.transactionId != b.transactionId && StrLe(a.transactionId, b.transactionId))
  {
    var keys := SortedRecency(NewestFirst(table, q));
    ListedTransaction(table, q, i);
    ListedTransaction(table, q, j);
    assert IntStrLe(keys[i], keys[j]) && keys[i] != keys[j];
  }

  // ---- Conservation of value over a window ----

  function UnitTotal(ts: seq<Transaction>): real {
    if ts == [] then 0.0 else ts[0].unitPriceCnySqm * ts[0].areaSqm + UnitTotal(ts[1..])
  }

  function DealTotal(ts: seq<Transaction>): real {
    if ts == [] then 0.0 else ts[0].dealPriceCny + DealTotal(ts[1..])
  }

  /** Unit prices times areas add up to the deal prices within the tolerance. */
  ghost predicate Balanced(ts: seq<Transaction>, tolerance: real) {
    Abs(UnitTotal(ts) - DealTotal(ts)) <= tolerance * DealTotal(ts)
  }

  lemma {:induction false} TotalsAgree(ts: seq<Transaction>, tolerance: real)
    requires forall i :: 0 <= i < |ts| ==> WithinTolerance(ts[i], tolerance)
    ensures Balanced(ts, tolerance)
  {
    if ts == [] {
      assert UnitTotal(ts) == DealTotal(ts) == 0.0;
    } else {
      TotalsAgree(ts[1..], tolerance);
      BalancedMore(ts, tolerance);
    }
  }

  lemma BalancedMore(ts: seq<Transaction>, tolerance: real)
    requires ts != [] && WithinTolerance(ts[0], tolerance) && Balanced(ts[1..], tolerance)
    ensures Balanced(ts, tolerance)
  {
    AddBounds(ts[0].unitPriceCnySqm * ts[0].areaSqm, ts[0].dealPriceCny,
              UnitTotal(ts[1..]), DealTotal(ts[1..]), tolerance);
  }

  lemma AddBounds(u: real, d: real, us: real, ds: real, k: real)
    requires Abs(u - d) <= k * d && Abs(us - ds) <= k * ds
    ensures Abs((u + us) - (d + ds)) <= k * (d + ds)
  {
    assert k * (d + ds) == k * d + k * ds;
  }

  lemma ListedBalanced(table: TransactionTable, q: Query, tolerance: real)
    requires forall id :: id in table ==> WithinTolerance(table[id], tolerance)
    ensures Balanced(ListTransactions(table, q), tolerance)
  {
    var ts := ListTransactions(table, q);
    forall i | 0 <= i < |ts| ensures WithinTolerance(ts[i], tolerance) {
      ListedTransaction(table, q, i);
    }
    TotalsAgree(ts, tolerance);
  }

  /** Over any query of a reachable store the totals agree within the tolerance. */
  lemma {:induction false} WindowTotalsAgree(run: seq<TransactionRequest>, tolerance: real,
                                            ids: TransactionIds, q: Query)
    requires ValidRequests(run) && AtMost(run, tolerance)
    ensures Balanced(ListTransactions(Stored(Upserts(run, ids)), q), tolerance)
  {
    var table := Stored(Upserts(run, ids));
    forall id | id in table ensures WithinTolerance(table[id], tolerance) {
      ReachableRowsAdmitted(run, tolerance, ids, id);
    }
    ListedBalanced(table, q, tolerance);
  }

  // ---- Metrics ----

  datatype CommunityTransactionMetrics = CommunityTransactionMetrics(
    communityId: Id, sampleCount: nat, minimumSampleCount: int, latestDealDate: Option<Day>,
    medianUnitPriceCnySqm: MedianMetric, medianDealPriceCny: MedianMetric, medianDaysOnMarket: MedianMetric,
    medianNegotiationDiscount: MedianMetric, transactionIds: seq<Id>, sources: seq<string>)

  datatype TransactionMetricsOutcome =
    | Computed(metrics: CommunityTransactionMetrics)
    | InvalidMinimum
    | BlankCommunity
    | ForeignTransactions(communities: set<Id>)

  predicate HasDays(t: Transaction) { t.daysOnMarket.Some? }

  predicate HasAskingPrice(t: Transaction) { t.initialListingPriceCny.Some? }

  function UnitPriceOf(t: Transaction): real { t.unitPriceCnySqm }

  function DealPriceOf(t: Transaction): real { t.dealPriceCny }

  function DaysOf(t: Transaction): real {
    if t.daysOnMarket.Some? then t.daysOnMarket.value as real else 0.0
  }

  function IdOf(t: Transaction): Id { t.transactionId }

  /** (asked - dealt) / asked; a record without asking price has none, and contributes nothing. */
  function NegotiationDiscount(t: Transaction): real {
    if t.initialListingPriceCny.Some? && t.initialListingPriceCny.value != 0.0
    then (t.initialListingPriceCny.value - t.dealPriceCny) / t.initialListingPriceCny.value
    else 0.0
  }

  function Discounts(sample: seq<Transaction>): seq<real> {
    Map(NegotiationDiscount, Filter(HasAskingPrice, sample))
  }

  function NewestDeal(sample: seq<Transaction>): Option<Day> {
    if sample == [] then None
    else
      match NewestDeal(sample[1..])
      case None => Some(sample[0].dealDate)
      case Some(day) => Some(if day >= sample[0].dealDate then day else sample[0].dealDate)
  }

  function Summarize(sample: seq<Transaction>, c: Id, minimum: int): CommunityTransactionMetrics
    requires minimum >= 1
  {
    CommunityTransactionMetrics(
      c, |sample|, minimum, NewestDeal(sample),
      MedianOf(Map(UnitPriceOf, sample), minimum),
      MedianOf(Map(DealPriceOf, sample), minimum),
      MedianOf(Map(DaysOf, Filter(HasDays, sample)), minimum),
      MedianOf(Discounts(sample), minimum),
      Sort(StrLe, Map(IdOf, sample)),
      SortedIds(set t | t in sample :: t.source))
  }

  function ForeignTo(sample: seq<Transaction>, c: Id): set<Id> {
    set t | t in sample && t.communityId != c :: t.communityId
  }

  function ComputeCommunityTransactionMetrics(sample: seq<Transaction>, c: Id, minimum: int): TransactionMetricsOutcome {
    if minimum < 1 then InvalidMinimum
    else if Strip(c) == "" then BlankCommunity
    else if ForeignTo(sample, c) != {} then ForeignTransactions(ForeignTo(sample, c))
    else Computed(Summarize(sample, c, minimum))
  }

  lemma ListedOwn(table: TransactionTable, q: Query)
    ensures ForeignTo(ListTransactions(table, q), q.communityId) == {}
  {
    var rows := ListTransactions(table, q);
    forall i | 0 <= i < |rows| ensures rows[i].communityId == q.communityId {
      ListedTransaction(table, q, i);
    }
    NoneForeign(rows, q.communityId);
  }

  lemma NoneForeign(rows: seq<Transaction>, c: Id)
    requires forall i :: 0 <= i < |rows| ==> rows[i].communityId == c
    ensures ForeignTo(rows, c) == {}
  {
  }

  predicate IsNewest(sample: seq<Transaction>, day: Day) {
    (exists t :: t in sample && t.dealDate == day) && forall t :: t in sample ==> t.dealDate <= day
  }

  lemma {:induction false} NewestDealIsMax(sample: seq<Transaction>)
    ensures NewestDeal(sample).None? <==> sample == []
    ensures sample != [] ==> IsNewest(sample, NewestDeal(sample).value)
  {
    if sample == [] {
    } else {
      NewestDealIsMax(sample[1..]);
      assert forall t :: t in sample <==> t == sample[0] || t in sample[1..];
    }
  }

  lemma {:induction false} SameNewest(a: seq<Transaction>, b: seq<Transaction>)
    requires multiset(a) == multiset(b)
    ensures NewestDeal(a) == NewestDeal(b)
  {
    SameMembers(a, b);
    assert |multiset(a)| == |a| && |multiset(b)| == |b|;
    NewestDealIsMax(a);
    NewestDealIsMax(b);
  }

  lemma SameForeign(a: seq<Transaction>, b: seq<Transaction>, c: Id)
    requires multiset(a) == multiset(b)
    ensures ForeignTo(a, c) == ForeignTo(b, c)
  {
    SameMembers(a, b);
  }

  /** The metrics depend on which records are supplied, not on their order. */
  lemma RecordOrderIrrelevant(a: seq<Transaction>, b: seq<Transaction>, c: Id, minimum: int)
    requires multiset(a) == multiset(b)
    ensures ComputeCommunityTransactionMetrics(a, c, minimum) == ComputeCommunityTransactionMetrics(b, c, minimum)
  {
    SameForeign(a, b, c);
    if minimum >= 1 {
      SameSummary(a, b, c, minimum);
    }
  }

  lemma SameSummary(a: seq<Transaction>, b: seq<Transaction>, c: Id, minimum: int)
    requires multiset(a) == multiset(b) && minimum >= 1
    ensures Summarize(a, c, minimum) == Summarize(b, c, minimum)
  {
    SameMedians(a, b, minimum);
    SameListing(a, b);
    SameNewest(a, b);
  }

  lemma {:induction false} SameMedians(a: seq<Transaction>, b: seq<Transaction>, minimum: int)
    requires multiset(a) == multiset(b) && minimum >= 1
    ensures MedianOf(Map(UnitPriceOf, a), minimum) == MedianOf(Map(UnitPriceOf, b), minimum)
    ensures MedianOf(Map(DealPriceOf, a), minimum) == MedianOf(Map(DealPriceOf, b), minimum)
    ensures MedianOf(Map(DaysOf, Filter(HasDays, a)), minimum) == MedianOf(Map(DaysOf, Filter(HasDays, b)), minimum)
    ensures MedianOf(Discounts(a), minimum) == MedianOf(Discounts(b), minimum)
  {
    SameMedian(UnitPriceOf, a, b, minimum);
    SameMedian(DealPriceOf, a, b, minimum);
    FilterPermutation(HasDays, a, b);
    SameMedian(DaysOf, Filter(HasDays, a), Filter(HasDays, b), minimum);
    FilterPermutation(HasAskingPrice, a, b);
    SameMedian(NegotiationDiscount, Filter(HasAskingPrice, a), Filter(HasAskingPrice, b), minimum);
  }

  lemma {:induction false} SameMedian(f: Transaction -> real, a: seq<Transaction>, b: seq<Transaction>, minimum: int)
    requires multiset(a) == multiset(b) && minimum >= 1
    ensures MedianOf(Map(f, a), minimum) == MedianOf(Map(f, b), minimum)
  {
    MapPermutation(f, a, b);
    MedianPermutation(Map(f, a), Map(f, b), minimum);
  }

  lemma {:induction false} SameListing(a: seq<Transaction>, b: seq<Transaction>)
    requires multiset(a) == multiset(b)
    ensures |a| == |b|
    ensures Sort(StrLe, Map(IdOf, a)) == Sort(StrLe, Map(IdOf, b))
    ensures (set t | t in a :: t.source) == (set t | t in b :: t.source)
  {
    assert |multiset(a)| == |a| && |multiset(b)| == |b|;
    MapPermutation(IdOf, a, b);
    OrdersAreTotal();
    SortPermutation(StrLe, Map(IdOf, a), Map(IdOf, b));
    SameMembers(a, b);
  }

  // ---- Repeated records ----

  /** Records are told apart by their identifiers. */
  ghost predicate ToldApart(sample: seq<Transaction>) {
    forall t, u :: t in sample && u in sample && t.transactionId == u.transactionId ==> t == u
  }

  lemma {:induction false} IdCount(sample: seq<Transaction>, t: Transaction)
    requires forall u :: u in sample && u.transactionId == t.transactionId ==> u == t
    ensures multiset(Map(IdOf, sample))[t.transactionId] == multiset(sample)[t]
  {
    if sample == [] {
    } else {
      IdCount(sample[1..], t);
      assert sample == [sample[0]] + sample[1..];
      assert Map(IdOf, sample) == [IdOf(sample[0])] + Map(IdOf, sample[1..]);
    }
  }

  lemma {:induction false} SameIdsSameRecords(a: seq<Transaction>, b: seq<Transaction>)
    requires Elements(a) == Elements(b) && ToldApart(a)
    requires multiset(Map(IdOf, a)) == multiset(Map(IdOf, b))
    ensures multiset(a) == multiset(b)
  {
    assert forall t :: t in a <==> t in Elements(a);
    assert forall t :: t in b <==> t in Elements(b);
    forall t ensures multiset(a)[t] == multiset(b)[t] {
      if t in a {
        IdCount(a, t);
        IdCount(b, t);
      } else {
        assert t !in multiset(a) && t !in multiset(b);
      }
    }
  }

  lemma {:induction false} SameListedIds(a: seq<Transaction>, b: seq<Transaction>)
    requires Sort(StrLe, Map(IdOf, a)) == Sort(StrLe, Map(IdOf, b))
    ensures multiset(Map(IdOf, a)) == multiset(Map(IdOf, b))
  {
    assert multiset(Sort(StrLe, Map(IdOf, a))) == multiset(Map(IdOf, a));
    assert multiset(Sort(StrLe, Map(IdOf, b))) == multiset(Map(IdOf, b));
  }

  /** The set of records does not settle the metrics, their multiset does: two samples of the same records get the
      same outcome exactly when both are refused or each record is supplied equally often. */
  lemma SetSufficesExactly(a: seq<Transaction>, b: seq<Transaction>, c: Id, minimum: int)
    requires Elements(a) == Elements(b) && ToldApart(a)
    ensures ComputeCommunityTransactionMetrics(a, c, minimum) == ComputeCommunityTransactionMetrics(b, c, minimum)
            <==> minimum < 1 || Strip(c) == "" || ForeignTo(a, c) != {} || multiset(a) == multiset(b)
  {
    assert forall t :: t in a <==> t in Elements(a);
    assert forall t :: t in b <==> t in Elements(b);
    assert ForeignTo(a, c) == ForeignTo(b, c);
    if multiset(a) == multiset(b) {
      RecordOrderIrrelevant(a, b, c, minimum);
    }
    if minimum >= 1 && Summarize(a, c, minimum) == Summarize(b, c, minimum) {
      SameListedIds(a, b);
      SameIdsSameRecords(a, b);
    }
  }

  /** A single record supplied three times is counted three times, and reaches the minimum sample. */
  lemma ThriceCounted(t: Transaction, c: Id)
    requires t.communityId == c && Strip(c) != ""
    ensures var once := ComputeCommunityTransactionMetrics([t], c, MINIMUM_SAMPLE_COUNT);
            var thrice := ComputeCommunityTransactionMetrics([t, t, t], c, MINIMUM_SAMPLE_COUNT);
            && Elements([t]) == Elements([t, t, t])
            && once.Computed? && once.metrics.sampleCount == 1 && once.metrics.medianDealPriceCny.value.None?
            && thrice.Computed? && thrice.metrics.sampleCount == 3 && thrice.metrics.medianDealPriceCny.value.Some?
  {
    assert ForeignTo([t], c) == {} && ForeignTo([t, t, t], c) == {};
    assert |[t]| == 1 && |[t, t, t]| == 3;
  }

  // ---- What the medians say ----

  predicate Every(t: Transaction) { true }

  lemma {:induction false} FilterEvery(sample: seq<Transaction>)
    ensures Filter(Every, sample) == sample
  {
    if sample == [] {
    } else {
      FilterEvery(sample[1..]);
      assert sample == [sample[0]] + sample[1..];
    }
  }

  /** Dealt over asked, taken from one. */
  function DiscountOf(t: Transaction): real {
    if t.initialListingPriceCny.Some? && t.initialListingPriceCny.value != 0.0
    then 1.0 - t.dealPriceCny / t.initialListingPriceCny.value else 0.0
  }

  lemma DiscountExactly(t: Transaction)
    ensures t.initialListingPriceCny.Some? && t.initialListingPriceCny.value > 0.0 ==>
              NegotiationDiscount(t) == DiscountOf(t)
  {
    if t.initialListingPriceCny.Some? && t.initialListingPriceCny.value > 0.0 {
      OneLess(t.dealPriceCny, t.initialListingPriceCny.value);
    }
  }

  /** Each median is the exact median of its field over the records that carry it. */
  lemma SampleMedians(sample: seq<Transaction>, c: Id, minimum: int)
    requires minimum >= 1 && forall t :: t in sample ==> t.Valid()
    ensures var m := Summarize(sample, c, minimum);
            && MedianFor(m.medianUnitPriceCnySqm, minimum, sample, Every, (t: Transaction) => t.unitPriceCnySqm)
            && MedianFor(m.medianDealPriceCny, minimum, sample, Every, (t: Transaction) => t.dealPriceCny)
            && MedianFor(m.medianDaysOnMarket, minimum, sample, (t: Transaction) => t.daysOnMarket.Some?,
                         (t: Transaction) => if t.daysOnMarket.Some? then t.daysOnMarket.value as real else 0.0)
            && MedianFor(m.medianNegotiationDiscount, minimum, sample,
                         (t: Transaction) => t.initialListingPriceCny.Some?, DiscountOf)
  {
    FilterEvery(sample);
    MedianOfField(minimum, sample, Every, UnitPriceOf, Every, (t: Transaction) => t.unitPriceCnySqm);
    MedianOfField(minimum, sample, Every, DealPriceOf, Every, (t: Transaction) => t.dealPriceCny);
    MedianOfField(minimum, sample, HasDays, DaysOf, (t: Transaction) => t.daysOnMarket.Some?,
                  (t: Transaction) => if t.daysOnMarket.Some? then t.daysOnMarket.value as real else 0.0);
    forall t | t in sample
      ensures HasAskingPrice(t) ==> NegotiationDiscount(t) == DiscountOf(t)
    {
      DiscountExactly(t);
    }
    MedianOfField(minimum, sample, HasAskingPrice, NegotiationDiscount,
                  (t: Transaction) => t.initialListingPriceCny.Some?, DiscountOf);
  }

  /** Which check refuses, and whom it names; otherwise the sample is named: every record's identifier, as often as
      supplied, in order, and every source once, in order. */
  lemma {:induction false} OutcomeExactly(sample: seq<Transaction>, c: Id, minimum: int)
    ensures var outcome := ComputeCommunityTransactionMetrics(sample, c, minimum);
            if minimum < 1 then outcome == InvalidMinimum
            else if AllSpace(c) then outcome == BlankCommunity
            else if exists t :: t in sample && t.communityId != c then
              outcome.ForeignTransactions?
              && forall x :: x in outcome.communities <==> x != c && exists t :: t in sample && t.communityId == x
            else
              && outcome == Computed(Summarize(sample, c, minimum))
              && (outcome.metrics.latestDealDate.None? <==> sample == [])
              && (sample != [] ==> IsNewest(sample, outcome.metrics.latestDealDate.value))
              && outcome.metrics.communityId == c && outcome.metrics.minimumSampleCount == minimum
              && outcome.metrics.sampleCount == |sample|
              && Sorted(StrLe, outcome.metrics.transactionIds)
              && multiset(outcome.metrics.transactionIds) == multiset(Map((t: Transaction) => t.transactionId, sample))
              && Sorted(StrLe, outcome.metrics.sources) && Distinct(outcome.metrics.sources)
              && forall x :: x in outcome.metrics.sources <==> exists t :: t in sample && t.source == x
  {
    BlankIsAllSpace(c);
    assert (exists t :: t in sample && t.communityId != c) <==> ForeignTo(sample, c) != {} by {
      if exists t :: t in sample && t.communityId != c {
        var t :| t in sample && t.communityId != c;
        assert t.communityId in ForeignTo(sample, c);
      }
    }
    SampleNamed(sample);
    NewestDealIsMax(sample);
  }

  lemma {:induction false} SampleNamed(sample: seq<Transaction>)
    ensures var ids := Sort(StrLe, Map(IdOf, sample));
            Sorted(StrLe, ids) && multiset(ids) == multiset(Map((t: Transaction) => t.transactionId, sample))
    ensures var sources := SortedIds(set t | t in sample :: t.source);
            && Sorted(StrLe, sources) && Distinct(sources)
            && forall x :: x in sources <==> exists t :: t in sample && t.source == x
  {
    OrdersAreTotal();
    SortSorted(StrLe, Map(IdOf, sample));
    assert Map(IdOf, sample) == Map((t: Transaction) => t.transactionId, sample);
    var sources := SortedIds(set t | t in sample :: t.source);
    assert forall x :: x in sources <==> x in Elements(sources);
  }

  predicate DealtBelow(t: Transaction) {
    t.initialListingPriceCny.Some? && t.dealPriceCny < t.initialListingPriceCny.value
  }

  predicate DealtAbove(t: Transaction) {
    t.initialListingPriceCny.Some? && t.dealPriceCny > t.initialListingPriceCny.value
  }

  lemma DiscountSign(t: Transaction)
    requires t.Valid() && HasAskingPrice(t)
    ensures NegotiationDiscount(t) < 1.0
    ensures NegotiationDiscount(t) > 0.0 <==> DealtBelow(t)
    ensures NegotiationDiscount(t) < 0.0 <==> DealtAbove(t)
  {
    var asked, dealt := t.initialListingPriceCny.value, t.dealPriceCny;
    QuotientSign(asked - dealt, asked);
    var q := (asked - dealt) / asked;
    SignProduct(q - 1.0, asked);
    assert (q - 1.0) * asked == q * asked - asked;
  }

  lemma {:induction false} DiscountCounts(sample: seq<Transaction>)
    requires forall t :: t in sample ==> t.Valid()
    ensures Count((v: real) => v > 0.0, Discounts(sample)) == Count(DealtBelow, Filter(HasAskingPrice, sample))
    ensures Count((v: real) => v < 0.0, Discounts(sample)) == Count(DealtAbove, Filter(HasAskingPrice, sample))
    ensures forall v :: v in Discounts(sample) ==> v < 1.0
  {
    var asking := Filter(HasAskingPrice, sample);
    forall t | t in asking
      ensures NegotiationDiscount(t) < 1.0
      ensures NegotiationDiscount(t) > 0.0 <==> DealtBelow(t)
      ensures NegotiationDiscount(t) < 0.0 <==> DealtAbove(t)
    {
      DiscountSign(t);
    }
    CountMap((v: real) => v > 0.0, NegotiationDiscount, DealtBelow, asking);
    CountMap((v: real) => v < 0.0, NegotiationDiscount, DealtAbove, asking);
  }

  /** The reported median discount is below one; it is positive when most asked-for records dealt below
      the asking price, negative when most dealt above it. */
  lemma {:induction false} MajorityMovesDiscount(sample: seq<Transaction>, c: Id, minimum: int)
    requires minimum >= 1 && forall t :: t in sample ==> t.Valid()
    ensures var m := Summarize(sample, c, minimum).medianNegotiationDiscount;
            var asking := Filter(HasAskingPrice, sample);
            && m.usableCount == Count(HasAskingPrice, sample)
            && (m.value.Some? ==>
                  && m.value.value < 1.0
                  && (2 * Count(DealtBelow, asking) > |asking| ==> m.value.value > 0.0)
                  && (2 * Count(DealtAbove, asking) > |asking| ==> m.value.value < 0.0))
  {
    FilterCount(HasAskingPrice, sample);
    DiscountCounts(sample);
    var discounts := Discounts(sample);
    if discounts != [] {
      MedianBelow(discounts, 1.0);
      if 2 * Count((v: real) => v > 0.0, discounts) > |discounts| {
        MajorityAbove(discounts, 0.0);
      }
      if 2 * Count((v: real) => v < 0.0, discounts) > |discounts| {
        MajorityBelow(discounts, 0.0);
      }
    }
  }
}
