/** One read assembling a community's stored evidence (services/community_evidence.py). */
module CommunityEvidence {
  import opened Text
  import opened Statistics
  import opened Domain
  import opened ListingStore
  import opened ListingReads
  import opened ListingIngestion
  import opened LM = ListingMetrics
  import LE = ListingEvidence
  import opened TransactionIngestion
  import T = TransactionMetrics

  datatype MarketEvidence = MarketEvidence(
    communityId: Id, transactionMetrics: T.CommunityTransactionMetrics, listingMetrics: CommunityListingMetrics)

  datatype EvidenceOutcome =
    | Assembled(evidence: MarketEvidence)
    | BlankSubject
    | TransactionsRefused(refusal: T.TransactionMetricsOutcome)
    | ListingsRefused(outcome: LM.Outcome<CommunityListingMetrics>)
    | MixedSubjects

  lemma QueriedTransactionsAccepted(table: TransactionTable, c: Id, minimum: int)
    requires !AllSpace(c) && minimum >= 1
    ensures var rows := T.ListTransactions(table, T.Query(c, None, None));
            T.ComputeCommunityTransactionMetrics(rows, c, minimum) == T.Computed(T.Summarize(rows, c, minimum))
  {
    BlankIsAllSpace(c);
    T.ListedOwn(table, T.Query(c, None, None));
  }

  /** On every store the repositories can hold, the read succeeds for every non-blank subject:
      no foreign or repeated listing, orphan or conflicting snapshot, or inverted seen range can reach
      the analytics. Only a blank subject is refused. */
  method GetMarketEvidence(listings: ListingRepository, transactions: TransactionRepository, c: Id)
    returns (outcome: EvidenceOutcome)
    requires listings.Valid() && transactions.Valid()
    ensures WellKept(listings.Contents())
    ensures AllSpace(c) <==> outcome == BlankSubject
    ensures !AllSpace(c) ==>
              outcome == Assembled(MarketEvidence(
                c,
                T.Summarize(T.ListTransactions(transactions.rows, T.Query(c, None, None)), c, 3),
                LE.StoredMetrics(listings.Contents(), c, 3)))
  {
    var tables := listings.Contents();
    ReachableWellKept(listings.log);
    BlankIsAllSpace(c);
    var query := T.Query(c, None, None);
    if T.CheckQuery(query) != T.Fine {
      return BlankSubject;
    }
    QueriedTransactionsAccepted(transactions.rows, c, MINIMUM_SAMPLE_COUNT);
    var transactionMetrics :=
      T.ComputeCommunityTransactionMetrics(T.ListTransactions(transactions.rows, query), c, MINIMUM_SAMPLE_COUNT);
    if !transactionMetrics.Computed? {
      return TransactionsRefused(transactionMetrics);
    }
    LE.SnapshotsAccepted(tables, c);
    LE.StoredEvidenceAccepted(tables, c, MINIMUM_SAMPLE_COUNT);
    var listingMetrics := ComputeCommunityListingMetrics(
      ListForCommunity(tables, c), HistoryForCommunity(tables, c), c, MINIMUM_SAMPLE_COUNT);
    if listingMetrics.Invalid? {
      return ListingsRefused(listingMetrics);
    }
    if transactionMetrics.metrics.communityId != c || listingMetrics.value.communityId != c {
      return MixedSubjects;
    }
    return Assembled(MarketEvidence(c, transactionMetrics.metrics, listingMetrics.value));
  }
}
