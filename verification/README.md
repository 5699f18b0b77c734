# Verified model of the property-evidence core

The property agent collects what a source publishes about residential communities and turns it into
evidence: listings with a price history, closed transactions, and deterministic metrics over both.
This project models that core in Dafny and proves what the parts promise each other.

* `Text`, `Orders`, `Sequences`, `Ratios` - strings as Python strips and splits them, sorting, comprehensions,
  quotients of reals.
* `Domain` - canonical listing records and what their models check.
* `ListingStore`, `ListingReads`, `ListingIngestion`, `ListingRuns` - the two listing tables, the merge on
  conflict, the read paths, the ingestion loop, and what holds over whole runs. The repository is a class with
  one field per table and a ghost log of every write; its invariant says that the tables are exactly what the
  log leaves behind, and `ListingStore.Reflects` says what that is without mentioning any table.
* `Statistics`, `ListingMetrics`, `ListingAccounting`, `ListingRefusals`, `AcceptedMetrics`, `ListingEvidence`,
  `CommunityEvidence` - medians, inventory and repricing metrics, which evidence they refuse, what their numbers say
  about the supplied records, and why stored evidence always passes their checks.
* `TransactionGates`, `TransactionRecords`, `TransactionIngestion`, `TransactionBatches`, `TransactionMetrics` -
  data-quality gates, batch acceptance, the keyed table, windowed reads and baseline metrics. `TransactionRecords` and
  `TransactionBatches` say what the gates and a batch do in the fields of the records alone.
* `YamlMapping`, `YamlProperties` - the YAML-subset reader of city profiles, its canonical printer and round trip.
* `YamlGrammar`, `YamlTexts`, `YamlStyles` - the grammar of a line and of a text, both ways, why a line is refused, and
  round trips for plain, single-quoted and double-quoted values.
* `NumberCells` - the numeric cell parser and its unit converters.
* `CommunityResolver` - the decision rule between same-name communities.

Code that works step by step (the loops, the cascade of gates, the repositories) is a method or a class proved
against a specification function; the lemmas then say what the specification means. Instants are microseconds,
dates are days, prices are reals, and confidences are hundredths. Automatic induction is switched off wherever it
would apply, so every inductive step is written out. `dafny verify dfyconfig.toml` checks everything.

Four findings about the code:

* A sole same-name candidate is resolved without looking at its score, even when its district contradicts the
  request, and a second candidate can then take over (`SoleCandidateOvertaken`). The guarantees that do hold are
  stated with their exact conditions (`ContradictedWinsOnlyAlone`, `SoleCandidateStability`).
* Both metrics document that they depend on the set of records passed in. They do not. A listing supplied twice is
  refused although both copies are equal (`ListingMetrics.TwiceRefused`); a transaction supplied three times is
  silently counted three times (`TransactionMetrics.ThriceCounted`). When the set does settle the outcome is proved
  both ways (`SetSufficesExactly` in both modules). The model follows the code.
* The bound on the unit-price tolerance is documented by saying that above 100 % the consistency gate would never
  reject. From 100 % on it never rejects a unit price that understates the deal price, but it still rejects ones
  that overstate it enough (`PriceGateReach`).
* The order in which observations arrive leaves no trace in the stored evidence exactly when no listing was reported
  under two communities and no two snapshots disagree at one instant (`OrderIrrelevantExactly`).

## Model

| member | source | states |
|---|---|---|
| `YamlMapping.ParseYamlMapping` | src/cn_property_agent/config/yaml_mapping.py:29-76 | The line loop with its local state (root, open section, section indent) yields the outcome of the line-by-line state machine: the mapping, or the first failing line with its kind of error. The lemmas below say what that outcome means. |
| `YamlProperties.RoundTrip` | src/cn_property_agent/config/yaml_mapping.py:29-94 | Reading the canonical quoted printing of any mapping with legal, distinct keys and values without line boundaries returns that mapping: keys, values, key order and empty sections. |
| `YamlProperties.ParseImage` | src/cn_property_agent/config/yaml_mapping.py:29-94 | A mapping is the result of reading some text if and only if it is such a printable mapping. |
| `YamlProperties.ParsePrintParse` | src/cn_property_agent/config/yaml_mapping.py:29-94 | Printing what was read from any accepted text and reading it again gives the same result. |
| `YamlProperties.FirstErrorWins` | src/cn_property_agent/config/yaml_mapping.py:36-74 | The reported line n is the first bad one: the n - 1 lines before it are accepted, and cutting the text after line n reports the same error. |
| `YamlProperties.SkippedLineInsertion` | src/cn_property_agent/config/yaml_mapping.py:36-40 | A blank or comment line inserted anywhere leaves the mapping unchanged, and leaves an error the same error on the same content, its number shifted when it lies below. |
| `YamlProperties.PrefixAccepted` | src/cn_property_agent/config/yaml_mapping.py:36-76 | Every line-prefix of an accepted text is accepted, and its result is a sub-mapping: leading entries, the last one possibly a partly filled section. |
| `YamlProperties.OneEntryPerContentLine` | src/cn_property_agent/config/yaml_mapping.py:50-74 | Nothing is merged or dropped: the content lines of an accepted text are as many as top-level keys plus section entries. |
| `YamlProperties.ReindentInvariant` | src/cn_property_agent/config/yaml_mapping.py:42-69 | Re-indenting the entries of each section to any positive width of its own leaves the mapping unchanged. |
| `Text.SplitLinesLaw` | src/cn_property_agent/config/yaml_mapping.py:36 | What the line splitting does: text up to a boundary is a line of its own, carriage return and line feed together being one boundary, and text without a boundary is one line. |
| `YamlGrammar.EntryExactly` | src/cn_property_agent/config/yaml_mapping.py:38-57 | A line is read as an entry with this indentation, key and value exactly when it is written as one: blanks, a legal key, a colon, and nothing or one form of the value - as it stands, in single quotes, in double quotes - with white space around the parts. |
| `YamlGrammar.LineRefusals` | src/cn_property_agent/config/yaml_mapping.py:36-57 | Which lines are skipped, and which are refused on their own for a tab, a dash, a missing colon or an empty key: stated on the stripped text, in this order. |
| `YamlTexts.TextExactly` | src/cn_property_agent/config/yaml_mapping.py:29-94 | A text is read as m exactly when m is printable and the content lines of the text write m: per top-level entry one line, or a header and its entries at one positive indentation. Both directions, for every text. |
| `YamlTexts.ErrorExactly` | src/cn_property_agent/config/yaml_mapping.py:36-74 | After accepted lines, the next one is refused with exactly the error its text, the mapping so far and the indentation of the last content line call for, and accepted otherwise. |
| `YamlStyles.StyledRoundTrip` | src/cn_property_agent/config/yaml_mapping.py:29-94 | Printed with each value in any one of its forms, plain, single-quoted or double-quoted, a printable mapping is read back. |
| `YamlStyles.PlainRoundTrip` | src/cn_property_agent/config/yaml_mapping.py:89-94 | Values that are not empty, not padded and not themselves quoted round-trip without quotes. |
| `YamlStyles.SingleQuotedRoundTrip` | src/cn_property_agent/config/yaml_mapping.py:89-94 | Every printable mapping round-trips in single quotes. |
| `NumberCells.ParseNumber` | src/cn_property_agent/providers/lianjia/values.py:89-104 | Accepts with value v exactly when the text, its unit tokens read as blanks, is white space, one signed decimal literal worth v, white space. |
| `NumberCells.NumberGrammar` | src/cn_property_agent/providers/lianjia/values.py:94-104 | Finding all matches, demanding exactly one, and demanding that nothing but white space is left once it is blanked, is the same as that one-line grammar. |
| `NumberCells.ReplaceFirst` | src/cn_property_agent/providers/lianjia/values.py:89-93 | Replacing a unit token: the text before its first occurrence is kept, the token becomes one blank, and the rest is treated in the same way. |
| `NumberCells.PlaceValue` | src/cn_property_agent/providers/lianjia/values.py:104 | Digits before the point have their place values: a run of digits is worth its front shifted by the length of its back, plus its back. |
| `NumberCells.DecimalPlaces` | src/cn_property_agent/providers/lianjia/values.py:104 | The digits after the point are worth the whole number they spell, divided by ten once per digit. |
| `NumberCells.WrittenNumberRead` | src/cn_property_agent/providers/lianjia/values.py:89-104 | Every natural number written in decimal is read back as that number. |
| `NumberCells.ForeignCharacterRejected` | src/cn_property_agent/providers/lianjia/values.py:89-104 | A character that is neither white space nor part of a literal and occurs in no unit token makes the cell unreadable. |
| `NumberCells.ParseWanToCny` | src/cn_property_agent/providers/lianjia/values.py:119-126 | Accepts with value v exactly when the text is one literal among white space and the tokens 万 and 万元, and v is ten thousand times that literal. |
| `NumberCells.WanGrammar` | src/cn_property_agent/providers/lianjia/values.py:119-126 | The grammar of total prices, for the two successive replacements of 万元 and 万. |
| `NumberCells.PlainYuanRefused` | src/cn_property_agent/providers/lianjia/values.py:33-36 | A text holding a 元 not directly preceded by 万 is never read as a total price. |
| `NumberCells.UnitPriceRefusesWan` | src/cn_property_agent/providers/lianjia/values.py:129-131 | A unit price quoted in 万 is refused rather than read as plain yuan. |
| `NumberCells.ParseInt` | src/cn_property_agent/providers/lianjia/values.py:107-111 | Accepts exactly the literals of the cell grammar with a whole value and returns that value; a literal of fractional value, and nothing else, is refused as not whole. |
| `NumberCells.WholeExactly` | src/cn_property_agent/providers/lianjia/values.py:107-111 | A plain literal is read as an integer exactly when every digit after its decimal point is zero, and then as the digits before the point. |
| `CommunityResolver.Score` | src/cn_property_agent/services/community_resolver.py:135-187 | Building score and reasons up field by field gives the clamped sum of what each compared field says, with the reasons in field order. |
| `CommunityResolver.Resolve` | src/cn_property_agent/services/community_resolver.py:70-133 | A known alias decides alone: its community with full confidence if it is in the asked city, otherwise nothing. With no alias every same-name community is scored and ranked, highest confidence first and ties by id, and the first is resolved exactly when it is alone or has 0.90 and a lead of 0.15; confidence, candidates and warnings are stated for every case. |
| `CommunityResolver.ReasonsExplainConfidence` | src/cn_property_agent/services/community_resolver.py:135-187 | The confidence is the sum of the points of the reasons given, cut off at 0 and 1. |
| `CommunityResolver.ReasonsExactly` | src/cn_property_agent/services/community_resolver.py:140-183 | Which reasons are given: a match or mismatch exactly for fields present on both sides that agree or differ, none for a differing address. |
| `CommunityResolver.CityRespected` | src/cn_property_agent/services/community_resolver.py:77-126 | If the same-name candidates are of the asked city, whatever is resolved or listed is, alias hits included. |
| `CommunityResolver.WinnerExactly` | src/cn_property_agent/services/community_resolver.py:106-126 | Among two or more candidates X is resolved if and only if it is one of them, reaches 0.90, and beats every other candidate by 0.15, not only the second. |
| `CommunityResolver.CandidateOrderIrrelevant` | src/cn_property_agent/services/community_resolver.py:106-107 | The resolution, candidate list included, does not depend on the order the candidates came in. |
| `CommunityResolver.StableUnderMoreCandidates` | src/cn_property_agent/services/community_resolver.py:106-133 | Once two or more candidates resolve to X, adding any candidates leaves X resolved or makes it ambiguous; no other community is ever resolved. |
| `CommunityResolver.ThresholdExactly` | src/cn_property_agent/services/community_resolver.py:140-187 | Which combinations of agreeing, contradicting and missing fields reach the threshold, both ways: never one with a contradicted district or position. |
| `CommunityResolver.ContradictedNeverWins` | src/cn_property_agent/services/community_resolver.py:118-126 | Among two or more candidates, one whose district or position contradicts the request is never the resolved one. |
| `CommunityResolver.ContradictedWinsOnlyAlone` | src/cn_property_agent/services/community_resolver.py:109-126 | A contradicted candidate is resolved if and only if it is the only candidate. |
| `CommunityResolver.SoleCandidateStability` | src/cn_property_agent/services/community_resolver.py:109-126 | Stability does not hold for a sole candidate; it holds under every addition if and only if the request is too vague for anyone to reach the threshold, or the confidence is within 0.15 of the most the request allows. |
| `CommunityResolver.SoleCandidateOvertaken` | src/cn_property_agent/services/community_resolver.py:109-116 | A concrete request, a sole candidate resolved against the asked district, and a second candidate that takes over. |
| `ListingIngestion.ListingRepository.constructor` | src/cn_property_agent/storage/repositories.py:217-219 | A repository over empty tables has an empty history of writes. |
| `ListingIngestion.ListingRepository.UpsertListing` | src/cn_property_agent/storage/repositories.py:221-252 | The row takes the incoming attributes and the least seen range covering both; every other row and all snapshots are unchanged; the tables remain what the extended history of writes leaves behind. |
| `ListingIngestion.ListingRepository.AppendSnapshot` | src/cn_property_agent/storage/repositories.py:254-276 | Exactly the row at this listing and instant is set, no listing changes, and the tables remain what the extended history of writes leaves behind. |
| `ListingStore.ReplayReflects` | src/cn_property_agent/storage/repositories.py:221-276 | After any history of writes: a row exactly for each key written, attributes of the last write, first_seen_at the minimum and last_seen_at the maximum ever reported, each snapshot the last one written at its key. |
| `ListingStore.TablesExactly` | src/cn_property_agent/storage/repositories.py:221-276 | The same said of the history alone: the row comes from a write after which its key is not written again, and its seen range is reached by some write and exceeded by none. |
| `ListingStore.ReflectsUnique` | src/cn_property_agent/storage/repositories.py:221-276 | That description fits only one pair of tables. |
| `ListingStore.ReachableWellKept` | src/cn_property_agent/storage/repositories.py:234-236 | Whatever valid records are written in whatever order, every stored row sits under its own key and passes the canonical model when read back; the seen range is never inverted. |
| `ListingStore.OrderIndependence` | src/cn_property_agent/storage/repositories.py:221-276 | Two histories holding the same writes, in any order and with any repetition, leave the same snapshots, identities, communities and seen ranges, if a listing names one community and no two snapshots disagree at one instant. |
| `ListingStore.SwapWrites` | src/cn_property_agent/storage/repositories.py:221-276 | Over any tables, swapping two adjacent writes changes what they leave behind if and only if they disagree about a community or about one instant. |
| `ListingStore.OrderIrrelevantExactly` | src/cn_property_agent/storage/repositories.py:221-276 | For a whole history of writes: every history holding the same writes, in any order and with any repetition, leaves the same evidence if and only if no listing was reported under two communities and no two snapshots disagree at one instant. |
| `ListingReads.HistoryOfLog` | src/cn_property_agent/storage/repositories.py:336-344 | Over any run, a listing's history strictly increases in time, has an entry exactly for each instant ever observed, and each entry is the last snapshot written there. |
| `ListingReads.HistoryNeverLoses` | src/cn_property_agent/storage/repositories.py:254-276 | No later write removes an instant from a listing's history. |
| `ListingReads.LatestIsLastOfHistory` | src/cn_property_agent/storage/repositories.py:295-314 | The window-function read maps a listing to the last element of its history, and omits exactly the listings without one. |
| `ListingReads.CommunityHistoryIsConcatenation` | src/cn_property_agent/storage/repositories.py:316-334 | The community history is its listings' histories one after another, in id order. |
| `ListingEvidence.ListedIdsExact` | src/cn_property_agent/storage/repositories.py:278-293 | The identity query lists each listing of the community, and only those, once. |
| `ListingEvidence.ListedExactly` | src/cn_property_agent/storage/repositories.py:278-293 | It returns exactly the stored rows whose community is the asked one, without repeats. |
| `ListingEvidence.HistoryExactly` | src/cn_property_agent/storage/repositories.py:336-344 | A history holds exactly the stored snapshots of its listing. |
| `ListingEvidence.CommunityHistoryExactly` | src/cn_property_agent/storage/repositories.py:316-334 | The community history holds exactly the stored snapshots of listings stored under the community. |
| `ListingEvidence.CommunityHistoryOrdered` | src/cn_property_agent/storage/repositories.py:316-334 | It comes by listing id and then strictly by time. |
| `ListingEvidence.CurrentExactly` | src/cn_property_agent/services/listing_query.py:80-85 | The current view pairs the rows of the identity query, in its order, with the newest stored snapshot of each, and with none exactly where none is stored. |
| `ListingEvidence.ListedByRecency` | src/cn_property_agent/storage/repositories.py:284-292 | It lists them by last_seen_at, newest first, ties by listing_id. |
| `ListingIngestion.RequireRequestedCommunity` | src/cn_property_agent/services/listing_ingestion.py:152-173 | Passes exactly when every observation names the requested community, and otherwise reports the first stray one. |
| `ListingIngestion.Ingest` | src/cn_property_agent/services/listing_ingestion.py:107-150 | All or nothing: a delivered batch wholly of the asked community is appended to the history of writes, every observation of it; any other answer writes nothing. The outcome carries the counts, the parse rejections and the distinct listing ids in first-occurrence order. |
| `ListingIngestion.EventsInOrder` | src/cn_property_agent/services/listing_ingestion.py:123-127 | The n-th observation of a batch is written as its identity and then its snapshot, at places 2n and 2n + 1, and nothing else is. |
| `ListingRuns.StoredExactlyBy` | src/cn_property_agent/services/listing_ingestion.py:119-173 | An observation is stored by a run exactly when some delivered request of it, with every observation in its own community, carries it. |
| `ListingRuns.StoredGrows` | src/cn_property_agent/services/listing_ingestion.py:119-173 | A further request adds its whole batch in order, or nothing. |
| `ListingRuns.OutcomeDetermined` | src/cn_property_agent/services/listing_ingestion.py:119-173 | The reported outcome depends on request and fetch alone, so a replay reports the same. |
| `ListingRuns.FirstOccurrencesUnique` | src/cn_property_agent/services/listing_ingestion.py:121-129 | There is only one duplicate-free first-occurrence order of a batch's listing ids. |
| `ListingRuns.ReplayIdempotent` | src/cn_property_agent/services/listing_ingestion.py:119-129 | Writing any batch twice in a row, even one repeating a listing with different contents, leaves the tables of writing it once. |
| `ListingRuns.UntouchedOutsideBatch` | src/cn_property_agent/services/listing_ingestion.py:119-129 | A listing not in the batch keeps its row, its snapshots and its history. |
| `ListingRuns.BatchFiledUnderCommunity` | src/cn_property_agent/services/listing_ingestion.py:119-129 | After an accepted ingestion every listing of the batch is filed under the requested community. |
| `ListingRuns.IngestAll` | src/cn_property_agent/services/listing_ingestion.py:107-150 | A whole run of ingestions leaves a valid repository whose history of writes is that of its accepted observations in arrival order. |
| `ListingRuns.RunOrderIndependence` | src/cn_property_agent/services/listing_ingestion.py:119-129 | Two runs storing the same consistent observations, under any order, batching or repetition, leave the same evidence. |
| `ListingRuns.SeenRangeIsHistorySpan` | src/cn_property_agent/providers/lianjia/listing_parser.py:227-242 | With rows built as the source parser builds them, a listing is stored exactly when it has a history, and its seen range is from the first to the last instant of that history, whatever the arrival order. |
| `ListingRuns.StatusIsLatestStatus` | src/cn_property_agent/providers/lianjia/listing_parser.py:227-242 | If a listing's snapshots arrive in time order, its status is the status of its newest snapshot. |
| `Statistics.MedianPermutation` | src/cn_property_agent/analytics/common.py:47-50 | A reported median depends on the values, not on their order. |
| `Statistics.MedianExactly` | src/cn_property_agent/analytics/common.py:47-50 | The computed value is the median and the only one: in any ascending arrangement of the sample, the middle value or halfway between the two middle ones. |
| `Statistics.MedianHalves` | src/cn_property_agent/analytics/common.py:47-50 | At least half the sample is at most the median, and at least half is at least the median. |
| `Statistics.MedianBetween` | src/cn_property_agent/analytics/common.py:47-50 | The median lies within any bounds of the sample. |
| `Statistics.MajorityBelow` | src/cn_property_agent/analytics/common.py:47-50 | A strict majority of values below x puts the median below x. |
| `Statistics.MajorityAbove` | src/cn_property_agent/analytics/common.py:47-50 | A strict majority of values above x puts the median above x. |
| `Statistics.MedianOfKept` | src/cn_property_agent/analytics/common.py:47-50 | A metric over the records carrying a field counts exactly those, has a value exactly from the minimum count on, and that value is their exact median. |
| `ListingMetrics.IndexListings` | src/cn_property_agent/analytics/listing_metrics.py:210-228 | The loop reports exactly the foreign communities, otherwise exactly the listing ids supplied more than once, otherwise indexes exactly the supplied ids: a function of the multiset of listings. |
| `ListingMetrics.ConflictStep` | src/cn_property_agent/analytics/listing_metrics.py:247-249 | Comparing a snapshot only with the one kept at its key adds a conflict exactly when some snapshot seen there disagrees with it. |
| `ListingMetrics.GroupSnapshots` | src/cn_property_agent/analytics/listing_metrics.py:231-263 | The loop reports exactly the unknown ids, otherwise exactly the keys at which two snapshots disagree, otherwise each listing's distinct observations in time order, listings in id order: a function of the set of snapshots. |
| `ListingMetrics.ComputeCommunityListingMetrics` | src/cn_property_agent/analytics/listing_metrics.py:111-182 | The whole outcome, metrics or kind of error with its named ids, is a function of the multiset of listings and the set of snapshots. |
| `ListingRefusals.RefusedExactly` | src/cn_property_agent/analytics/listing_metrics.py:120-135 | Which evidence is refused, over the supplied sequences: the first failing of a bad minimum, a blank community, a listing of another community, one identifier at two places, a snapshot of no supplied listing, two differing snapshots of one listing and instant; anything else is computed. |
| `ListingRefusals.OffendersNamed` | src/cn_property_agent/analytics/listing_metrics.py:210-263 | The error names exactly the offending communities, identifiers or listing-instant pairs. |
| `ListingMetrics.SetSufficesExactly` | src/cn_property_agent/analytics/listing_metrics.py:120-131 | Over the same listings and the same snapshots, supplied any number of times, the outcome is the same if and only if the call is refused earlier or the same identifiers are repeated. |
| `ListingMetrics.TwiceRefused` | src/cn_property_agent/analytics/listing_metrics.py:226-228 | A listing that is accepted alone is refused when supplied twice. |
| `AcceptedMetrics.AcceptedInventory` | src/cn_property_agent/analytics/listing_metrics.py:160-181 | For every accepted call: listing_count is the number of supplied listings, snapshot_count the number of distinct (listing, instant) pairs, observed and identity-only listings are those with and without a snapshot and add up, and snapshots are at least observed plus repricing-observable listings. |
| `AcceptedMetrics.AcceptedNames` | src/cn_property_agent/analytics/listing_metrics.py:158-181 | For every accepted call: the metrics name the asked community and minimum, and list every supplied listing id once, in order. |
| `AcceptedMetrics.AcceptedRepricing` | src/cn_property_agent/analytics/listing_metrics.py:153-178 | For every accepted call: the repricing-observable listings are those supplied with two instants or more, and cut, increase and unchanged those whose latest price is below, above and equal to their earliest; the cut share is present exactly with some, and is then their exact proportion, within [0, 1]. |
| `AcceptedMetrics.AcceptedMedianMove` | src/cn_property_agent/analytics/listing_metrics.py:179-197 | For every accepted call: the median price change v counts the repricing-observable listings; at least half of them moved by v times their first price or less, and at least half by that or more; it is above -1, negative when cuts are a strict majority, positive when increases are. |
| `AcceptedMetrics.AcceptedMoveIsMedian` | src/cn_property_agent/analytics/listing_metrics.py:179-197 | For every accepted call: it is the exact median, over the supplied snapshots put in order per listing, of last price over first price less one. |
| `AcceptedMetrics.AcceptedStatuses` | src/cn_property_agent/analytics/listing_metrics.py:165-166 | For every accepted call: the tally is, in enumeration order, one line per status that is the status of some latest supplied snapshot, with the number of those listings; it sums to the observed listings. |
| `AcceptedMetrics.AcceptedMedians` | src/cn_property_agent/analytics/listing_metrics.py:166-181 | For every accepted call: over the latest supplied snapshot of each listing, the asking-price medians are the exact medians of the list price of the ACTIVE ones and of the unit price of those of them that carry one. |
| `AcceptedMetrics.AcceptedSources` | src/cn_property_agent/analytics/listing_metrics.py:181 | For every accepted call: the sources are those of the latest supplied snapshots, each once, in order. |
| `AcceptedMetrics.AcceptedRecency` | src/cn_property_agent/analytics/listing_metrics.py:164 | For every accepted call: latest_snapshot_at is absent exactly without snapshots and is otherwise the newest supplied instant. |
| `ListingEvidence.StoredEvidenceAccepted` | src/cn_property_agent/services/community_evidence.py:104-114 | On every well-kept store the evidence read for a community passes all checks of the analytics: only a blank subject or a bad minimum is refused. |
| `ListingEvidence.RunsGiveEqualMetrics` | src/cn_property_agent/services/listing_ingestion.py:119-129 | Two runs storing the same consistent observations, in any order, batching or repetition, give equal listing metrics for every community, though last-write columns may differ. |
| `ListingEvidence.CurrentViewAgreesWithMetrics` | src/cn_property_agent/services/listing_query.py:80-85 | Counting current listings whose newest snapshot is ACTIVE, and those without one, gives active_listing_count and identity_only_listing_count. |
| `CommunityEvidence.GetMarketEvidence` | src/cn_property_agent/services/community_evidence.py:104-114 | On every store reachable by writes the read is refused exactly for a blank subject, and otherwise carries the metrics of the stored transactions and the stored listing evidence. |
| `TransactionGates.NormalizeTransaction` | src/cn_property_agent/services/transaction_normalization.py:74-195 | A tolerance outside [0, 1] is an error whatever the record; otherwise the cascade of early returns rejects at the first broken gate of the ordered gate table, or builds the canonical transaction with its warnings. |
| `TransactionGates.CoerceFloorBucket` | src/cn_property_agent/services/transaction_normalization.py:198-205 | The bucket is low, mid or high exactly for those words, otherwise unknown; a warning is appended exactly for a bucket that is present and none of the four words. |
| `TransactionRecords.NormalizedExactly` | src/cn_property_agent/services/transaction_normalization.py:87-195 | A record is accepted exactly when every required field is present and plausible, and then becomes the transaction carrying its columns, the identifier built from its source and its own source identifier; otherwise it is rejected under its own identity for the first of its defects. |
| `TransactionRecords.CarriesUnique` | src/cn_property_agent/services/transaction_normalization.py:172-191 | These columns leave no freedom: one record has one canonical transaction. |
| `TransactionGates.PriceGateReach` | src/cn_property_agent/services/transaction_normalization.py:19-34 | What the tolerance range is for: some unit price that understates the deal price can be rejected if and only if the tolerance is below 1, and some that overstates it can be rejected under every tolerance. |
| `TransactionGates.AcceptedIsAdmitted` | src/cn_property_agent/services/transaction_normalization.py:87-195 | Every accepted transaction is positive where it must be, inside the requested window and the one-day grace, and within the tolerance, a derived unit price included. |
| `TransactionIngestion.TransactionRepository.constructor` | src/cn_property_agent/storage/repositories.py:132-134 | A repository over an empty table has an empty history of writes. |
| `TransactionIngestion.TransactionRepository.Upsert` | src/cn_property_agent/storage/repositories.py:143-186 | The changed table is the one the history of writes, extended by this write, leaves behind. |
| `TransactionIngestion.TransactionRepository.UpsertMany` | src/cn_property_agent/storage/repositories.py:136-141 | Appends the whole sequence to the history of writes in order and returns its length. |
| `TransactionIngestion.StoredIsLastWritten` | src/cn_property_agent/storage/repositories.py:143-165 | A row exactly for each identifier ever written, holding its last write. |
| `TransactionIngestion.TableExactly` | src/cn_property_agent/storage/repositories.py:143-165 | The same said of the writes alone: the row is written at some place and nothing under its identifier after it. |
| `TransactionIngestion.ReplayTransactions` | src/cn_property_agent/storage/repositories.py:143-165 | Writing a batch a second time changes nothing. |
| `TransactionIngestion.IngestTransactions` | src/cn_property_agent/services/transaction_ingestion.py:98-181 | One ingestion appends exactly the collected transactions to the history of writes and reports every field of the result: bounds, source rows, parsed and upserted counts, ids, parse rejections, quality rejections, warnings, with both documented count relations; an invalid tolerance and a failed fetch write nothing. |
| `TransactionIngestion.AcceptedExactly` | src/cn_property_agent/services/transaction_ingestion.py:121-132 | A transaction is kept if and only if it comes from the first record of its identifier to pass the gates: a rejected record never shadows a later valid one. |
| `TransactionBatches.KeptInOrder` | src/cn_property_agent/services/transaction_ingestion.py:117-132 | Kept, in record order: the acceptable records whose identifier no earlier acceptable one has, each with every column; the warnings are the notes of exactly these, in order. |
| `TransactionBatches.RefusedInOrder` | src/cn_property_agent/services/transaction_ingestion.py:117-132 | Refused, in record order: all the others, each under its own identity, for the first of its defects, or as a duplicate when it has none. |
| `TransactionBatches.DuplicateExactly` | src/cn_property_agent/services/transaction_ingestion.py:121-132 | Where identifiers tell source and source identifier apart, an acceptable record is a duplicate exactly when an earlier acceptable one has the same pair. |
| `TransactionBatches.ReportedExactly` | src/cn_property_agent/services/transaction_ingestion.py:98-181 | Every field of the outcome and the rows written, from the request alone, for an invalid tolerance, a failed fetch and a delivered one. |
| `TransactionBatches.RowCarries` | src/cn_property_agent/services/transaction_ingestion.py:100-159 | Over a whole run a row carries every column of the first acceptable record of its identifier in the last request that brought one. |
| `TransactionBatches.RowsBrought` | src/cn_property_agent/services/transaction_ingestion.py:100-159 | Over a whole run an identifier has a row exactly when some served request brought an acceptable record of it. |
| `TransactionIngestion.FirstPassingStored` | src/cn_property_agent/services/transaction_ingestion.py:121-134 | After a batch, whatever was stored before, the row of an identifier holds the first record of it that passed the gates. |
| `TransactionIngestion.OthersKeepRows` | src/cn_property_agent/services/transaction_ingestion.py:121-134 | A request without a passing record of an identifier leaves its row as it was. |
| `TransactionIngestion.RowOfRun` | src/cn_property_agent/services/transaction_ingestion.py:100-159 | Over a whole run a row holds the first passing record of the last request that had one for its identifier. |
| `TransactionIngestion.RowsExactly` | src/cn_property_agent/services/transaction_ingestion.py:100-159 | Over a whole run an identifier has a row if and only if some request had a passing record of it. |
| `TransactionIngestion.BatchConserved` | src/cn_property_agent/services/transaction_ingestion.py:117-159 | Parsed records are upserted plus rejected, and the rejections are exactly those of the rejected records, in record order. |
| `TransactionIngestion.IngestAllTransactions` | src/cn_property_agent/services/transaction_ingestion.py:100-159 | A run of ingestions leaves a valid repository holding exactly what its requests collected. |
| `TransactionIngestion.ReachableRowsAdmitted` | src/cn_property_agent/services/transaction_ingestion.py:117-134 | In every reachable store each row carries the columns of an acceptable record of some request of the run, its identifier being that of its source and source identifier, and is within the tolerance. |
| `TransactionMetrics.ListExactly` | src/cn_property_agent/storage/repositories.py:188-214 | The read returns exactly the rows of the community inside the window. |
| `TransactionMetrics.CheckExactly` | src/cn_property_agent/services/transaction_query.py:26-41 | A query is refused exactly for a blank community or a window ending before it starts. |
| `TransactionMetrics.ListedNewestFirst` | src/cn_property_agent/storage/repositories.py:203-214 | Newest deal first, ties in identifier order, no row twice. |
| `TransactionMetrics.WindowTotalsAgree` | src/cn_property_agent/services/transaction_query.py:65-72 | Over any query of any reachable store, the sum of unit price times area differs from the sum of deal prices by at most the tolerance times the latter. |
| `TransactionMetrics.RecordOrderIrrelevant` | src/cn_property_agent/analytics/transaction_metrics.py:52-107 | The metrics or the refusal depend on the multiset of supplied records, not on their order. |
| `TransactionMetrics.SetSufficesExactly` | src/cn_property_agent/analytics/transaction_metrics.py:60-62 | Over the same records, told apart by identifier and supplied any number of times, the outcomes are the same if and only if the call is refused or each record is supplied equally often. |
| `TransactionMetrics.ThriceCounted` | src/cn_property_agent/analytics/transaction_metrics.py:76-92 | One record supplied three times counts as three and yields a median that the single record does not. |
| `TransactionMetrics.OutcomeExactly` | src/cn_property_agent/analytics/transaction_metrics.py:60-107 | Which samples are refused and whom the error names; otherwise the metrics carry community, minimum, sample size, newest deal date, every record's identifier as often as supplied, and each source once, both in order. |
| `TransactionMetrics.SampleMedians` | src/cn_property_agent/analytics/transaction_metrics.py:89-104 | Each median is the exact median of its field over the records that carry it; a discount is one less dealt over asked. |
| `TransactionMetrics.NewestDealIsMax` | src/cn_property_agent/analytics/transaction_metrics.py:88 | latest_deal_date is absent exactly for an empty sample and is otherwise its newest deal date. |
| `TransactionMetrics.MajorityMovesDiscount` | src/cn_property_agent/analytics/transaction_metrics.py:110-117 | The median negotiation discount is below one, positive when most records with an asking price dealt below it, negative when most dealt above it. |

## Left out

- UpsertListing: a violation of UNIQUE(source, source_listing_id) (storage/schema.py:37) is not modelled; the theorems are about the writes the database accepts.
- NormalizeTransaction: keeps the reason of a rejection but not its wording; text is taken case-folded, and tolerances that are not finite numbers are not values of the model's reals.
- IngestTransactions: constructing the service and calling it are one step, so an invalid tolerance is an outcome of the call; the rule that a request's start is not after its end is not needed and not assumed.
- ParseNumber: works on case-folded text with ASCII digits and returns the exact value of the literal instead of the nearest float.
- Resolve: takes the alias lookup and the same-name candidates as parameters, text fields as already normalised, and the distance test as an arbitrary predicate; confidences are exact hundredths, so the 1e-9 epsilon disappears.
- SoleCandidateStability: assumes that a point lies within the confirmation radius of itself.
- ParseYamlMapping: the section being filled is the last entry of the mapping rather than a second reference to the same dictionary.
- Ingest: the provider's answer is a parameter; logging and timing are not modelled.
- ListExactly: the WHERE clause is a predicate on rows; assembling its text and parameters is not modelled.
- DuckDB, SQL text, time zones of stored timestamps, transactions and concurrent writers.
- `stable_id`: identifiers are given; a transaction id is an arbitrary function of source and source id, not assumed injective.
- Unicode normalisation, case folding and Unicode digits.
- Float rounding, infinities and NaN.
- Pydantic mechanics and error messages; validity is a predicate on records, error kinds are constructors with the ids they name.
- Market-observation ingestion and query: the same shape as the listing path with a plain overwrite.
- Area, day, year, date, floor and status converters of the source parser: instances of the number grammar or fixed word lists.
- Recorded-file providers, fetch envelopes, city profile loading, settings and scripts.
