/** What a batch of transactions keeps, refuses and warns about, in the fields of its records
    (services/transaction_ingestion.py). */
module TransactionBatches {
  import opened Text
  import opened Domain
  import opened TransactionGates
  import opened TransactionRecords
  import opened TransactionIngestion

  /** The identifier a record would be stored under. */
  function RecordId(r: RawRecord, ids: TransactionIds): Id {
    if r.sourceTransactionId.Some? then ids(r.source, r.sourceTransactionId.value) else ""
  }

  /** An acceptable record before the n-th has its identifier. */
  ghost predicate Taken(records: seq<RawRecord>, n: nat, g: Gate, ids: TransactionIds)
    requires n < |records|
  {
    exists i :: 0 <= i < n && Acceptable(records[i], g) && RecordId(records[i], ids) == RecordId(records[n], ids)
  }

  lemma {:induction false} PassingId(r: RawRecord, g: Gate, ids: TransactionIds)
    ensures Normalized(r, g, ids).Accepted? <==> Acceptable(r, g)
    ensures Acceptable(r, g) ==> Normalized(r, g, ids).transaction.transactionId == RecordId(r, ids)
  {
    NormalizedExactly(r, g, ids);
  }

  lemma {:induction false} KeptExactly(records: seq<RawRecord>, n: nat, g: Gate, ids: TransactionIds)
    requires n < |records|
    ensures FirstPassing(records, n, g, ids) <==> Acceptable(records[n], g) && !Taken(records, n, g, ids)
  {
    PassingId(records[n], g, ids);
    forall i | 0 <= i < n
      ensures Normalized(records[i], g, ids).Accepted? <==> Acceptable(records[i], g)
      ensures Acceptable(records[i], g) ==>
                Normalized(records[i], g, ids).transaction.transactionId == RecordId(records[i], ids)
    {
      PassingId(records[i], g, ids);
    }
  }

  /** The report of one refused record: its own identity, and its first defect or that its identifier is taken. */
  ghost predicate ReportedAs(x: Rejection, records: seq<RawRecord>, n: nat, g: Gate, ids: TransactionIds)
    requires n < |records|
  {
    && x.source == records[n].source && x.sourceTransactionId == records[n].sourceTransactionId
    && x.sourceUrl == records[n].sourceUrl
    && if Acceptable(records[n], g) then Taken(records, n, g, ids) && x.reason == DuplicateInBatch
       else RefusedFor(x.reason, records[n], g)
  }

  lemma {:induction false} RejectionExactly(records: seq<RawRecord>, n: nat, g: Gate, ids: TransactionIds)
    requires n < |records|
    ensures var x := RejectionAt(records, n, g, ids);
            && (x.None? <==> Acceptable(records[n], g) && !Taken(records, n, g, ids))
            && (x.Some? ==> ReportedAs(x.value, records, n, g, ids))
  {
    NormalizedExactly(records[n], g, ids);
    KeptExactly(records, n, g, ids);
  }

  // ---- The whole batch ----

  /** The notes of the kept records, in order, each under its transaction's identifier. */
  function WarningsOf(records: seq<RawRecord>, kept: seq<nat>, ids: TransactionIds): seq<(Id, Note)>
    requires forall i :: 0 <= i < |kept| ==> kept[i] < |records|
  {
    if kept == [] then []
    else
      var r := records[kept[|kept| - 1]];
      var notes := ExpectedNotes(r);
      WarningsOf(records, kept[..|kept| - 1], ids)
      + seq(|notes|, i requires 0 <= i < |notes| => (RecordId(r, ids), notes[i]))
  }

  ghost predicate Rising(at: seq<nat>) {
    forall i, j :: 0 <= i < j < |at| ==> at[i] < at[j]
  }

  /** `kept` are the records stored, in order. */
  ghost predicate Keeps(accepted: seq<Transaction>, records: seq<RawRecord>, kept: seq<nat>, g: Gate,
                        ids: TransactionIds) {
    && |accepted| == |kept| && Rising(kept)
    && (forall i :: 0 <= i < |kept| ==> kept[i] < |records| && Carries(accepted[i], records[kept[i]], g, ids))
    && (forall n :: 0 <= n < |records| ==>
          (n in kept <==> Acceptable(records[n], g) && !Taken(records, n, g, ids)))
  }

  ghost predicate Refuses(rejections: seq<Rejection>, records: seq<RawRecord>, refused: seq<nat>, g: Gate,
                          ids: TransactionIds) {
    && |rejections| == |refused| && Rising(refused)
    && (forall i :: 0 <= i < |refused| ==>
          refused[i] < |records| && ReportedAs(rejections[i], records, refused[i], g, ids))
    && (forall n :: 0 <= n < |records| ==>
          (n in refused <==> !Acceptable(records[n], g) || Taken(records, n, g, ids)))
  }

  lemma {:induction false} TakenPrefix(records: seq<RawRecord>, k: nat, n: nat, g: Gate, ids: TransactionIds)
    requires n < k <= |records|
    ensures Taken(records[..k], n, g, ids) <==> Taken(records, n, g, ids)
  {
    assert forall i :: 0 <= i <= n ==> records[..k][i] == records[i];
    if Taken(records, n, g, ids) {
      var i :| 0 <= i < n && Acceptable(records[i], g) && RecordId(records[i], ids) == RecordId(records[n], ids);
      assert Acceptable(records[..k][i], g);
    }
  }

  lemma {:induction false} KeepsStep(accepted: seq<Transaction>, records: seq<RawRecord>, kept: seq<nat>, g: Gate,
                                    ids: TransactionIds, t: Transaction)
    requires records != [] && Keeps(accepted, records[..|records| - 1], kept, g, ids)
    ensures var k := |records| - 1;
            if Acceptable(records[k], g) && !Taken(records, k, g, ids)
            then Carries(t, records[k], g, ids) ==> Keeps(accepted + [t], records, kept + [k], g, ids)
            else Keeps(accepted, records, kept, g, ids)
  {
    var k := |records| - 1;
    assert forall n :: 0 <= n < k ==> records[..k][n] == records[n];
    forall n | 0 <= n < k ensures Taken(records[..k], n, g, ids) <==> Taken(records, n, g, ids) {
      TakenPrefix(records, k, n, g, ids);
    }
    InAppended(kept, k);
  }

  lemma InAppended(at: seq<nat>, k: nat)
    ensures forall n :: n in at + [k] <==> n in at || n == k
  {
  }

  lemma {:induction false} WarningsPrefix(records: seq<RawRecord>, kept: seq<nat>, k: nat, ids: TransactionIds)
    requires k <= |records| && forall i :: 0 <= i < |kept| ==> kept[i] < k
    ensures WarningsOf(records[..k], kept, ids) == WarningsOf(records, kept, ids)
  {
    if kept == [] {
    } else {
      WarningsPrefix(records, kept[..|kept| - 1], k, ids);
    }
  }

  /** One more record. */
  lemma {:induction false} LastKept(records: seq<RawRecord>, g: Gate, ids: TransactionIds)
    requires records != []
    ensures var k := |records| - 1;
            var before, after := Collect(records[..k], g, ids), Collect(records, g, ids);
            if Acceptable(records[k], g) && !Taken(records, k, g, ids) then
              && Normalized(records[k], g, ids).Accepted?
              && Carries(Normalized(records[k], g, ids).transaction, records[k], g, ids)
              && after.accepted == before.accepted + [Normalized(records[k], g, ids).transaction]
              && after.warnings == before.warnings + Warn(RecordId(records[k], ids), ExpectedNotes(records[k]))
            else after.accepted == before.accepted && after.warnings == before.warnings
  {
    var k := |records| - 1;
    NormalizedExactly(records[k], g, ids);
    PassingId(records[k], g, ids);
    KeptExactly(records, k, g, ids);
    if Acceptable(records[k], g) {
      NewIdentifier(records, g, ids);
    }
  }

  lemma {:induction false} WarningsStep(records: seq<RawRecord>, kept: seq<nat>, ids: TransactionIds)
    requires records != [] && forall i :: 0 <= i < |kept| ==> kept[i] < |records| - 1
    ensures var k := |records| - 1;
            && WarningsOf(records, kept, ids) == WarningsOf(records[..k], kept, ids)
            && WarningsOf(records, kept + [k], ids) ==
                 WarningsOf(records[..k], kept, ids) + Warn(RecordId(records[k], ids), ExpectedNotes(records[k]))
  {
    var k := |records| - 1;
    WarningsPrefix(records, kept, k, ids);
    assert (kept + [k])[..|kept|] == kept;
  }

  /** Kept, in record order: the acceptable records whose identifier no earlier acceptable one has, each with every
      column of its record; the warnings are the notes of exactly these. */
  lemma {:induction false} KeptInOrder(records: seq<RawRecord>, g: Gate, ids: TransactionIds) returns (kept: seq<nat>)
    ensures Keeps(Collect(records, g, ids).accepted, records, kept, g, ids)
    ensures Collect(records, g, ids).warnings == WarningsOf(records, kept, ids)
    decreases |records|
  {
    if records == [] {
      kept := [];
    } else {
      var k := |records| - 1;
      var before := KeptInOrder(records[..k], g, ids);
      LastKept(records, g, ids);
      WarningsStep(records, before, ids);
      kept := before;
      if Acceptable(records[k], g) && !Taken(records, k, g, ids) {
        KeepsStep(Collect(records[..k], g, ids).accepted, records, before, g, ids,
                  Normalized(records[k], g, ids).transaction);
        kept := before + [k];
      } else {
        KeepsUnchanged(Collect(records[..k], g, ids).accepted, records, before, g, ids);
      }
    }
  }

  lemma {:induction false} KeepsUnchanged(accepted: seq<Transaction>, records: seq<RawRecord>, kept: seq<nat>, g: Gate,
                                         ids: TransactionIds)
    requires records != [] && Keeps(accepted, records[..|records| - 1], kept, g, ids)
    requires var k := |records| - 1; !Acceptable(records[k], g) || Taken(records, k, g, ids)
    ensures Keeps(accepted, records, kept, g, ids)
  {
    var k := |records| - 1;
    assert forall n :: 0 <= n < k ==> records[..k][n] == records[n];
    forall n | 0 <= n < k ensures Taken(records[..k], n, g, ids) <==> Taken(records, n, g, ids) {
      TakenPrefix(records, k, n, g, ids);
    }
  }

  /** Refused, in record order: all the others, each reported under its own identity and for its own reason. */
  lemma {:induction false} RefusedInOrder(records: seq<RawRecord>, g: Gate, ids: TransactionIds) returns (refused: seq<nat>)
    ensures Refuses(Collect(records, g, ids).rejections, records, refused, g, ids)
  {
    refused := BatchConserved(records, g, ids);
    forall n | 0 <= n < |records|
      ensures var x := RejectionAt(records, n, g, ids);
              && (x.None? <==> Acceptable(records[n], g) && !Taken(records, n, g, ids))
              && (x.Some? ==> ReportedAs(x.value, records, n, g, ids))
    {
      RejectionExactly(records, n, g, ids);
    }
  }

  // ---- Where identifiers tell the records apart ----

  predicate SamePair(a: RawRecord, b: RawRecord) {
    a.source == b.source && a.sourceTransactionId == b.sourceTransactionId
  }

  /** No two acceptable records of the batch share an identifier without sharing source and source identifier. */
  ghost predicate Separates(ids: TransactionIds, records: seq<RawRecord>, g: Gate) {
    forall i, j :: 0 <= i < j < |records| && Acceptable(records[i], g) && Acceptable(records[j], g) ==>
      RecordId(records[i], ids) == RecordId(records[j], ids) ==> SamePair(records[i], records[j])
  }

  /** An acceptable record is a duplicate exactly when an earlier acceptable one has the same source and source
      identifier. */
  lemma DuplicateExactly(records: seq<RawRecord>, n: nat, g: Gate, ids: TransactionIds)
    requires n < |records| && Acceptable(records[n], g) && Separates(ids, records, g)
    ensures Taken(records, n, g, ids) <==>
            exists i :: 0 <= i < n && Acceptable(records[i], g) && SamePair(records[i], records[n])
  {
    if Taken(records, n, g, ids) {
      var i :| 0 <= i < n && Acceptable(records[i], g) && RecordId(records[i], ids) == RecordId(records[n], ids);
      assert SamePair(records[i], records[n]);
    }
  }

  // ---- One ingestion ----

  /** The outcome a caller gets and the rows written, from the request alone. */
  lemma {:induction false} ReportedExactly(q: TransactionRequest, ids: TransactionIds)
    returns (kept: seq<nat>, refused: seq<nat>)
    ensures var outcome := Reported(q, ids);
            if q.gate.tolerance < 0.0 || q.gate.tolerance > 1.0 then outcome == ServiceRefused && Written(q, ids) == []
            else if q.fetched.None? then outcome == FetchFailed(q.gate.communityId) && Written(q, ids) == []
            else
              var records, result := q.fetched.value.records, outcome.result;
              && outcome.Upserted?
              && Keeps(Written(q, ids), records, kept, q.gate, ids)
              && Refuses(result.qualityRejections, records, refused, q.gate, ids)
              && result.warnings == WarningsOf(records, kept, ids)
              && result.upsertedCount == |kept| == |result.transactionIds|
              && (forall i :: 0 <= i < |kept| ==> result.transactionIds[i] == RecordId(records[kept[i]], ids))
              && result.communityId == q.gate.communityId
              && result.startDate == q.gate.startDate && result.endDate == q.gate.endDate
              && result.sourceRowCount == q.fetched.value.sourceRowCount && result.parsedCount == |records|
              && result.parseRejections == q.fetched.value.parseRejections
  {
    kept, refused := [], [];
    if q.Delivers() {
      kept := KeptInOrder(q.fetched.value.records, q.gate, ids);
      refused := RefusedInOrder(q.fetched.value.records, q.gate, ids);
    }
  }

  // ---- The rows of a run ----

  /** The request is served, and its n-th record is acceptable under `id`. */
  ghost predicate Brings(q: TransactionRequest, n: nat, id: Id, ids: TransactionIds) {
    && 0.0 <= q.gate.tolerance <= 1.0 && q.fetched.Some? && n < |q.fetched.value.records|
    && Acceptable(q.fetched.value.records[n], q.gate) && RecordId(q.fetched.value.records[n], ids) == id
  }

  /** The first such record of the request. */
  ghost predicate BringsFirst(q: TransactionRequest, n: nat, id: Id, ids: TransactionIds) {
    Brings(q, n, id, ids) && forall i: nat :: i < n ==> !Brings(q, i, id, ids)
  }

  lemma {:induction false} FirstBrought(q: TransactionRequest, n: nat, id: Id, ids: TransactionIds) returns (first: nat)
    requires Brings(q, n, id, ids)
    ensures BringsFirst(q, first, id, ids)
    decreases n
  {
    if exists i: nat :: i < n && Brings(q, i, id, ids) {
      var i: nat :| i < n && Brings(q, i, id, ids);
      first := FirstBrought(q, i, id, ids);
    } else {
      first := n;
    }
  }

  lemma {:induction false} FirstForExactly(q: TransactionRequest, n: nat, id: Id, ids: TransactionIds)
    ensures FirstFor(q, n, id, ids) <==> BringsFirst(q, n, id, ids)
  {
    if q.Delivers() && n < |q.fetched.value.records| {
      var records := q.fetched.value.records;
      KeptExactly(records, n, q.gate, ids);
      PassingId(records[n], q.gate, ids);
      if BringsFirst(q, n, id, ids) {
        assert forall i: nat :: i < n && Acceptable(records[i], q.gate) && RecordId(records[i], ids) == id ==>
            Brings(q, i, id, ids);
      }
    }
  }

  lemma {:induction false} SuppliesExactly(q: TransactionRequest, id: Id, ids: TransactionIds)
    ensures Supplies(q, id, ids) <==> exists n: nat :: Brings(q, n, id, ids)
  {
    if Supplies(q, id, ids) {
      var n: nat :| FirstFor(q, n, id, ids);
      FirstForExactly(q, n, id, ids);
    }
    if exists n: nat :: Brings(q, n, id, ids) {
      var n: nat :| Brings(q, n, id, ids);
      var first := FirstBrought(q, n, id, ids);
      FirstForExactly(q, first, id, ids);
    }
  }

  /** The k-th request is the last of the run to bring the identifier, and its n-th record the first to do so. */
  ghost predicate LastBrought(run: seq<TransactionRequest>, k: nat, n: nat, id: Id, ids: TransactionIds) {
    && k < |run| && BringsFirst(run[k], n, id, ids)
    && forall j, m: nat :: k < j < |run| ==> !Brings(run[j], m, id, ids)
  }

  /** Over a run a row carries every column of one record: the first acceptable one of its identifier in the last
      request that brought any. */
  lemma {:induction false} RowCarries(run: seq<TransactionRequest>, ids: TransactionIds, id: Id, k: nat, n: nat)
    requires LastBrought(run, k, n, id, ids)
    ensures var table := Stored(Upserts(run, ids));
            id in table && Carries(table[id], run[k].fetched.value.records[n], run[k].gate, ids)
  {
    FirstForExactly(run[k], n, id, ids);
    forall j | k < j < |run| ensures !Supplies(run[j], id, ids) {
      SuppliesExactly(run[j], id, ids);
    }
    RowOfRun(run, ids, id, k, n);
    NormalizedExactly(run[k].fetched.value.records[n], run[k].gate, ids);
  }

  /** An identifier without a row was never brought, and one with a row was. */
  lemma {:induction false} RowsBrought(run: seq<TransactionRequest>, ids: TransactionIds, id: Id)
    ensures id in Stored(Upserts(run, ids)) <==>
            exists k: nat, n: nat :: k < |run| && Brings(run[k], n, id, ids)
  {
    RowsExactly(run, ids, id);
    forall k | 0 <= k < |run| ensures Supplies(run[k], id, ids) <==> exists n: nat :: Brings(run[k], n, id, ids) {
      SuppliesExactly(run[k], id, ids);
    }
    if exists k: nat, n: nat :: k < |run| && Brings(run[k], n, id, ids) {
      var k: nat, n: nat :| k < |run| && Brings(run[k], n, id, ids);
      assert Supplies(run[k], id, ids);
    }
  }
}
