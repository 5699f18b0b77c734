/** Transaction ingestion and storage (services/transaction_ingestion.py,
    TransactionRepository in storage/repositories.py). */
module TransactionIngestion {
  import opened Text
  import opened Domain
  import opened Ratios
  import opened TransactionGates
  import opened TransactionRecords

  // ---- The table, keyed by transaction_id ----

  type TransactionTable = map<Id, Transaction>

  function Stored(log: seq<Transaction>): TransactionTable {
    if log == [] then map[]
    else
      var t := log[|log| - 1];
      Stored(log[..|log| - 1])[t.transactionId := t]
  }

  function LastWritten(log: seq<Transaction>, id: Id): Option<Transaction> {
    if log == [] then None
    else if log[|log| - 1].transactionId == id then Some(log[|log| - 1])
    else LastWritten(log[..|log| - 1], id)
  }

  /** One row per identifier ever written, holding the last write. */
  lemma {:induction false} StoredIsLastWritten(log: seq<Transaction>, id: Id)
    ensures (id in Stored(log)) == LastWritten(log, id).Some?
    ensures id in Stored(log) ==> LastWritten(log, id) == Some(Stored(log)[id])
  {
    if log == [] {
    } else {
      StoredIsLastWritten(log[..|log| - 1], id);
    }
  }

  lemma {:induction false} LastWrittenAppend(a: seq<Transaction>, b: seq<Transaction>, id: Id)
    ensures LastWritten(a + b, id) == if LastWritten(b, id).Some? then LastWritten(b, id) else LastWritten(a, id)
  {
    if b == [] {
      assert a + b == a;
    } else {
      assert (a + b)[..|a + b| - 1] == a + b[..|b| - 1];
      LastWrittenAppend(a, b[..|b| - 1], id);
    }
  }

  lemma {:induction false} LastWrittenLogged(log: seq<Transaction>, id: Id)
    ensures match LastWritten(log, id)
            case Some(t) => t in log && t.transactionId == id
            case None => forall t :: t in log ==> t.transactionId != id
  {
    if log == [] {
    } else {
      LastWrittenLogged(log[..|log| - 1], id);
      assert log == log[..|log| - 1] + [log[|log| - 1]];
    }
  }

  /** `t` is written at some place, and nothing under its identifier after it. */
  ghost predicate WrittenLast(log: seq<Transaction>, id: Id, t: Transaction) {
    exists n :: 0 <= n < |log| && log[n] == t && t.transactionId == id
                && forall k :: n < k < |log| ==> log[k].transactionId != id
  }

  lemma {:induction false} LastWrittenExactly(log: seq<Transaction>, id: Id, t: Transaction)
    ensures LastWritten(log, id) == Some(t) <==> WrittenLast(log, id, t)
  {
    if log == [] {
    } else {
      var k := |log| - 1;
      LastWrittenExactly(log[..k], id, t);
      assert forall i :: 0 <= i < k ==> log[..k][i] == log[i];
    }
  }

  /** One row per identifier ever written, holding the last write, said of the writes alone. */
  lemma {:induction false} TableExactly(log: seq<Transaction>, id: Id, t: Transaction)
    ensures id in Stored(log) && Stored(log)[id] == t <==> WrittenLast(log, id, t)
    ensures id in Stored(log) <==> exists n :: 0 <= n < |log| && log[n].transactionId == id
  {
    StoredIsLastWritten(log, id);
    LastWrittenExactly(log, id, t);
    LastWrittenLogged(log, id);
  }

  lemma {:induction false} SameLastWritten(a: seq<Transaction>, b: seq<Transaction>)
    requires forall id :: LastWritten(a, id) == LastWritten(b, id)
    ensures Stored(a) == Stored(b)
  {
    forall id
      ensures id in Stored(a) <==> id in Stored(b)
      ensures id in Stored(a) && id in Stored(b) ==> Stored(a)[id] == Stored(b)[id]
    {
      StoredIsLastWritten(a, id);
      StoredIsLastWritten(b, id);
    }
  }

  /** Writing a batch a second time changes nothing. */
  lemma {:induction false} ReplayTransactions(log: seq<Transaction>, batch: seq<Transaction>)
    ensures Stored(log + batch + batch) == Stored(log + batch)
  {
    forall id ensures LastWritten(log + batch + batch, id) == LastWritten(log + batch, id) {
      LastWrittenAppend(log, batch, id);
      LastWrittenAppend(log + batch, batch, id);
    }
    SameLastWritten(log + batch + batch, log + batch);
  }

  class TransactionRepository {
    var rows: TransactionTable
    ghost var log: seq<Transaction>

    ghost predicate Valid()
      reads this
    {
      rows == Stored(log) && forall t :: t in log ==> t.Valid()
    }

    constructor ()
      ensures Valid() && log == []
    {
      rows, log := map[], [];
    }

    method Upsert(item: Transaction)
      requires Valid() && item.Valid()
      modifies this
      ensures Valid() && log == old(log) + [item]
      ensures rows == old(rows)[item.transactionId := item]
    {
      rows := rows[item.transactionId := item];
      log := log + [item];
      assert log[..|log| - 1] == old(log);
    }

    method UpsertMany(transactions: seq<Transaction>) returns (count: nat)
      requires Valid() && forall t :: t in transactions ==> t.Valid()
      modifies this
      ensures Valid() && log == old(log) + transactions && count == |transactions|
    {
      count := 0;
      while count < |transactions|
        invariant count <= |transactions|
        invariant Valid() && log == old(log) + transactions[..count]
      {
        Upsert(transactions[count]);
        count := count + 1;
      }
      assert transactions[..count] == transactions;
    }
  }

  // ---- One batch ----

  /** What the loop has collected: accepted transactions (an insertion-ordered dict),
      quality rejections in record order, warnings of accepted ones. */
  datatype Batch = Batch(accepted: seq<Transaction>, rejections: seq<Rejection>, warnings: seq<(Id, Note)>)

  predicate HasId(ts: seq<Transaction>, id: Id) {
    exists i :: 0 <= i < |ts| && ts[i].transactionId == id
  }

  function Warn(id: Id, notes: seq<Note>): seq<(Id, Note)> {
    seq(|notes|, i requires 0 <= i < |notes| => (id, notes[i]))
  }

  function Duplicate(t: Transaction): Rejection {
    Rejection(t.source, t.sourceTransactionId, t.sourceUrl, DuplicateInBatch)
  }

  function Collect(records: seq<RawRecord>, g: Gate, ids: TransactionIds): Batch {
    if records == [] then Batch([], [], [])
    else
      var before := Collect(records[..|records| - 1], g, ids);
      match Normalized(records[|records| - 1], g, ids)
      case Rejected(rejection) => before.(rejections := before.rejections + [rejection])
      case Accepted(t, notes) =>
        if HasId(before.accepted, t.transactionId) then before.(rejections := before.rejections + [Duplicate(t)])
        else before.(accepted := before.accepted + [t], warnings := before.warnings + Warn(t.transactionId, notes))
  }

  datatype TransactionFetch = TransactionFetch(
    records: seq<RawRecord>, parseRejections: seq<ParseRejection>, sourceRowCount: nat)
  {
    ghost predicate Valid() {
      && (forall r :: r in records ==> r.Valid())
      && |records| + |parseRejections| <= sourceRowCount
    }
  }

  datatype TransactionIngestionResult = TransactionIngestionResult(
    communityId: Id, startDate: Option<Day>, endDate: Option<Day>, sourceRowCount: nat, parsedCount: nat,
    upsertedCount: nat, transactionIds: seq<Id>, parseRejections: seq<ParseRejection>,
    qualityRejections: seq<Rejection>, warnings: seq<(Id, Note)>)

  datatype TransactionOutcome =
    | Upserted(result: TransactionIngestionResult)
    | FetchFailed(subjectId: Id)
    | ServiceRefused

  /** One ingestion: the service's tolerance and the request's bounds, and what the provider delivered. */
  datatype TransactionRequest = TransactionRequest(gate: Gate, fetched: Option<TransactionFetch>)
  {
    ghost predicate Valid() { fetched.Some? ==> fetched.value.Valid() }

    /** Whether the service exists and its fetch succeeds. */
    predicate Delivers() { ToleranceInRange(gate.tolerance) && fetched.Some? }
  }

  /** What one ingestion writes. */
  function Written(q: TransactionRequest, ids: TransactionIds): seq<Transaction> {
    if q.Delivers() then Collect(q.fetched.value.records, q.gate, ids).accepted else []
  }

  /** The outcome a caller gets for one request. */
  function Reported(q: TransactionRequest, ids: TransactionIds): TransactionOutcome {
    if !ToleranceInRange(q.gate.tolerance) then ServiceRefused
    else if q.fetched.None? then FetchFailed(q.gate.communityId)
    else
      var fetch, batch := q.fetched.value, Collect(q.fetched.value.records, q.gate, ids);
      Upserted(TransactionIngestionResult(
        q.gate.communityId, q.gate.startDate, q.gate.endDate, fetch.sourceRowCount, |fetch.records|,
        |batch.accepted|, IdsOf(batch.accepted), fetch.parseRejections, batch.rejections, batch.warnings))
  }

  /** The identifiers, in order of acceptance. */
  function IdsOf(ts: seq<Transaction>): seq<Id> {
    seq(|ts|, i requires 0 <= i < |ts| => ts[i].transactionId)
  }

  lemma {:induction false} CollectStep(records: seq<RawRecord>, i: nat, g: Gate, ids: TransactionIds)
    requires i < |records|
    ensures var before := Collect(records[..i], g, ids);
            Collect(records[..i + 1], g, ids) ==
            match Normalized(records[i], g, ids)
            case Rejected(rejection) => before.(rejections := before.rejections + [rejection])
            case Accepted(t, notes) =>
              if HasId(before.accepted, t.transactionId) then before.(rejections := before.rejections + [Duplicate(t)])
              else before.(accepted := before.accepted + [t], warnings := before.warnings + Warn(t.transactionId, notes))
  {
    var front := records[..i + 1];
    assert front[..|front| - 1] == records[..i] && front[|front| - 1] == records[i];
  }

  /** One ingestion: a service with this tolerance fetches, normalizes every record, keeps the first of each
      identifier, and upserts the kept ones. */
  method IngestTransactions(repository: TransactionRepository, q: TransactionRequest, ids: TransactionIds)
    returns (outcome: TransactionOutcome)
    requires repository.Valid() && q.Valid()
    modifies repository
    ensures repository.Valid()
    ensures repository.log == old(repository.log) + Written(q, ids)
    ensures outcome == Reported(q, ids)
    ensures outcome.Upserted? <==> 0.0 <= q.gate.tolerance <= 1.0 && q.fetched.Some?
    ensures !outcome.Upserted? ==> repository.log == old(repository.log) && repository.rows == old(repository.rows)
    ensures outcome.Upserted? ==>
              && outcome.result.parsedCount == outcome.result.upsertedCount + |outcome.result.qualityRejections|
              && outcome.result.sourceRowCount >= outcome.result.parsedCount + |outcome.result.parseRejections|
  {
    assert repository.log + [] == repository.log;
    if !ToleranceInRange(q.gate.tolerance) {
      return ServiceRefused;
    }
    if q.fetched.None? {
      return FetchFailed(q.gate.communityId);
    }
    var fetch, g := q.fetched.value, q.gate;
    var records := fetch.records;
    var accepted: seq<Transaction>, rejections: seq<Rejection>, warnings: seq<(Id, Note)> := [], [], [];
    for i := 0 to |records|
      invariant repository.log == old(repository.log) && repository.rows == old(repository.rows)
      invariant Batch(accepted, rejections, warnings) == Collect(records[..i], g, ids)
    {
      CollectStep(records, i, g, ids);
      var normalization := NormalizeTransaction(records[i], g, ids);
      var normalized := normalization.outcome;
      if normalized.Rejected? {
        rejections := rejections + [normalized.rejection];
        continue;
      }
      var transaction := normalized.transaction;
      if HasId(accepted, transaction.transactionId) {
        rejections := rejections + [Duplicate(transaction)];
      } else {
        accepted := accepted + [transaction];
        warnings := warnings + Warn(transaction.transactionId, normalized.notes);
      }
    }
    assert records[..|records|] == records;
    CollectedValid(records, g, ids);
    var _ := BatchConserved(records, g, ids);
    var upserted := repository.UpsertMany(accepted);
    outcome := Upserted(TransactionIngestionResult(
      g.communityId, g.startDate, g.endDate, fetch.sourceRowCount, |records|, upserted, IdsOf(accepted),
      fetch.parseRejections, rejections, warnings));
  }

  // ---- What a batch guarantees ----

  /** The n-th record is the first of its identifier to pass the gates. */
  ghost predicate FirstPassing(records: seq<RawRecord>, n: nat, g: Gate, ids: TransactionIds) {
    && n < |records| && Normalized(records[n], g, ids).Accepted?
    && forall i :: 0 <= i < n && Normalized(records[i], g, ids).Accepted? ==>
         Normalized(records[i], g, ids).transaction.transactionId != Normalized(records[n], g, ids).transaction.transactionId
  }

  lemma FirstPassingPrefix(records: seq<RawRecord>, k: nat, n: nat, g: Gate, ids: TransactionIds)
    requires n < k <= |records|
    ensures FirstPassing(records[..k], n, g, ids) <==> FirstPassing(records, n, g, ids)
  {
  }

  /** `t` is the transaction of the first passing record of its identifier. */
  ghost predicate ComesFirst(records: seq<RawRecord>, g: Gate, ids: TransactionIds, t: Transaction) {
    exists n: nat :: FirstPassing(records, n, g, ids) && Normalized(records[n], g, ids).transaction == t
  }

  lemma ComesFirstStep(records: seq<RawRecord>, g: Gate, ids: TransactionIds, t: Transaction)
    requires records != []
    ensures var k := |records| - 1;
            ComesFirst(records, g, ids, t) <==>
            || ComesFirst(records[..k], g, ids, t)
            || (FirstPassing(records, k, g, ids) && Normalized(records[k], g, ids).transaction == t)
  {
    var k := |records| - 1;
    var front := records[..k];
    if ComesFirst(records, g, ids, t) {
      var n: nat :| FirstPassing(records, n, g, ids) && Normalized(records[n], g, ids).transaction == t;
      if n < k {
        FirstPassingPrefix(records, k, n, g, ids);
        assert front[n] == records[n];
      }
    }
    if ComesFirst(front, g, ids, t) {
      var n: nat :| FirstPassing(front, n, g, ids) && Normalized(front[n], g, ids).transaction == t;
      FirstPassingPrefix(records, k, n, g, ids);
      assert front[n] == records[n];
    }
  }

  lemma {:induction false} AcceptedStep(records: seq<RawRecord>, g: Gate, ids: TransactionIds, t: Transaction)
    requires records != []
    ensures var k := |records| - 1;
            t in Collect(records, g, ids).accepted <==>
            || t in Collect(records[..k], g, ids).accepted
            || (FirstPassing(records, k, g, ids) && Normalized(records[k], g, ids).transaction == t)
  {
    if Normalized(records[|records| - 1], g, ids).Accepted? {
      NewIdentifier(records, g, ids);
    }
  }

  /** Accepted are exactly the first passing records of each identifier: a gate-rejected record never
      shadows a later valid one, and a later duplicate never replaces the first. */
  lemma {:induction false} AcceptedExactly(records: seq<RawRecord>, g: Gate, ids: TransactionIds, t: Transaction)
    ensures t in Collect(records, g, ids).accepted <==> ComesFirst(records, g, ids, t)
  {
    if records == [] {
    } else {
      AcceptedExactly(records[..|records| - 1], g, ids, t);
      AcceptedStep(records, g, ids, t);
      ComesFirstStep(records, g, ids, t);
    }
  }

  /** The last record is the first of its identifier exactly when nothing kept so far has it. */
  lemma NewIdentifier(records: seq<RawRecord>, g: Gate, ids: TransactionIds)
    requires records != [] && Normalized(records[|records| - 1], g, ids).Accepted?
    ensures var k := |records| - 1;
            HasId(Collect(records[..k], g, ids).accepted, Normalized(records[k], g, ids).transaction.transactionId)
            <==> !FirstPassing(records, k, g, ids)
  {
    var k := |records| - 1;
    var front := records[..k];
    var id := Normalized(records[k], g, ids).transaction.transactionId;
    KeptIdentifier(front, g, ids, id);
    assert forall i :: 0 <= i < k ==> front[i] == records[i];
  }

  /** An identifier is kept as soon as one record carrying it passes. */
  lemma {:induction false} KeptIdentifier(records: seq<RawRecord>, g: Gate, ids: TransactionIds, id: Id)
    ensures HasId(Collect(records, g, ids).accepted, id) <==>
            exists i :: 0 <= i < |records| && Normalized(records[i], g, ids).Accepted?
                        && Normalized(records[i], g, ids).transaction.transactionId == id
  {
    if records == [] {
    } else {
      var k := |records| - 1;
      var front := records[..k];
      KeptIdentifier(front, g, ids, id);
      var before, after := Collect(front, g, ids).accepted, Collect(records, g, ids).accepted;
      assert forall i :: 0 <= i < |before| ==> after[i] == before[i];
      assert forall i :: 0 <= i < k ==> front[i] == records[i];
      if after != before {
        assert after[|before|].transactionId == Normalized(records[k], g, ids).transaction.transactionId;
      }
    }
  }

  /** Whether the i-th record is reported as a quality rejection, and as which one. */
  function RejectionAt(records: seq<RawRecord>, i: nat, g: Gate, ids: TransactionIds): Option<Rejection>
    requires i < |records|
  {
    match Normalized(records[i], g, ids)
    case Rejected(rejection) => Some(rejection)
    case Accepted(t, _) =>
      if exists j :: 0 <= j < i && Normalized(records[j], g, ids).Accepted?
                     && Normalized(records[j], g, ids).transaction.transactionId == t.transactionId
      then Some(Duplicate(t)) else None
  }

  /** Rejections are reported in record order: `at` lists the rejected records, ascending. */
  ghost predicate InRecordOrder(records: seq<RawRecord>, rejections: seq<Rejection>, at: seq<nat>,
                                g: Gate, ids: TransactionIds) {
    && |at| == |rejections|
    && (forall i, j :: 0 <= i < j < |at| ==> at[i] < at[j])
    && (forall i :: 0 <= i < |at| ==> at[i] < |records| && RejectionAt(records, at[i], g, ids) == Some(rejections[i]))
    && (forall n :: 0 <= n < |records| && RejectionAt(records, n, g, ids).Some? ==> n in at)
  }

  lemma RejectionAtPrefix(records: seq<RawRecord>, k: nat, i: nat, g: Gate, ids: TransactionIds)
    requires i < k <= |records|
    ensures RejectionAt(records[..k], i, g, ids) == RejectionAt(records, i, g, ids)
  {
    assert forall j :: 0 <= j <= i ==> records[..k][j] == records[j];
  }

  lemma {:induction false} LastOutcome(records: seq<RawRecord>, g: Gate, ids: TransactionIds)
    requires records != []
    ensures var k := |records| - 1;
            var before, after := Collect(records[..k], g, ids), Collect(records, g, ids);
            match RejectionAt(records, k, g, ids)
            case Some(rejection) => after.rejections == before.rejections + [rejection] && after.accepted == before.accepted
            case None => after.rejections == before.rejections && |after.accepted| == |before.accepted| + 1
  {
    var k := |records| - 1;
    if Normalized(records[k], g, ids).Accepted? {
      KeptIdentifier(records[..k], g, ids, Normalized(records[k], g, ids).transaction.transactionId);
      assert forall j :: 0 <= j < k ==> records[..k][j] == records[j];
    }
  }

  lemma OrderStep(records: seq<RawRecord>, rejections: seq<Rejection>, at: seq<nat>, g: Gate, ids: TransactionIds)
    requires records != [] && InRecordOrder(records[..|records| - 1], rejections, at, g, ids)
    ensures var k := |records| - 1;
            match RejectionAt(records, k, g, ids)
            case Some(rejection) => InRecordOrder(records, rejections + [rejection], at + [k], g, ids)
            case None => InRecordOrder(records, rejections, at, g, ids)
  {
    var k := |records| - 1;
    forall i | 0 <= i < k ensures RejectionAt(records[..k], i, g, ids) == RejectionAt(records, i, g, ids) {
      RejectionAtPrefix(records, k, i, g, ids);
    }
  }

  /** Conservation: every parsed record is upserted or reported as a rejection, in record order. */
  lemma {:induction false} BatchConserved(records: seq<RawRecord>, g: Gate, ids: TransactionIds) returns (at: seq<nat>)
    ensures |records| == |Collect(records, g, ids).accepted| + |Collect(records, g, ids).rejections|
    ensures InRecordOrder(records, Collect(records, g, ids).rejections, at, g, ids)
    decreases |records|
  {
    if records == [] {
      at := [];
    } else {
      var k := |records| - 1;
      at := BatchConserved(records[..k], g, ids);
      LastOutcome(records, g, ids);
      OrderStep(records, Collect(records[..k], g, ids).rejections, at, g, ids);
      if RejectionAt(records, k, g, ids).Some? {
        at := at + [k];
      }
    }
  }

  // ---- Runs ----

  function Upserts(run: seq<TransactionRequest>, ids: TransactionIds): seq<Transaction> {
    if run == [] then [] else Upserts(run[..|run| - 1], ids) + Written(run[|run| - 1], ids)
  }

  ghost predicate ValidRequests(run: seq<TransactionRequest>) {
    forall i :: 0 <= i < |run| ==> run[i].Valid()
  }

  method IngestAllTransactions(run: seq<TransactionRequest>, ids: TransactionIds)
    returns (repository: TransactionRepository)
    requires ValidRequests(run)
    ensures fresh(repository) && repository.Valid() && repository.log == Upserts(run, ids)
  {
    repository := new TransactionRepository();
    assert run[..0] == [];
    for i := 0 to |run|
      invariant fresh(repository) && repository.Valid() && repository.log == Upserts(run[..i], ids)
    {
      var _ := IngestTransactions(repository, run[i], ids);
      assert run[..i + 1][..i] == run[..i];
    }
    assert run[..|run|] == run;
  }

  // ---- Which record a stored row holds ----

  /** The n-th record of a delivered fetch is the first of `id` to pass the gates. */
  ghost predicate FirstFor(q: TransactionRequest, n: nat, id: Id, ids: TransactionIds) {
    && q.Delivers() && FirstPassing(q.fetched.value.records, n, q.gate, ids)
    && Normalized(q.fetched.value.records[n], q.gate, ids).transaction.transactionId == id
  }

  /** Some record of a delivered fetch passes the gates under `id`. */
  ghost predicate Supplies(q: TransactionRequest, id: Id, ids: TransactionIds) {
    exists n: nat :: FirstFor(q, n, id, ids)
  }

  lemma {:induction false} KeptOnce(records: seq<RawRecord>, n: nat, g: Gate, ids: TransactionIds, t: Transaction)
    requires FirstPassing(records, n, g, ids) && t in Collect(records, g, ids).accepted
    requires t.transactionId == Normalized(records[n], g, ids).transaction.transactionId
    ensures t == Normalized(records[n], g, ids).transaction
  {
    AcceptedExactly(records, g, ids, t);
    var m: nat :| FirstPassing(records, m, g, ids) && Normalized(records[m], g, ids).transaction == t;
    assert m == n;
  }

  /** After a batch the row of an identifier holds the first record of it that passed the gates. */
  lemma {:induction false} FirstPassingStored(log: seq<Transaction>, records: seq<RawRecord>, n: nat, g: Gate,
                                             ids: TransactionIds)
    requires FirstPassing(records, n, g, ids)
    ensures var t := Normalized(records[n], g, ids).transaction;
            var after := Stored(log + Collect(records, g, ids).accepted);
            t.transactionId in after && after[t.transactionId] == t
  {
    var t, batch := Normalized(records[n], g, ids).transaction, Collect(records, g, ids).accepted;
    AcceptedExactly(records, g, ids, t);
    LastWrittenLogged(batch, t.transactionId);
    KeptOnce(records, n, g, ids, LastWritten(batch, t.transactionId).value);
    LastWrittenAppend(log, batch, t.transactionId);
    StoredIsLastWritten(log + batch, t.transactionId);
  }

  /** A request that supplies no record of an identifier leaves its row as it was. */
  lemma {:induction false} OthersKeepRows(log: seq<Transaction>, q: TransactionRequest, ids: TransactionIds, id: Id)
    requires !Supplies(q, id, ids)
    ensures var before, after := Stored(log), Stored(log + Written(q, ids));
            (id in after <==> id in before) && (id in before ==> after[id] == before[id])
  {
    var batch := Written(q, ids);
    forall t | t in batch ensures t.transactionId != id {
      AcceptedExactly(q.fetched.value.records, q.gate, ids, t);
      var n: nat :| FirstPassing(q.fetched.value.records, n, q.gate, ids)
                    && Normalized(q.fetched.value.records[n], q.gate, ids).transaction == t;
      assert !FirstFor(q, n, id, ids);
    }
    LastWrittenLogged(batch, id);
    LastWrittenAppend(log, batch, id);
    StoredIsLastWritten(log, id);
    StoredIsLastWritten(log + batch, id);
  }

  /** Over a whole run a row holds the first passing record of the last request that supplied its identifier. */
  lemma {:induction false} RowOfRun(run: seq<TransactionRequest>, ids: TransactionIds, id: Id, k: nat, n: nat)
    requires k < |run| && FirstFor(run[k], n, id, ids)
    requires forall j :: k < j < |run| ==> !Supplies(run[j], id, ids)
    ensures var table := Stored(Upserts(run, ids));
            id in table && table[id] == Normalized(run[k].fetched.value.records[n], run[k].gate, ids).transaction
  {
    var front, last := run[..|run| - 1], run[|run| - 1];
    if k == |run| - 1 {
      FirstPassingStored(Upserts(front, ids), last.fetched.value.records, n, last.gate, ids);
    } else {
      RowOfRun(front, ids, id, k, n);
      OthersKeepRows(Upserts(front, ids), last, ids, id);
    }
  }

  /** An identifier has a row exactly when some request of the run supplied it. */
  lemma {:induction false} RowsExactly(run: seq<TransactionRequest>, ids: TransactionIds, id: Id)
    ensures id in Stored(Upserts(run, ids)) <==> exists k :: 0 <= k < |run| && Supplies(run[k], id, ids)
  {
    if run == [] {
      assert Upserts(run, ids) == [];
    } else {
      var front, last := run[..|run| - 1], run[|run| - 1];
      RowsExactly(front, ids, id);
      assert forall k :: 0 <= k < |front| ==> front[k] == run[k];
      if Supplies(last, id, ids) {
        var n: nat :| FirstFor(last, n, id, ids);
        FirstPassingStored(Upserts(front, ids), last.fetched.value.records, n, last.gate, ids);
      } else {
        OthersKeepRows(Upserts(front, ids), last, ids, id);
      }
    }
  }

  // ---- What the gates guarantee about stored rows ----

  /** No service of the run was configured with a tolerance above `tolerance`. */
  ghost predicate AtMost(run: seq<TransactionRequest>, tolerance: real) {
    forall i :: 0 <= i < |run| && run[i].Delivers() ==> run[i].gate.tolerance <= tolerance
  }

  /** The i-th request of the run admitted this transaction. */
  ghost predicate AdmittedBy(run: seq<TransactionRequest>, i: nat, t: Transaction, ids: TransactionIds) {
    && i < |run| && run[i].Delivers() && Admitted(t, run[i].gate)
    && CameFrom(run[i].fetched.value.records, run[i].gate, t, ids)
  }

  ghost predicate CameFrom(records: seq<RawRecord>, g: Gate, t: Transaction, ids: TransactionIds) {
    exists r :: r in records && r.Valid() && Normalized(r, g, ids).Accepted? && Normalized(r, g, ids).transaction == t
                && Acceptable(r, g) && Carries(t, r, g, ids)
  }

  lemma {:induction false} CollectedCameFrom(records: seq<RawRecord>, g: Gate, t: Transaction, ids: TransactionIds)
    requires t in Collect(records, g, ids).accepted && forall r :: r in records ==> r.Valid()
    ensures CameFrom(records, g, t, ids)
  {
    AcceptedExactly(records, g, ids, t);
    var n: nat :| FirstPassing(records, n, g, ids) && Normalized(records[n], g, ids).transaction == t;
    NormalizedExactly(records[n], g, ids);
    assert records[n] in records;
  }

  lemma CameFromAdmitted(records: seq<RawRecord>, g: Gate, t: Transaction, ids: TransactionIds)
    requires CameFrom(records, g, t, ids) && 0.0 <= g.tolerance
    ensures Admitted(t, g)
  {
    var r :| r in records && r.Valid() && Normalized(r, g, ids).Accepted? && Normalized(r, g, ids).transaction == t;
    AcceptedIsAdmitted(r, g, ids);
  }

  lemma {:induction false} CollectedValid(records: seq<RawRecord>, g: Gate, ids: TransactionIds)
    requires 0.0 <= g.tolerance && forall r :: r in records ==> r.Valid()
    ensures forall t :: t in Collect(records, g, ids).accepted ==> t.Valid()
  {
    forall t | t in Collect(records, g, ids).accepted ensures t.Valid() {
      CollectedCameFrom(records, g, t, ids);
      CameFromAdmitted(records, g, t, ids);
    }
  }

  lemma {:induction false} UpsertsAdmitted(run: seq<TransactionRequest>, ids: TransactionIds, t: Transaction)
    requires ValidRequests(run) && t in Upserts(run, ids)
    ensures exists i: nat :: AdmittedBy(run, i, t, ids)
  {
    var k := |run| - 1;
    if t in Upserts(run[..k], ids) {
      UpsertsAdmitted(run[..k], ids, t);
      var i: nat :| AdmittedBy(run[..k], i, t, ids);
      assert AdmittedBy(run, i, t, ids);
    } else {
      CollectedCameFrom(run[k].fetched.value.records, run[k].gate, t, ids);
      CameFromAdmitted(run[k].fetched.value.records, run[k].gate, t, ids);
      assert AdmittedBy(run, k, t, ids);
    }
  }

  lemma {:induction false} RowIsUpsert(log: seq<Transaction>, id: Id)
    requires id in Stored(log)
    ensures Stored(log)[id] in log && Stored(log)[id].transactionId == id
  {
    StoredIsLastWritten(log, id);
    LastWrittenLogged(log, id);
  }

  ghost predicate WithinTolerance(t: Transaction, tolerance: real) {
    t.Valid() && Abs(t.unitPriceCnySqm * t.areaSqm - t.dealPriceCny) <= tolerance * t.dealPriceCny
  }

  lemma AdmittedWithin(t: Transaction, g: Gate, tolerance: real)
    requires Admitted(t, g) && g.tolerance <= tolerance
    ensures WithinTolerance(t, tolerance)
  {
    LooserBound(g.tolerance, tolerance, t.dealPriceCny);
  }

  lemma {:induction false} UpsertWithin(run: seq<TransactionRequest>, tolerance: real,
                                       ids: TransactionIds, t: Transaction)
    requires ValidRequests(run) && AtMost(run, tolerance) && t in Upserts(run, ids)
    ensures WithinTolerance(t, tolerance) && exists i: nat :: AdmittedBy(run, i, t, ids)
  {
    UpsertsAdmitted(run, ids, t);
    var i: nat :| AdmittedBy(run, i, t, ids);
    AdmittedWithin(t, run[i].gate, tolerance);
  }

  /** In every reachable store each row came out of some request's gate and still satisfies it. */
  lemma {:induction false} ReachableRowsAdmitted(run: seq<TransactionRequest>, tolerance: real,
                                                ids: TransactionIds, id: Id)
    requires ValidRequests(run) && AtMost(run, tolerance) && id in Stored(Upserts(run, ids))
    ensures var t := Stored(Upserts(run, ids))[id];
            && t.transactionId == id && WithinTolerance(t, tolerance)
            && exists i: nat :: AdmittedBy(run, i, t, ids)
  {
    RowIsUpsert(Upserts(run, ids), id);
    UpsertWithin(run, tolerance, ids, Stored(Upserts(run, ids))[id]);
  }
}
