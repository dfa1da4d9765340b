/** The earlier iteration of the service, internal/services/shortener.go
    (URLStorage). Its SQL statements are not part of this model, so every database
    interaction is reduced to the outcome the code branches on, given as an input;
    the store is the index, the log and the Count field that numbers records. */
module LegacyService {
  import opened Models

  /** The error values shortener.go declares for itself, and the errors it passes on. */
  datatype Failure =
    | Duplicate      // "duplicate URL record"
    | NotFound       // "error finding URL"
    | URLDeleted     // "URL was deleted"
    | DatabaseSave   // "failed to save URL to the database"
    | Driver         // an error of Begin, Prepare, Exec or the connection
    | LogWrite       // the JSON encoder could not append the record

  /** A record of this iteration: URLRecord with an ID taken from Count. */
  datatype Record = Record(id: int, userID: string, shortURL: string, url: string, deleted: bool)

  datatype Store = Store(urls: map<string, Record>, log: seq<Record>, count: int, hasDB: bool)

  /** How the INSERT of ServSave ends. */
  datatype ExecOutcome = ExecOk | ExecUnique | ExecFailed

  /** How the scan of ServGet's single-row query ends. */
  datatype Scan = ScanFailed | Scanned(url: string, deleted: bool)

  datatype Saved = Saved(store: Store, short: string, err: Option<Failure>)

  datatype Answer = Answer(value: string, err: Option<Failure>)

  /** Count is the next ID to assign and the log's IDs run consecutively up to it. */
  ghost predicate Numbered(s: Store) {
    forall j :: 0 <= j < |s.log| ==> s.log[j].id == s.count - |s.log| + j
  }

  /** Every index entry sits under its own code and is a record on the log. */
  ghost predicate Indexed(s: Store) {
    forall k :: k in s.urls ==> s.urls[k].shortURL == k && s.urls[k] in s.log
  }

  // ---------------------------------------------------------------- ServSave

  /** ServSave: a unique violation returns the code with Duplicate, any other
      database error "" with DatabaseSave, both before the index is consulted; a
      new code is logged with ID Count, indexed, and Count is incremented. */
  function ServSaveStep(s: Store, encode: Codec, url: string, userID: string, exec: ExecOutcome, logFault: bool)
    : (r: Saved)
    ensures s.hasDB && exec == ExecUnique ==> r == Saved(s, encode(url), Some(Duplicate))
    ensures s.hasDB && exec == ExecFailed ==> r == Saved(s, "", Some(DatabaseSave))
    ensures r.err == None ==> r.short == encode(url)
    ensures r.store.hasDB == s.hasDB
  {
    var short := encode(url);
    var rec := Record(s.count, userID, short, url, false);
    if s.hasDB && exec == ExecUnique then Saved(s, short, Some(Duplicate))
    else if s.hasDB && exec == ExecFailed then Saved(s, "", Some(DatabaseSave))
    else if short in s.urls then Saved(s, short, None)
    else if logFault then Saved(s, "", Some(LogWrite))
    else Saved(Store(s.urls[short := rec], s.log + [rec], s.count + 1, s.hasDB), short, None)
  }

  /** A new code appends one record numbered Count, indexes it and increments Count
      by exactly one; a known code changes nothing. */
  lemma ServSaveCounts(s: Store, encode: Codec, url: string, userID: string, exec: ExecOutcome, logFault: bool)
    requires !s.hasDB || exec == ExecOk
    ensures var r := ServSaveStep(s, encode, url, userID, exec, logFault);
      var rec := Record(s.count, userID, encode(url), url, false);
      if encode(url) in s.urls then r == Saved(s, encode(url), None)
      else if logFault then r == Saved(s, "", Some(LogWrite))
      else r.err == None && r.store.count == s.count + 1 &&
           r.store.log == s.log + [rec] && r.store.urls == s.urls[encode(url) := rec]
  {
  }

  /** ServSave keeps the records numbered by Count and indexed under their codes. */
  lemma ServSaveKeepsNumbering(s: Store, encode: Codec, url: string, userID: string, exec: ExecOutcome, logFault: bool)
    requires Numbered(s) && Indexed(s)
    ensures var r := ServSaveStep(s, encode, url, userID, exec, logFault);
      Numbered(r.store) && Indexed(r.store)
  {
  }

  // ---------------------------------------------------------------- ServGet

  /** ServGet: with a database a failed scan gives "" with no error; a deleted row
      gives URLDeleted, an empty url NotFound, otherwise the url. Without one the
      index is looked up. */
  function ServGet(s: Store, code: string, scan: Scan): (r: Answer)
    ensures s.hasDB && scan.ScanFailed? ==> r == Answer("", None)
    ensures s.hasDB && scan.Scanned? ==>
      r == if scan.deleted then Answer("", Some(URLDeleted))
           else if scan.url != "" then Answer(scan.url, None)
           else Answer("", Some(NotFound))
    ensures !s.hasDB ==>
      r == if code in s.urls then Answer(s.urls[code].url, None) else Answer("", Some(NotFound))
    ensures r.err != None ==> r.value == ""
  {
    if s.hasDB then
      match scan
      case ScanFailed => Answer("", None)
      case Scanned(url, deleted) =>
        if deleted then Answer("", Some(URLDeleted))
        else if url != "" then Answer(url, None)
        else Answer("", Some(NotFound))
    else if code in s.urls then Answer(s.urls[code].url, None)
    else Answer("", Some(NotFound))
  }

  /** With a database, a failed scan reports no error and an empty value, whereas
      a stored empty URL is reported as NotFound: the two answers differ. */
  lemma ServGetHidesScanFailure(s: Store, code: string)
    requires s.hasDB
    ensures ServGet(s, code, ScanFailed).err == None && ServGet(s, code, ScanFailed).value == ""
    ensures ServGet(s, code, ScanFailed) != ServGet(s, code, Scanned("", false))
  {
  }

  /** Without a database, a code ServSave returned without error looks up its URL. */
  lemma ServSaveThenGet(s: Store, encode: Codec, url: string, userID: string, exec: ExecOutcome,
                        logFault: bool, scan: Scan)
    requires !s.hasDB && Indexed(s) && Injective(encode)
    requires forall k :: k in s.urls ==> encode(s.urls[k].url) == k
    requires ServSaveStep(s, encode, url, userID, exec, logFault).err == None
    ensures var r := ServSaveStep(s, encode, url, userID, exec, logFault);
      ServGet(r.store, r.short, scan) == Answer(url, None)
  {
    var code := encode(url);
    if code in s.urls {
      assert encode(s.urls[code].url) == code;
    }
  }

  // ---------------------------------------------------------------- PingDB

  /** PingDB: false without a database, otherwise whether the ping succeeded. */
  function PingDB(s: Store, pingOk: bool): (alive: bool)
    ensures alive <==> s.hasDB && pingOk
  {
    if s.hasDB then pingOk else false
  }

  // ---------------------------------------------------------------- ShortenBatch

  /** One INSERT issued by the database block of ShortenBatch. */
  datatype Insert = Insert(id: int, userID: string, shortURL: string, url: string)

  /** Faults of the database block: Begin, PrepareContext, and the Exec of item i when i is in execs. */
  datatype BatchFaults = BatchFaults(begin: bool, prepare: bool, execs: set<nat>)

  /** The inserts of a batch: every one carries the same ID, Count, which is not
      incremented in this loop, and the batch-level user. */
  function Inserts(count: int, encode: Codec, userID: string, req: seq<BatchRequest>): seq<Insert> {
    seq(|req|, k requires 0 <= k < |req| => Insert(count, userID, encode(req[k].url), req[k].url))
  }

  datatype Issued = Issued(inserts: seq<Insert>, err: Option<Failure>)

  /** The database block: the statement is prepared on the connection, not on the
      transaction, so every successful Exec stands on its own whatever follows;
      the first failing Exec returns its error, and tx.Commit's result is ignored. */
  function DatabaseBlock(count: int, encode: Codec, userID: string, req: seq<BatchRequest>, f: BatchFaults)
    : (r: Issued)
    ensures r.err == None <==> !f.begin && !f.prepare && FirstFault(f.execs, 0, |req|) == |req|
    ensures r.err == None ==> r.inserts == Inserts(count, encode, userID, req)
    ensures r.err != None ==> r.err == Some(Driver)
    ensures r.err != None && !f.begin && !f.prepare ==>
      var k := FirstFault(f.execs, 0, |req|);
      k < |req| && r.inserts == Inserts(count, encode, userID, req)[..k]
    ensures forall j :: 0 <= j < |r.inserts| ==> r.inserts[j].id == count
  {
    if f.begin || f.prepare then Issued([], Some(Driver))
    else
      var k := FirstFault(f.execs, 0, |req|);
      var all := Inserts(count, encode, userID, req);
      if k < |req| then Issued(all[..k], Some(Driver))
      else
        assert all[..k] == all;
        Issued(all, None)
  }

  datatype Batched = Batched(store: Store, res: seq<BatchResponse>, issued: seq<Insert>, err: Option<Failure>)

  /** The local loop from item i on: the response is appended, and a new code is
      logged with ID Count and an empty user, indexed, and Count incremented. */
  function LocalFrom(s: Store, encode: Codec, req: seq<BatchRequest>, res: seq<BatchResponse>,
                     logFaults: set<nat>, i: nat): (r: Batched)
    requires i <= |req|
    ensures r.issued == [] && r.store.hasDB == s.hasDB
    decreases |req| - i
  {
    if i == |req| then Batched(s, res, [], None)
    else
      var code := encode(req[i].url);
      var rec := Record(s.count, "", code, req[i].url, false);
      var res' := res + [BatchResponse(req[i].id, code)];
      if code in s.urls then LocalFrom(s, encode, req, res', logFaults, i + 1)
      else if i in logFaults then Batched(s, res', [], Some(LogWrite))
      else LocalFrom(Store(s.urls[code := rec], s.log + [rec], s.count + 1, s.hasDB), encode, req, res',
                     logFaults, i + 1)
  }

  /** ShortenBatch: the database block, then the local loop. */
  function ShortenBatchStep(s: Store, encode: Codec, userID: string, req: seq<BatchRequest>, res: seq<BatchResponse>,
                        f: BatchFaults, logFaults: set<nat>): (r: Batched)
    ensures s.hasDB && DatabaseBlock(s.count, encode, userID, req, f).err != None ==>
      r == Batched(s, res, DatabaseBlock(s.count, encode, userID, req, f).inserts,
                   DatabaseBlock(s.count, encode, userID, req, f).err)
    ensures !s.hasDB ==> r.issued == []
  {
    if s.hasDB then
      var db := DatabaseBlock(s.count, encode, userID, req, f);
      if db.err != None then Batched(s, res, db.inserts, db.err)
      else
        var l := LocalFrom(s, encode, req, res, logFaults, 0);
        Batched(l.store, l.res, db.inserts, l.err)
    else LocalFrom(s, encode, req, res, logFaults, 0)
  }

  /** The local loop numbers what it appends from Count on, keeps the earlier log,
      and keeps the store Numbered and Indexed. */
  lemma {:induction false} LocalKeepsNumbering(s: Store, encode: Codec, req: seq<BatchRequest>,
                                               res: seq<BatchResponse>, logFaults: set<nat>, i: nat)
    requires i <= |req| && Numbered(s) && Indexed(s)
    ensures var r := LocalFrom(s, encode, req, res, logFaults, i);
      && Numbered(r.store) && Indexed(r.store)
      && |s.log| <= |r.store.log| && r.store.log[..|s.log|] == s.log
      && r.store.count == s.count + (|r.store.log| - |s.log|)
    decreases |req| - i
  {
    if i < |req| {
      var code := encode(req[i].url);
      var rec := Record(s.count, "", code, req[i].url, false);
      var res' := res + [BatchResponse(req[i].id, code)];
      if code in s.urls {
        LocalKeepsNumbering(s, encode, req, res', logFaults, i + 1);
      } else if i !in logFaults {
        var s' := Store(s.urls[code := rec], s.log + [rec], s.count + 1, s.hasDB);
        assert Numbered(s');
        LocalKeepsNumbering(s', encode, req, res', logFaults, i + 1);
        var r := LocalFrom(s', encode, req, res', logFaults, i + 1);
        assert r.store.log[..|s.log|] == r.store.log[..|s'.log|][..|s.log|];
      }
    }
  }

  /** The responses are appended in request order after the caller's earlier ones:
      all of them on success, those up to and including the failing item otherwise. */
  lemma {:induction false} LocalResponses(s: Store, encode: Codec, req: seq<BatchRequest>,
                                          res: seq<BatchResponse>, logFaults: set<nat>, i: nat)
    requires i <= |req|
    ensures var r := LocalFrom(s, encode, req, res, logFaults, i);
      && (r.err == None ==> r.res == res + Responses(encode, req)[i..])
      && (r.err != None ==>
            && r.err == Some(LogWrite)
            && |res| < |r.res| <= |res| + |req| - i
            && r.res == res + Responses(encode, req)[i..i + |r.res| - |res|])
    decreases |req| - i
  {
    if i < |req| {
      var code := encode(req[i].url);
      var rec := Record(s.count, "", code, req[i].url, false);
      var res' := res + [BatchResponse(req[i].id, code)];
      var all := Responses(encode, req);
      assert all[i..] == [all[i]] + all[i + 1..];
      if code in s.urls {
        LocalResponses(s, encode, req, res', logFaults, i + 1);
        var r := LocalFrom(s, encode, req, res', logFaults, i + 1);
        assert LocalFrom(s, encode, req, res, logFaults, i) == r;
        if r.err != None {
          assert all[i..i + |r.res| - |res|] == [all[i]] + all[i + 1..i + 1 + (|r.res| - |res'|)];
        }
      } else if i in logFaults {
        assert all[i..i + 1] == [all[i]];
      } else {
        var s' := Store(s.urls[code := rec], s.log + [rec], s.count + 1, s.hasDB);
        LocalResponses(s', encode, req, res', logFaults, i + 1);
        var r := LocalFrom(s', encode, req, res', logFaults, i + 1);
        assert LocalFrom(s, encode, req, res, logFaults, i) == r;
        if r.err != None {
          assert all[i..i + |r.res| - |res|] == [all[i]] + all[i + 1..i + 1 + (|r.res| - |res'|)];
        }
      }
    }
  }

  /** The local loop keeps the earlier log and appends only records with an empty
      user, whatever the caller's userID, not deleted, under the code of their URL. */
  lemma {:induction false} LocalRecordsUnowned(s: Store, encode: Codec, req: seq<BatchRequest>,
                                               res: seq<BatchResponse>, logFaults: set<nat>, i: nat)
    requires i <= |req|
    ensures var r := LocalFrom(s, encode, req, res, logFaults, i);
      && |s.log| <= |r.store.log| && r.store.log[..|s.log|] == s.log
      && (forall k :: |s.log| <= k < |r.store.log| ==>
            && r.store.log[k].userID == "" && !r.store.log[k].deleted
            && r.store.log[k].shortURL == encode(r.store.log[k].url))
    decreases |req| - i
  {
    if i < |req| {
      var code := encode(req[i].url);
      var rec := Record(s.count, "", code, req[i].url, false);
      var res' := res + [BatchResponse(req[i].id, code)];
      if code in s.urls {
        LocalRecordsUnowned(s, encode, req, res', logFaults, i + 1);
      } else if i !in logFaults {
        var s' := Store(s.urls[code := rec], s.log + [rec], s.count + 1, s.hasDB);
        LocalRecordsUnowned(s', encode, req, res', logFaults, i + 1);
        var r := LocalFrom(s', encode, req, res', logFaults, i + 1);
        assert r.store.log[..|s.log|] == r.store.log[..|s'.log|][..|s.log|];
        assert r.store.log[|s.log|] == r.store.log[..|s'.log|][|s.log|] == rec;
      }
    }
  }

  /** Every insert of one batch carries the same ID, so a batch of several URLs
      writes several rows with one ID, while the local loop numbers its records apart. */
  lemma BatchSharesOneID(s: Store, encode: Codec, userID: string, req: seq<BatchRequest>,
                         res: seq<BatchResponse>, f: BatchFaults, logFaults: set<nat>)
    requires s.hasDB
    ensures var r := ShortenBatchStep(s, encode, userID, req, res, f, logFaults);
      forall j :: 0 <= j < |r.issued| ==> r.issued[j].id == s.count
  {
  }

  /** A failing Exec at item k returns its error, but the k inserts before it have
      been issued outside the transaction and are not rolled back. */
  lemma BatchFailureKeepsEarlierInserts(s: Store, encode: Codec, userID: string, req: seq<BatchRequest>,
                                        res: seq<BatchResponse>, f: BatchFaults, logFaults: set<nat>)
    requires s.hasDB && !f.begin && !f.prepare
    requires FirstFault(f.execs, 0, |req|) < |req|
    ensures var r := ShortenBatchStep(s, encode, userID, req, res, f, logFaults);
      var k := FirstFault(f.execs, 0, |req|);
      r.err == Some(Driver) && r.store == s && r.res == res &&
      r.issued == Inserts(s.count, encode, userID, req)[..k]
  {
  }

  // ---------------------------------------------------------------- deletion

  /** Faults of one commitDB: Begin, Prepare, the Exec of record i when i is in
      execs, and Commit, whose result is ignored. */
  datatype CommitFaults = CommitFaults(begin: bool, prepare: bool, execs: set<nat>, commit: bool)

  /** What commitDB returns, and whether its updates were committed. */
  datatype Report = Report(err: Option<Failure>, applied: bool)

  /** commitDB: without a database nil; with one, the first failure of Begin,
      Prepare or an Exec is returned, and otherwise nil whether or not Commit succeeded. */
  function CommitDB(hasDB: bool, records: seq<DeleteRecord>, f: CommitFaults): (r: Report)
    ensures !hasDB ==> r == Report(None, false)
    ensures hasDB ==>
      (r.err == None <==> !f.begin && !f.prepare && FirstFault(f.execs, 0, |records|) == |records|)
    ensures r.applied <==> hasDB && r.err == None && !f.commit
    ensures r.err != None ==> r.err == Some(Driver)
  {
    if !hasDB then Report(None, false)
    else if f.begin || f.prepare then Report(Some(Driver), false)
    else if FirstFault(f.execs, 0, |records|) < |records| then Report(Some(Driver), false)
    else Report(None, !f.commit)
  }

  /** A failed Commit is reported as success although nothing was applied. */
  lemma CommitFailureUnreported(records: seq<DeleteRecord>, f: CommitFaults)
    requires !f.begin && !f.prepare && FirstFault(f.execs, 0, |records|) == |records| && f.commit
    ensures CommitDB(true, records, f) == Report(None, false)
  {
  }

  /** What the select of this processURLs can receive: there is no context case. */
  datatype Event = Item(rec: DeleteRecord) | Tick | Closed

  datatype Outcome = Returned(err: Option<Failure>) | Waiting

  datatype Run = Run(outcome: Outcome, buffer: seq<DeleteRecord>, batches: seq<seq<DeleteRecord>>,
                     reports: seq<Report>)

  function FaultsOf(faults: seq<CommitFaults>, k: nat): CommitFaults {
    if k < |faults| then faults[k] else CommitFaults(false, false, {}, false)
  }

  /** processURLs of this iteration: like the current one, except that every tick
      ends processing, committing the buffer only when it is non-empty. */
  function Process(hasDB: bool, events: seq<Event>, faults: seq<CommitFaults>,
                   buffer: seq<DeleteRecord>, batches: seq<seq<DeleteRecord>>, reports: seq<Report>): (r: Run)
    requires |reports| == |batches|
    ensures |r.reports| == |r.batches| && |batches| <= |r.batches|
    ensures r.outcome.Returned? && r.outcome.err != None ==>
      |batches| < |r.batches| && r.outcome.err == r.reports[|r.reports| - 1].err
    decreases |events|
  {
    if events == [] then Run(Waiting, buffer, batches, reports)
    else
      var k := |batches|;
      match events[0]
      case Closed =>
        if |buffer| > 0 then
          var c := CommitDB(hasDB, buffer, FaultsOf(faults, k));
          Run(Returned(c.err), [], batches + [buffer], reports + [c])
        else Run(Returned(None), buffer, batches, reports)
      case Tick =>
        if |buffer| > 0 then
          var c := CommitDB(hasDB, buffer, FaultsOf(faults, k));
          Run(Returned(c.err), [], batches + [buffer], reports + [c])
        else Run(Returned(None), buffer, batches, reports)
      case Item(rec) =>
        var b := buffer + [rec];
        if |b| >= 10 then
          var c := CommitDB(hasDB, b, FaultsOf(faults, k));
          if c.err != None then Run(Returned(c.err), [], batches + [b], reports + [c])
          else Process(hasDB, events[1..], faults, [], batches + [b], reports + [c])
        else Process(hasDB, events[1..], faults, b, batches, reports)
  }

  /** processURLs as a loop over the events it observes. */
  method ProcessURLs(hasDB: bool, events: seq<Event>, faults: seq<CommitFaults>) returns (run: Run)
    ensures run == Process(hasDB, events, faults, [], [], [])
  {
    var buffer: seq<DeleteRecord> := [];
    var batches: seq<seq<DeleteRecord>> := [];
    var reports: seq<Report> := [];
    var i := 0;
    while i < |events|
      invariant 0 <= i <= |events| && |reports| == |batches|
      invariant Process(hasDB, events, faults, [], [], []) == Process(hasDB, events[i..], faults, buffer, batches, reports)
    {
      assert events[i..][1..] == events[i + 1..];
      match events[i] {
        case Closed =>
          if |buffer| > 0 {
            var c := CommitDB(hasDB, buffer, FaultsOf(faults, |batches|));
            return Run(Returned(c.err), [], batches + [buffer], reports + [c]);
          }
          return Run(Returned(None), buffer, batches, reports);
        case Tick =>
          if |buffer| > 0 {
            var c := CommitDB(hasDB, buffer, FaultsOf(faults, |batches|));
            return Run(Returned(c.err), [], batches + [buffer], reports + [c]);
          }
          return Run(Returned(None), buffer, batches, reports);
        case Item(rec) =>
          buffer := buffer + [rec];
          if |buffer| >= 10 {
            var c := CommitDB(hasDB, buffer, FaultsOf(faults, |batches|));
            batches, reports := batches + [buffer], reports + [c];
            if c.err != None {
              return Run(Returned(c.err), [], batches, reports);
            }
            buffer := [];
          }
      }
      i := i + 1;
    }
    return Run(Waiting, buffer, batches, reports);
  }

  /** A tick always ends processing, whatever input is left: it commits the buffer
      only when it is non-empty, and with an empty buffer it returns nil without a
      commit. Earlier batches are kept, no committed batch is empty, and without a
      database the result is nil. */
  lemma {:induction false} TickEndsProcessing(hasDB: bool, recs: seq<Event>, rest: seq<Event>,
                                             faults: seq<CommitFaults>,
                                             buffer: seq<DeleteRecord>, batches: seq<seq<DeleteRecord>>,
                                             reports: seq<Report>)
    requires |reports| == |batches|
    requires forall j :: 0 <= j < |recs| ==> recs[j].Item?
    requires forall j :: 0 <= j < |batches| ==> batches[j] != []
    ensures var r := Process(hasDB, recs + [Tick] + rest, faults, buffer, batches, reports);
      && r.outcome.Returned?
      && |batches| <= |r.batches| && r.batches[..|batches|] == batches
      && (forall j :: 0 <= j < |r.batches| ==> r.batches[j] != [])
      && (!hasDB ==> r.outcome == Returned(None))
    ensures recs == [] && buffer == [] ==>
      Process(hasDB, recs + [Tick] + rest, faults, buffer, batches, reports) == Run(Returned(None), [], batches, reports)
    ensures recs == [] && buffer != [] ==>
      var c := CommitDB(hasDB, buffer, FaultsOf(faults, |batches|));
      Process(hasDB, recs + [Tick] + rest, faults, buffer, batches, reports) ==
        Run(Returned(c.err), [], batches + [buffer], reports + [c])
    decreases |recs|
  {
    if recs == [] {
      assert recs + [Tick] + rest == [Tick] + rest;
      assert (batches + [buffer])[..|batches|] == batches;
    } else {
      assert (recs + [Tick] + rest)[1..] == recs[1..] + [Tick] + rest;
      var b := buffer + [recs[0].rec];
      if |b| >= 10 {
        var c := CommitDB(hasDB, b, FaultsOf(faults, |batches|));
        assert (batches + [b])[..|batches|] == batches;
        if c.err == None {
          TickEndsProcessing(hasDB, recs[1..], rest, faults, [], batches + [b], reports + [c]);
          var r := Process(hasDB, recs[1..] + [Tick] + rest, faults, [], batches + [b], reports + [c]);
          assert r.batches[..|batches|] == r.batches[..|batches| + 1][..|batches|];
        }
      } else {
        TickEndsProcessing(hasDB, recs[1..], rest, faults, b, batches, reports);
      }
    }
  }

  /** Unlike the current iteration, DeleteURLs here returns at the first tick after
      its records, even when the last batch was a full one. */
  lemma DeleteURLsReturnsAtTick(hasDB: bool, req: seq<string>, userID: string, faults: seq<CommitFaults>,
                                rest: seq<Event>)
    ensures var items := seq(|req|, i requires 0 <= i < |req| => Item(DeleteRecord(userID, req[i])));
      Process(hasDB, items + [Tick] + rest, faults, [], [], []).outcome.Returned?
  {
    var items := seq(|req|, i requires 0 <= i < |req| => Item(DeleteRecord(userID, req[i])));
    TickEndsProcessing(hasDB, items, rest, faults, [], [], []);
  }

  // ---------------------------------------------------------------- the service object

  /** URLStorage: the index, the log file's records, Count and the database handle. */
  class URLStorage {
    const encode: Codec
    var urls: map<string, Record>
    var log: seq<Record>
    var count: int
    var hasDB: bool

    function Model(): Store
      reads this
    {
      Store(urls, log, count, hasDB)
    }

    constructor (s: Store, encode: Codec)
      ensures Model() == s && this.encode == encode
    {
      this.encode := encode;
      urls, log, count, hasDB := s.urls, s.log, s.count, s.hasDB;
    }

    /** URLStorage.ServSave */
    method ServSave(url: string, userID: string, exec: ExecOutcome, logFault: bool)
      returns (short: string, err: Option<Failure>)
      modifies this
      ensures Saved(Model(), short, err) == ServSaveStep(old(Model()), encode, url, userID, exec, logFault)
    {
      short := encode(url);
      var rec := Record(count, userID, short, url, false);
      if hasDB {
        if exec == ExecUnique {
          return short, Some(Duplicate);
        }
        if exec == ExecFailed {
          return "", Some(DatabaseSave);
        }
      }
      if short !in urls {
        if logFault {
          return "", Some(LogWrite);
        }
        log := log + [rec];
        urls := urls[short := rec];
        count := count + 1;
      }
      return short, None;
    }

    /** URLStorage.ShortenBatch */
    method ShortenBatch(userID: string, req: seq<BatchRequest>, res: seq<BatchResponse>,
                        f: BatchFaults, logFaults: set<nat>)
      returns (out: seq<BatchResponse>, issued: seq<Insert>, err: Option<Failure>)
      modifies this
      ensures Batched(Model(), out, issued, err) ==
        ShortenBatchStep(old(Model()), encode, userID, req, res, f, logFaults)
    {
      issued := [];
      if hasDB {
        if f.begin || f.prepare {
          return res, [], Some(Driver);
        }
        for i := 0 to |req|
          invariant issued == Inserts(count, encode, userID, req)[..i]
          invariant FirstFault(f.execs, 0, |req|) == FirstFault(f.execs, i, |req|)
        {
          if i in f.execs {
            return res, issued, Some(Driver);
          }
          issued := issued + [Insert(count, userID, encode(req[i].url), req[i].url)];
          assert Inserts(count, encode, userID, req)[..i + 1] == Inserts(count, encode, userID, req)[..i] + [Inserts(count, encode, userID, req)[i]];
        }
        assert Inserts(count, encode, userID, req)[..|req|] == Inserts(count, encode, userID, req);
      }
      ghost var db := issued;
      out := res;
      var i := 0;
      while i < |req|
        invariant 0 <= i <= |req|
        invariant ShortenBatchStep(old(Model()), encode, userID, req, res, f, logFaults) ==
          var l := LocalFrom(Model(), encode, req, out, logFaults, i); Batched(l.store, l.res, db, l.err)
      {
        var code := encode(req[i].url);
        var rec := Record(count, "", code, req[i].url, false);
        out := out + [BatchResponse(req[i].id, code)];
        if code !in urls {
          if i in logFaults {
            return out, issued, Some(LogWrite);
          }
          log := log + [rec];
          urls := urls[code := rec];
          count := count + 1;
        }
        i := i + 1;
      }
      return out, issued, None;
    }
  }
}
