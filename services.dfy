/** The URL service of internal/services: the in-memory index and the log in
    front of the optional database. The store is a value (Storage.Storage), each
    operation a function of the store and of the faults it meets; the class URLs
    holds the same state in fields and runs the operations in place. */
module Services {
  import opened Models
  import Table
  import Storage
  import Deletion

  // ---------------------------------------------------------------- SaveURL

  /** The store after one SaveURL call, with the code and the error it returns. */
  datatype Saved = Saved(store: Storage.Storage, short: string, err: Option<Error>)

  /** The record SaveURL builds for url and userID. */
  function NewRecord(encode: Codec, url: string, userID: string): URLRecord {
    URLRecord(userID, encode(url), url, false)
  }

  /** SaveURL: with a database the record is saved there first and a failure is
      returned with the code; then a code not yet in the index is appended to the
      log and indexed under the code. `saveFault` is a driver fault of the INSERT,
      `logFault` a failure of the JSON encoder appending to the log file. */
  function SaveURLStep(s: Storage.Storage, encode: Codec, url: string, userID: string,
                       saveFault: bool, logFault: bool): (r: Saved)
    ensures r.err == Some(LogWriteFailure) ==> r.short == ""
    ensures r.err != Some(LogWriteFailure) ==> r.short == encode(url)
    ensures s.db.None? ==> r.store.db == None && (r.err == None || r.err == Some(LogWriteFailure))
    ensures r.err in {None, Some(LogWriteFailure), Some(ErrorDuplicate), Some(ErrorURLSave)}
    ensures s.db.Some? && Table.Save(s.db.value, NewRecord(encode, url, userID), saveFault).err == None ==>
      r.store.db == Some(Table.Save(s.db.value, NewRecord(encode, url, userID), saveFault).table)
  {
    var rec := NewRecord(encode, url, userID);
    var e := if s.db.Some? then Table.Save(s.db.value, rec, saveFault) else Table.Exec([], None);
    if s.db.Some? && e.err != None then Saved(s, rec.shortURL, e.err)
    else
      var s1 := if s.db.Some? then s.(db := Some(e.table)) else s;
      if rec.shortURL in s.urls then Saved(s1, rec.shortURL, None)
      else if logFault then Saved(s1, "", Some(LogWriteFailure))
      else Saved(s1.(log := s.log + [rec], urls := s.urls[rec.shortURL := rec]), rec.shortURL, None)
  }

  /** The returned code and error never depend on the user. */
  lemma SaveURLIgnoresUser(s: Storage.Storage, encode: Codec, url: string, u1: string, u2: string,
                           saveFault: bool, logFault: bool)
    ensures var r1 := SaveURLStep(s, encode, url, u1, saveFault, logFault);
      var r2 := SaveURLStep(s, encode, url, u2, saveFault, logFault);
      r1.short == r2.short && r1.err == r2.err && r1.store.urls.Keys == r2.store.urls.Keys
  {
  }

  /** With a database, a failed save (a duplicate or any other error) is returned
      with the code, and the store is left as it was. */
  lemma SaveURLDatabaseError(s: Storage.Storage, encode: Codec, url: string, userID: string,
                             saveFault: bool, logFault: bool)
    requires s.db.Some?
    requires Table.Save(s.db.value, NewRecord(encode, url, userID), saveFault).err != None
    ensures SaveURLStep(s, encode, url, userID, saveFault, logFault) ==
      Saved(s, encode(url), Table.Save(s.db.value, NewRecord(encode, url, userID), saveFault).err)
  {
  }

  /** Past the database, a code not yet indexed is appended to the log once and
      stored under the code, unless writing the log fails: then "" and the error are
      returned and nothing is indexed. */
  lemma SaveURLNewCode(s: Storage.Storage, encode: Codec, url: string, userID: string,
                       saveFault: bool, logFault: bool)
    requires s.db.None? || Table.Save(s.db.value, NewRecord(encode, url, userID), saveFault).err == None
    requires encode(url) !in s.urls
    ensures var r := SaveURLStep(s, encode, url, userID, saveFault, logFault);
      var rec := URLRecord(userID, encode(url), url, false);
      if logFault then
        r.short == "" && r.err == Some(LogWriteFailure) && r.store.urls == s.urls && r.store.log == s.log
      else
        r.short == encode(url) && r.err == None &&
        r.store.log == s.log + [rec] && r.store.urls == s.urls[encode(url) := rec]
  {
  }

  /** Past the database, an indexed code changes neither index nor log and is returned without error. */
  lemma SaveURLKnownCode(s: Storage.Storage, encode: Codec, url: string, userID: string,
                         saveFault: bool, logFault: bool)
    requires s.db.None? || Table.Save(s.db.value, NewRecord(encode, url, userID), saveFault).err == None
    requires encode(url) in s.urls
    ensures var r := SaveURLStep(s, encode, url, userID, saveFault, logFault);
      r.short == encode(url) && r.err == None && r.store.urls == s.urls && r.store.log == s.log
  {
  }

  /** Every index insert is paired with a log append: either the log grows by one
      record and the index by its code, or both stay as they were. */
  lemma SaveURLPairsAppendWithInsert(s: Storage.Storage, encode: Codec, url: string, userID: string,
                                     saveFault: bool, logFault: bool)
    ensures var r := SaveURLStep(s, encode, url, userID, saveFault, logFault);
      || (r.store.log == s.log && r.store.urls == s.urls)
      || (&& r.err == None && r.short !in s.urls
          && r.store.log == s.log + [r.store.urls[r.short]]
          && r.store.urls.Keys == s.urls.Keys + {r.short}
          && |r.store.urls| == |s.urls| + 1)
  {
  }

  /** Saving the same URL twice, under any users and faults, appends to the log at most once. */
  lemma SaveTwiceLogsOnce(s: Storage.Storage, encode: Codec, url: string, u1: string, u2: string,
                          f1: bool, l1: bool, f2: bool, l2: bool)
    ensures var r1 := SaveURLStep(s, encode, url, u1, f1, l1);
      var r2 := SaveURLStep(r1.store, encode, url, u2, f2, l2);
      |r2.store.log| <= |s.log| + 1
  {
    var r1 := SaveURLStep(s, encode, url, u1, f1, l1);
    SaveURLPairsAppendWithInsert(s, encode, url, u1, f1, l1);
    SaveURLPairsAppendWithInsert(r1.store, encode, url, u2, f2, l2);
    if |r1.store.log| != |s.log| {
      assert encode(url) in r1.store.urls;
    }
  }

  /** SaveURL keeps the store's invariants: every entry sits under its own code,
      is the encoding of its URL, and is a record on the log. */
  lemma SaveURLKeepsInvariants(s: Storage.Storage, encode: Codec, url: string, userID: string,
                               saveFault: bool, logFault: bool)
    requires Storage.CodeKeyed(s) && Storage.Encoded(s, encode) && Storage.Logged(s)
    ensures var r := SaveURLStep(s, encode, url, userID, saveFault, logFault);
      Storage.CodeKeyed(r.store) && Storage.Encoded(r.store, encode) && Storage.Logged(r.store)
  {
  }

  // ---------------------------------------------------------------- GetURL

  /** GetURL: with a database, any error of Storage.Get is returned as it is; a
      successful answer is then discarded and the index decides. */
  function GetURLStep(s: Storage.Storage, code: string, fault: bool): (r: Table.Answer)
    ensures s.db.Some? && Table.Get(s.db.value, code, fault).err != None ==>
      r == Table.Get(s.db.value, code, fault)
    ensures (s.db.None? || Table.Get(s.db.value, code, fault).err == None) ==>
      r == if code in s.urls then Table.Answer(s.urls[code].url, None)
           else Table.Answer("", Some(ErrorServiceNotFound))
    ensures r.err == None ==> code in s.urls && r.value == s.urls[code].url
  {
    if s.db.Some? && Table.Get(s.db.value, code, fault).err != None then Table.Get(s.db.value, code, fault)
    else if code in s.urls then Table.Answer(s.urls[code].url, None)
    else Table.Answer("", Some(ErrorServiceNotFound))
  }

  /** Without a database, a code SaveURL returned without error looks up the URL
      that was saved, whether the code was new or already indexed, as long as the
      encoder is injective. */
  lemma SaveThenGetWithoutDatabase(s: Storage.Storage, encode: Codec, url: string, userID: string,
                                   logFault: bool, fault: bool)
    requires s.db.None?
    requires Storage.CodeKeyed(s) && Storage.Encoded(s, encode)
    requires Injective(encode)
    requires SaveURLStep(s, encode, url, userID, false, logFault).err == None
    ensures var r := SaveURLStep(s, encode, url, userID, false, logFault);
      GetURLStep(r.store, r.short, fault) == Table.Answer(url, None)
  {
    var code := encode(url);
    if code in s.urls {
      assert encode(s.urls[code].url) == code;
    }
  }

  /** Two URLs with one code: the second save is answered with the first URL. */
  lemma CollidingURLsShareEntry(s: Storage.Storage, encode: Codec, a: string, b: string, userID: string)
    requires s.db.None? && encode(a) !in s.urls
    requires encode(a) == encode(b) && a != b
    ensures var r1 := SaveURLStep(s, encode, a, userID, false, false);
      var r2 := SaveURLStep(r1.store, encode, b, userID, false, false);
      r2.err == None && GetURLStep(r2.store, r2.short, false) == Table.Answer(a, None)
  {
  }

  /** After a restart the index is keyed by URL (Storage.Replay): a code saved
      before the restart is no longer found, and saving its URL again appends a
      second log record for it. */
  lemma RestartForgetsCodes(encode: Codec, rec: URLRecord, userID: string, fault: bool)
    requires rec.shortURL == encode(rec.url) && rec.shortURL != rec.url
    ensures var s := Storage.Storage(Storage.Replay([rec]), [rec], None);
      && GetURLStep(s, rec.shortURL, fault) == Table.Answer("", Some(ErrorServiceNotFound))
      && |SaveURLStep(s, encode, rec.url, userID, false, false).store.log| == 2
  {
    Storage.ReplayKeysByURL(rec, None);
  }

  // ---------------------------------------------------------------- GetStats

  /** GetStats: no database gives the zero Stats and ErrorNoDB; a storage error
      gives the zero Stats and that error; otherwise both counts are copied. */
  function GetStatsStep(s: Storage.Storage, urlFault: bool, userFault: bool): (r: Table.StatsAnswer)
    ensures s.db.None? ==> r == Table.StatsAnswer(Models.Stats(0, 0), Some(ErrorNoDB))
    ensures r.err != None ==> r.stats == Models.Stats(0, 0)
    ensures s.db.Some? ==> (r.err == None <==> !urlFault && !userFault)
    ensures s.db.Some? && r.err == None ==>
      r.stats.urls == |Table.URLs(s.db.value)| && r.stats.users == |Table.Users(s.db.value)|
  {
    if s.db.None? then Table.StatsAnswer(Models.Stats(0, 0), Some(ErrorNoDB))
    else
      var a := Table.Stats(s.db.value, urlFault, userFault);
      if a.err != None then Table.StatsAnswer(Models.Stats(0, 0), a.err)
      else Table.StatsAnswer(Models.Stats(a.stats.urls, a.stats.users), None)
  }

  // ---------------------------------------------------------------- ShortenBatch

  /** The store after ShortenBatch, the caller's response slice, and the error. */
  datatype Batched = Batched(store: Storage.Storage, res: seq<BatchResponse>, err: Option<Error>)

  /** The database block: BeginTx, SaveBatch inside the transaction, Commit. The
      transaction's rows are kept only when all three succeed. */
  function Transaction(t: Table.Table, encode: Codec, userID: string, req: seq<BatchRequest>,
                       f: Table.TxFaults): (r: Table.Exec)
    ensures r.err != None ==> r.table == t
    ensures r.err == None ==> r.table == Table.InsertFrom(t, encode, userID, req, f.stmts, 0).table
    ensures r.err == None <==>
      !f.begin && !f.commit && Table.InsertFrom(t, encode, userID, req, f.stmts, 0).err == None
  {
    if f.begin then Table.Exec(t, Some(DriverFailure))
    else
      var e := Table.InsertFrom(t, encode, userID, req, f.stmts, 0);
      if e.err != None then Table.Exec(t, e.err)
      else if f.commit then Table.Exec(t, Some(DriverFailure))
      else e
  }

  /** The local loop of ShortenBatch from item i on: the response is appended, and
      a code not yet indexed is logged and indexed with an empty user; a log-write
      failure at item i (i in logFaults) returns at once. */
  function LocalFrom(s: Storage.Storage, encode: Codec, req: seq<BatchRequest>, res: seq<BatchResponse>,
                     logFaults: set<nat>, i: nat): Batched
    requires i <= |req|
    decreases |req| - i
  {
    if i == |req| then Batched(s, res, None)
    else
      var code := encode(req[i].url);
      var rec := URLRecord("", code, req[i].url, false);
      var res' := res + [BatchResponse(req[i].id, code)];
      if code in s.urls then LocalFrom(s, encode, req, res', logFaults, i + 1)
      else if i in logFaults then Batched(s, res', Some(LogWriteFailure))
      else LocalFrom(s.(log := s.log + [rec], urls := s.urls[code := rec]), encode, req, res', logFaults, i + 1)
  }

  /** ShortenBatch: the database block, then the local loop over the whole batch. */
  function ShortenBatchStep(s: Storage.Storage, encode: Codec, userID: string, req: seq<BatchRequest>,
                            res: seq<BatchResponse>, f: Table.TxFaults, logFaults: set<nat>): (r: Batched)
    ensures s.db.Some? && Transaction(s.db.value, encode, userID, req, f).err != None ==>
      r == Batched(s, res, Transaction(s.db.value, encode, userID, req, f).err)
    ensures s.db.None? ==> r.store.db == None && (r.err == None || r.err == Some(LogWriteFailure))
    ensures s.db.Some? && r.err == None ==>
      r.store.db == Some(Table.InsertFrom(s.db.value, encode, userID, req, f.stmts, 0).table)
  {
    if s.db.Some? then
      var tx := Transaction(s.db.value, encode, userID, req, f);
      if tx.err != None then Batched(s, res, tx.err)
      else
        LocalResponses(s.(db := Some(tx.table)), encode, req, res, logFaults, 0);
        LocalFrom(s.(db := Some(tx.table)), encode, req, res, logFaults, 0)
    else
      LocalResponses(s, encode, req, res, logFaults, 0);
      LocalFrom(s, encode, req, res, logFaults, 0)
  }

  /** The responses are appended in request order after the caller's earlier ones:
      all of them on success, those up to and including the failing item otherwise. */
  lemma {:induction false} LocalResponses(s: Storage.Storage, encode: Codec, req: seq<BatchRequest>,
                                          res: seq<BatchResponse>, logFaults: set<nat>, i: nat)
    requires i <= |req|
    ensures var r := LocalFrom(s, encode, req, res, logFaults, i);
      && r.store.db == s.db
      && (r.err == None ==> r.res == res + Responses(encode, req)[i..])
      && (r.err != None ==>
            && r.err == Some(LogWriteFailure)
            && |res| < |r.res| <= |res| + |req| - i
            && r.res == res + Responses(encode, req)[i..i + |r.res| - |res|])
    decreases |req| - i
  {
    if i < |req| {
      var code := encode(req[i].url);
      var rec := URLRecord("", code, req[i].url, false);
      var res' := res + [BatchResponse(req[i].id, code)];
      var all := Responses(encode, req);
      assert all[i..] == [all[i]] + all[i + 1..];
      if code in s.urls {
        LocalResponses(s, encode, req, res', logFaults, i + 1);
        var r := LocalFrom(s, encode, req, res', logFaults, i + 1);
        if r.err != None {
          var n := |r.res| - |res|;
          assert all[i..i + n] == [all[i]] + all[i + 1..i + 1 + (|r.res| - |res'|)];
        }
      } else if i in logFaults {
        assert all[i..i + 1] == [all[i]];
      } else {
        var s' := s.(log := s.log + [rec], urls := s.urls[code := rec]);
        LocalResponses(s', encode, req, res', logFaults, i + 1);
        var r := LocalFrom(s', encode, req, res', logFaults, i + 1);
        if r.err != None {
          var n := |r.res| - |res|;
          assert all[i..i + n] == [all[i]] + all[i + 1..i + 1 + (|r.res| - |res'|)];
        }
      }
    }
  }

  /** The local loop keeps what the store held: the log only grows at its end,
      every earlier index entry stays, and the database is not touched. */
  lemma {:induction false} LocalKeepsStore(s: Storage.Storage, encode: Codec, req: seq<BatchRequest>,
                                           res: seq<BatchResponse>, logFaults: set<nat>, i: nat)
    requires i <= |req|
    ensures var r := LocalFrom(s, encode, req, res, logFaults, i);
      && r.store.db == s.db
      && |s.log| <= |r.store.log| && r.store.log[..|s.log|] == s.log
      && (forall k :: k in s.urls ==> k in r.store.urls && r.store.urls[k] == s.urls[k])
    decreases |req| - i
  {
    if i < |req| {
      var code := encode(req[i].url);
      var rec := URLRecord("", code, req[i].url, false);
      var res' := res + [BatchResponse(req[i].id, code)];
      if code in s.urls {
        LocalKeepsStore(s, encode, req, res', logFaults, i + 1);
      } else if i !in logFaults {
        var s' := s.(log := s.log + [rec], urls := s.urls[code := rec]);
        LocalKeepsStore(s', encode, req, res', logFaults, i + 1);
        var r := LocalFrom(s', encode, req, res', logFaults, i + 1);
        assert r.store.log[..|s.log|] == r.store.log[..|s'.log|][..|s.log|];
      }
    }
  }

  /** Property of one record the local loop appends: an empty user whatever the
      caller's userID, deleted false, and the code of its URL. */
  ghost predicate BatchRecord(encode: Codec, rec: URLRecord) {
    rec.userID == "" && !rec.deleted && rec.shortURL == encode(rec.url)
  }

  /** Every record the local loop appends is a BatchRecord whose code was not
      indexed before, and it ends up indexed under that code. */
  lemma {:induction false} LocalAppendsFresh(s: Storage.Storage, encode: Codec, req: seq<BatchRequest>,
                                             res: seq<BatchResponse>, logFaults: set<nat>, i: nat)
    requires i <= |req|
    ensures var r := LocalFrom(s, encode, req, res, logFaults, i);
      forall k :: |s.log| <= k < |r.store.log| ==>
        && BatchRecord(encode, r.store.log[k])
        && r.store.log[k].shortURL !in s.urls
        && r.store.log[k].shortURL in r.store.urls
        && r.store.urls[r.store.log[k].shortURL] == r.store.log[k]
    decreases |req| - i
  {
    LocalKeepsStore(s, encode, req, res, logFaults, i);
    if i < |req| {
      var code := encode(req[i].url);
      var rec := URLRecord("", code, req[i].url, false);
      var res' := res + [BatchResponse(req[i].id, code)];
      if code in s.urls {
        LocalAppendsFresh(s, encode, req, res', logFaults, i + 1);
        var r := LocalFrom(s, encode, req, res', logFaults, i + 1);
        assert LocalFrom(s, encode, req, res, logFaults, i) == r;
        forall k | |s.log| <= k < |r.store.log|
          ensures BatchRecord(encode, r.store.log[k])
          ensures r.store.log[k].shortURL !in s.urls
          ensures r.store.log[k].shortURL in r.store.urls
          ensures r.store.urls[r.store.log[k].shortURL] == r.store.log[k]
        {
          assert |s.log| <= k < |LocalFrom(s, encode, req, res', logFaults, i + 1).store.log|;
          assert BatchRecord(encode, LocalFrom(s, encode, req, res', logFaults, i + 1).store.log[k]);
        }
      } else if i !in logFaults {
        var s' := s.(log := s.log + [rec], urls := s.urls[code := rec]);
        LocalAppendsFresh(s', encode, req, res', logFaults, i + 1);
        LocalKeepsStore(s', encode, req, res', logFaults, i + 1);
        var r := LocalFrom(s', encode, req, res', logFaults, i + 1);
        assert r.store.log[|s.log|] == r.store.log[..|s'.log|][|s.log|] == rec;
      }
    }
  }

  /** The codes the local loop appends are pairwise distinct: a URL repeated in
      the batch is logged only at its first occurrence. */
  lemma {:induction false} LocalAppendsDistinct(s: Storage.Storage, encode: Codec, req: seq<BatchRequest>,
                                                res: seq<BatchResponse>, logFaults: set<nat>, i: nat)
    requires i <= |req|
    ensures var r := LocalFrom(s, encode, req, res, logFaults, i);
      forall k, k' :: |s.log| <= k < k' < |r.store.log| ==> r.store.log[k].shortURL != r.store.log[k'].shortURL
    decreases |req| - i
  {
    if i < |req| {
      var code := encode(req[i].url);
      var rec := URLRecord("", code, req[i].url, false);
      var res' := res + [BatchResponse(req[i].id, code)];
      if code in s.urls {
        LocalAppendsDistinct(s, encode, req, res', logFaults, i + 1);
        assert LocalFrom(s, encode, req, res, logFaults, i) == LocalFrom(s, encode, req, res', logFaults, i + 1);
      } else if i !in logFaults {
        var s' := s.(log := s.log + [rec], urls := s.urls[code := rec]);
        LocalAppendsDistinct(s', encode, req, res', logFaults, i + 1);
        LocalAppendsFresh(s', encode, req, res', logFaults, i + 1);
        LocalKeepsStore(s', encode, req, res', logFaults, i + 1);
        var r := LocalFrom(s', encode, req, res', logFaults, i + 1);
        assert r.store.log[|s.log|] == r.store.log[..|s'.log|][|s.log|] == rec;
      }
    }
  }

  /** Every index entry the local loop adds is one of the records it appends, and
      on success the code of every URL of req[i..] is indexed. */
  lemma {:induction false} LocalIndexesFromLog(s: Storage.Storage, encode: Codec, req: seq<BatchRequest>,
                                               res: seq<BatchResponse>, logFaults: set<nat>, i: nat)
    requires i <= |req|
    ensures var r := LocalFrom(s, encode, req, res, logFaults, i);
      && (forall k :: k in r.store.urls && k !in s.urls ==>
            && r.store.urls[k].shortURL == k
            && exists j :: |s.log| <= j < |r.store.log| && r.store.log[j] == r.store.urls[k])
      && (r.err == None ==> forall j :: i <= j < |req| ==> encode(req[j].url) in r.store.urls)
    decreases |req| - i
  {
    if i < |req| {
      var code := encode(req[i].url);
      var rec := URLRecord("", code, req[i].url, false);
      var res' := res + [BatchResponse(req[i].id, code)];
      if code in s.urls {
        LocalIndexesFromLog(s, encode, req, res', logFaults, i + 1);
        LocalKeepsStore(s, encode, req, res', logFaults, i + 1);
      } else if i !in logFaults {
        var s' := s.(log := s.log + [rec], urls := s.urls[code := rec]);
        LocalIndexesFromLog(s', encode, req, res', logFaults, i + 1);
        LocalKeepsStore(s', encode, req, res', logFaults, i + 1);
        var r := LocalFrom(s', encode, req, res', logFaults, i + 1);
        assert r.store.log[|s.log|] == r.store.log[..|s'.log|][|s.log|] == rec;
        assert r.store.urls[code] == rec;
      }
    }
  }

  /** After a log failure, the code of every item before the failing one is
      indexed: the items whose responses precede the failing item's. */
  lemma {:induction false} LocalIndexesBeforeFailure(s: Storage.Storage, encode: Codec, req: seq<BatchRequest>,
                                                     res: seq<BatchResponse>, logFaults: set<nat>, i: nat)
    requires i <= |req|
    ensures var r := LocalFrom(s, encode, req, res, logFaults, i);
      r.err != None ==> forall j :: i <= j < |req| && j < i + |r.res| - |res| - 1 ==> encode(req[j].url) in r.store.urls
    decreases |req| - i
  {
    if i < |req| {
      var code := encode(req[i].url);
      var rec := URLRecord("", code, req[i].url, false);
      var res' := res + [BatchResponse(req[i].id, code)];
      if code in s.urls {
        LocalIndexesBeforeFailure(s, encode, req, res', logFaults, i + 1);
        LocalKeepsStore(s, encode, req, res', logFaults, i + 1);
      } else if i !in logFaults {
        var s' := s.(log := s.log + [rec], urls := s.urls[code := rec]);
        LocalIndexesBeforeFailure(s', encode, req, res', logFaults, i + 1);
        LocalKeepsStore(s', encode, req, res', logFaults, i + 1);
      }
    }
  }

  /** ShortenBatch keeps the store's invariants. */
  lemma ShortenBatchKeepsInvariants(s: Storage.Storage, encode: Codec, userID: string, req: seq<BatchRequest>,
                                    res: seq<BatchResponse>, f: Table.TxFaults, logFaults: set<nat>)
    requires Storage.CodeKeyed(s) && Storage.Encoded(s, encode) && Storage.Logged(s)
    ensures var r := ShortenBatchStep(s, encode, userID, req, res, f, logFaults);
      Storage.CodeKeyed(r.store) && Storage.Encoded(r.store, encode) && Storage.Logged(r.store)
  {
    var s0 := if s.db.Some? then s.(db := Some(Transaction(s.db.value, encode, userID, req, f).table)) else s;
    if s.db.None? || Transaction(s.db.value, encode, userID, req, f).err == None {
      LocalKeepsStore(s0, encode, req, res, logFaults, 0);
      LocalAppendsFresh(s0, encode, req, res, logFaults, 0);
      LocalIndexesFromLog(s0, encode, req, res, logFaults, 0);
      var r := LocalFrom(s0, encode, req, res, logFaults, 0);
      assert r == ShortenBatchStep(s, encode, userID, req, res, f, logFaults);
      forall k | k in r.store.urls
        ensures r.store.urls[k].shortURL == k
        ensures encode(r.store.urls[k].url) == k
        ensures r.store.urls[k] in r.store.log
      {
        if k in s.urls {
          assert s.urls[k] in s.log;
          assert r.store.log[..|s.log|] == s.log;
          assert s.urls[k] in r.store.log[..|s.log|];
        } else {
          var j :| |s.log| <= j < |r.store.log| && r.store.log[j] == r.store.urls[k];
          assert BatchRecord(encode, r.store.log[j]);
          assert r.store.urls[r.store.log[j].shortURL] == r.store.log[j];
        }
      }
    }
  }

  /** With a database and a URL already in the table, the transaction fails on the
      url key and nothing changes. */
  lemma ShortenBatchExistingURLFails(s: Storage.Storage, encode: Codec, userID: string, req: seq<BatchRequest>,
                                     res: seq<BatchResponse>, f: Table.TxFaults, logFaults: set<nat>, j: nat)
    requires s.db.Some? && j < |req| && req[j].url in Table.URLs(s.db.value)
    ensures ShortenBatchStep(s, encode, userID, req, res, f, logFaults).store == s
    ensures ShortenBatchStep(s, encode, userID, req, res, f, logFaults).res == res
    ensures ShortenBatchStep(s, encode, userID, req, res, f, logFaults).err != None
  {
    Table.SaveBatchSucceeds(s.db.value, encode, userID, req, f.stmts, 0);
    assert !Table.NewURLs(Table.URLs(s.db.value), req, 0);
  }

  // ---------------------------------------------------------------- the service object

  /** The service object: the index, the log and the database handle of its
      storage, and the encoder. */
  class URLs {
    const encode: Codec
    var urls: map<string, URLRecord>
    var log: seq<URLRecord>
    var db: Option<Table.Table>

    function Model(): Storage.Storage
      reads this
    {
      Storage.Storage(urls, log, db)
    }

    constructor (s: Storage.Storage, encode: Codec)
      ensures Model() == s && this.encode == encode
    {
      this.encode := encode;
      urls := s.urls;
      log := s.log;
      db := s.db;
    }

    /** URLs.SaveURL */
    method SaveURL(url: string, userID: string, saveFault: bool, logFault: bool)
      returns (short: string, err: Option<Error>)
      modifies this
      ensures Saved(Model(), short, err) == SaveURLStep(old(Model()), encode, url, userID, saveFault, logFault)
    {
      short := encode(url);
      var rec := URLRecord(userID, short, url, false);
      if db.Some? {
        var e := Table.Save(db.value, rec, saveFault);
        if e.err != None {
          return short, e.err;
        }
        db := Some(e.table);
      }
      if short !in urls {
        if logFault {
          return "", Some(LogWriteFailure);
        }
        log := log + [rec];
        urls := urls[short := rec];
      }
      return short, None;
    }

    /** URLs.GetURL */
    method GetURL(code: string, fault: bool) returns (url: string, err: Option<Error>)
      ensures Table.Answer(url, err) == GetURLStep(Model(), code, fault)
    {
      if db.Some? {
        var a := Table.Get(db.value, code, fault);
        if a.err != None {
          return a.value, a.err;
        }
      }
      if code in urls {
        return urls[code].url, None;
      }
      return "", Some(ErrorServiceNotFound);
    }

    /** URLs.GetStats */
    method GetStats(urlFault: bool, userFault: bool) returns (stats: Models.Stats, err: Option<Error>)
      ensures Table.StatsAnswer(stats, err) == GetStatsStep(Model(), urlFault, userFault)
    {
      stats := Models.Stats(0, 0);
      if db.None? {
        return stats, Some(ErrorNoDB);
      }
      var a := Table.Stats(db.value, urlFault, userFault);
      if a.err != None {
        return stats, a.err;
      }
      return Models.Stats(a.stats.urls, a.stats.users), None;
    }

    /** URLs.GetUserURLs: the listing comes from the database alone, never from the
        index; without a database the caller's slice is returned as it was, with nil. */
    method GetUserURLs(userID: string, res: seq<UserURL>, f: Table.QueryFaults)
      returns (out: seq<UserURL>, err: Option<Error>)
      ensures db.None? ==> out == res && err == None
      ensures db.Some? && f.query ==> out == res && err == Some(DriverFailure)
      ensures db.Some? && !f.query ==>
        var rows := Table.Listing(db.value, userID);
        var k := FirstFault(f.scans, 0, |rows|);
        if k < |rows| then out == res + rows[..k] && err == Some(DriverFailure)
        else out == res + rows && err == (if f.rowsErr then Some(DriverFailure) else None)
    {
      out, err := res, None;
      if db.Some? {
        out, err := Table.GetMultiple(db.value, userID, res, f);
      }
    }

    /** URLs.ShortenBatch */
    method ShortenBatch(userID: string, req: seq<BatchRequest>, res: seq<BatchResponse>,
                        f: Table.TxFaults, logFaults: set<nat>)
      returns (out: seq<BatchResponse>, err: Option<Error>)
      modifies this
      ensures Batched(Model(), out, err) == ShortenBatchStep(old(Model()), encode, userID, req, res, f, logFaults)
    {
      if db.Some? {
        if f.begin {
          return res, Some(DriverFailure);
        }
        var e := Table.SaveBatch(db.value, encode, userID, req, f.stmts);
        if e.err != None {
          return res, e.err;
        }
        if f.commit {
          return res, Some(DriverFailure);
        }
        db := Some(e.table);
      }
      out := res;
      var i := 0;
      while i < |req|
        invariant 0 <= i <= |req|
        invariant ShortenBatchStep(old(Model()), encode, userID, req, res, f, logFaults) ==
          LocalFrom(Model(), encode, req, out, logFaults, i)
      {
        var code := encode(req[i].url);
        var rec := URLRecord("", code, req[i].url, false);
        out := out + [BatchResponse(req[i].id, code)];
        if code !in urls {
          if i in logFaults {
            return out, Some(LogWriteFailure);
          }
          log := log + [rec];
          urls := urls[code := rec];
        }
        i := i + 1;
      }
      return out, None;
    }

    /** URLs.DeleteURLs: the requests are queued on a channel and processURLs runs
        over the events it then observes; the index and the log are not touched. */
    method DeleteURLs(req: seq<string>, userID: string, events: seq<Deletion.Event>,
                      faults: seq<Table.TxFaults>)
      returns (run: Deletion.Run)
      requires Deletion.FromChannel(events, Deletion.Requests(req, userID))
      modifies this
      ensures run == Deletion.Process(old(db), events, faults, [], [])
      ensures Model() == old(Model()).(db := run.db)
    {
      var ch := Deletion.FillChannel(req, userID);
      assert ch == Deletion.Requests(req, userID);
      run := Deletion.ProcessURLs(db, events, faults);
      db := run.db;
    }
  }
}
