/** The relational `urls` table as a value, and the statements the storage
    package runs against it (internal/storage/get.go, save.go, save_batch.go,
    delete.go, get_multiple.go, stats.go). The table is a sequence of rows in
    the order the database returns them; driver faults are inputs. */
module Table {
  import opened Models

  /** A row of `urls (user_id, short_url, url PRIMARY KEY, deleted DEFAULT false)`. */
  datatype Row = Row(userID: string, shortURL: string, url: string, deleted: bool)

  type Table = seq<Row>

  /** The table after some statements, and the error that stopped them. */
  datatype Exec = Exec(table: Table, err: Option<Error>)

  /** Faults of one transaction: BeginTx fails, statement i fails, Commit fails. */
  datatype TxFaults = TxFaults(begin: bool, stmts: set<nat>, commit: bool)

  const NoTxFaults := TxFaults(false, {}, false)

  /** Faults of a listing query: the query fails, the scan of row i fails,
      rows.Err reports an error after the last row. */
  datatype QueryFaults = QueryFaults(query: bool, scans: set<nat>, rowsErr: bool)

  datatype Answer = Answer(value: string, err: Option<Error>)

  datatype StatsAnswer = StatsAnswer(stats: Models.Stats, err: Option<Error>)

  function URLs(t: Table): set<string> {
    set r | r in t :: r.url
  }

  function Users(t: Table): set<string> {
    set r | r in t :: r.userID
  }

  /** url is the table's primary key. */
  ghost predicate UniqueURLs(t: Table) {
    forall i, j :: 0 <= i < j < |t| ==> t[i].url != t[j].url
  }

  // ---------------------------------------------------------------- insert

  /** One `INSERT INTO urls (user_id, short_url, url)`: a driver fault, a unique
      violation on url, or a new row whose deleted column takes its default. */
  function Insert(t: Table, userID: string, shortURL: string, url: string, fault: bool): (r: Exec)
    ensures r.err == None <==> !fault && url !in URLs(t)
    ensures r.err == None ==> r.table == t + [Row(userID, shortURL, url, false)]
    ensures r.err != None ==> r.table == t
    ensures r.err == Some(UniqueViolation) <==> !fault && url in URLs(t)
    ensures r.err == None || r.err == Some(UniqueViolation) || r.err == Some(DriverFailure)
    ensures UniqueURLs(t) ==> UniqueURLs(r.table)
  {
    if fault then Exec(t, Some(DriverFailure))
    else if url in URLs(t) then Exec(t, Some(UniqueViolation))
    else
      var t' := t + [Row(userID, shortURL, url, false)];
      assert forall i :: 0 <= i < |t| ==> t[i] in t;
      Exec(t', None)
  }

  /** Storage.Save: inserts (UserID, ShortURL, URL); a unique violation is
      reported as ErrorDuplicate, every other failure as ErrorURLSave. */
  function Save(t: Table, rec: URLRecord, fault: bool): (r: Exec)
    ensures r.err == None <==> !fault && rec.url !in URLs(t)
    ensures r.err == None ==> r.table == t + [Row(rec.userID, rec.shortURL, rec.url, false)]
    ensures r.err != None ==> r.table == t
    ensures r.err == Some(ErrorDuplicate) <==> !fault && rec.url in URLs(t)
    ensures r.err == Some(ErrorURLSave) <==> fault
    ensures UniqueURLs(t) ==> UniqueURLs(r.table)
  {
    var e := Insert(t, rec.userID, rec.shortURL, rec.url, fault);
    if e.err == None then e
    else if e.err == Some(UniqueViolation) then Exec(t, Some(ErrorDuplicate))
    else Exec(t, Some(ErrorURLSave))
  }

  // ---------------------------------------------------------------- lookup

  /** The row `SELECT url, deleted FROM urls WHERE short_url = $1` scans: the
      first row with that short code, if any. */
  function Find(t: Table, code: string): (r: Option<Row>)
    ensures r.Some? ==> r.value in t && r.value.shortURL == code
    ensures r.None? <==> forall i :: 0 <= i < |t| ==> t[i].shortURL != code
  {
    if t == [] then None
    else if t[0].shortURL == code then Some(t[0])
    else
      var r := Find(t[1..], code);
      assert forall i :: 1 <= i < |t| ==> t[i] == t[1..][i - 1];
      r
  }

  /** Storage.Get: the scanned row is classified as deleted, found or not found;
      a failed scan (no row, or a driver fault) is passed through. */
  function Get(t: Table, code: string, fault: bool): (r: Answer)
    ensures r.err != None ==> r.value == ""
    ensures fault ==> r.err == Some(DriverFailure)
    ensures !fault && Find(t, code).None? ==> r.err == Some(NoRows)
    ensures r.err == Some(ErrorURLDeleted) <==> !fault && Find(t, code).Some? && Find(t, code).value.deleted
    ensures r.err == None <==>
      !fault && Find(t, code).Some? && !Find(t, code).value.deleted && Find(t, code).value.url != ""
    ensures r.err == None ==> Row(Find(t, code).value.userID, code, r.value, false) in t
    ensures r.err == Some(ErrorNotFound) <==>
      !fault && Find(t, code).Some? && !Find(t, code).value.deleted && Find(t, code).value.url == ""
  {
    if fault then Answer("", Some(DriverFailure))
    else match Find(t, code)
      case None => Answer("", Some(NoRows))
      case Some(row) =>
        if row.deleted then Answer("", Some(ErrorURLDeleted))
        else if row.url != "" then Answer(row.url, None)
        else Answer("", Some(ErrorNotFound))
  }

  /** Tables that agree on every column except user_id. */
  ghost predicate SameButUsers(t: Table, t': Table) {
    |t| == |t'| &&
    forall i :: 0 <= i < |t| ==>
      t[i].shortURL == t'[i].shortURL && t[i].url == t'[i].url && t[i].deleted == t'[i].deleted
  }

  /** The lookup is by short_url only: which user owns the row does not matter. */
  lemma {:induction false} GetIgnoresUser(t: Table, t': Table, code: string, fault: bool)
    requires SameButUsers(t, t')
    ensures Get(t, code, fault) == Get(t', code, fault)
  {
    FindIgnoresUser(t, t', code);
  }

  lemma {:induction false} FindIgnoresUser(t: Table, t': Table, code: string)
    requires SameButUsers(t, t')
    ensures Find(t, code).None? <==> Find(t', code).None?
    ensures Find(t, code).Some? ==>
      var a, b := Find(t, code).value, Find(t', code).value;
      a.shortURL == b.shortURL && a.url == b.url && a.deleted == b.deleted
  {
    if t != [] && t[0].shortURL != code {
      assert SameButUsers(t[1..], t'[1..]);
      FindIgnoresUser(t[1..], t'[1..], code);
    }
  }

  lemma {:induction false} FindAppend(t: Table, row: Row, code: string)
    ensures Find(t + [row], code) ==
      if Find(t, code).Some? then Find(t, code)
      else if row.shortURL == code then Some(row)
      else None
  {
    if t == [] {
      assert t + [row] == [row];
    } else {
      assert (t + [row])[1..] == t[1..] + [row];
      FindAppend(t[1..], row, code);
    }
  }

  // ---------------------------------------------------------------- batch insert

  /** The rows a batch inserts: the batch-level user, the code of each URL. */
  function BatchRows(encode: Codec, userID: string, req: seq<BatchRequest>): seq<Row> {
    seq(|req|, k requires 0 <= k < |req| => Row(userID, encode(req[k].url), req[k].url, false))
  }

  /** The inserts of SaveBatch from item i on; statement i fails when i is in `faults`. */
  function InsertFrom(t: Table, encode: Codec, userID: string, req: seq<BatchRequest>,
                      faults: set<nat>, i: nat): Exec
    requires i <= |req|
    decreases |req| - i
  {
    if i == |req| then Exec(t, None)
    else
      var e := Insert(t, userID, encode(req[i].url), req[i].url, i in faults);
      if e.err != None then e else InsertFrom(e.table, encode, userID, req, faults, i + 1)
  }

  /** Storage.SaveBatch: inserts the batch in order through the caller's runner,
      returning at the first error. */
  method SaveBatch(t: Table, encode: Codec, userID: string, req: seq<BatchRequest>, faults: set<nat>)
    returns (r: Exec)
    ensures r == InsertFrom(t, encode, userID, req, faults, 0)
  {
    var cur := t;
    for i := 0 to |req|
      invariant InsertFrom(t, encode, userID, req, faults, 0) == InsertFrom(cur, encode, userID, req, faults, i)
    {
      var short := encode(req[i].url);
      var e := Insert(cur, userID, short, req[i].url, i in faults);
      if e.err != None {
        return e;
      }
      cur := e.table;
    }
    return Exec(cur, None);
  }

  /** The URLs of req[i..] are absent from `present` and pairwise distinct. */
  ghost predicate NewURLs(present: set<string>, req: seq<BatchRequest>, i: nat) {
    forall j :: i <= j < |req| ==>
      req[j].url !in present && forall j' :: i <= j' < j ==> req[j'].url != req[j].url
  }

  /** The table gains the rows of a prefix of the batch, in request order; the
      batch stops at the first item that hits a fault or a url already present. */
  lemma {:induction false} SaveBatchPrefix(t: Table, encode: Codec, userID: string,
                                           req: seq<BatchRequest>, faults: set<nat>, i: nat)
    requires i <= |req|
    ensures var r := InsertFrom(t, encode, userID, req, faults, i);
      var n := |r.table| - |t|;
      && |t| <= |r.table| && i + n <= |req|
      && r.table == t + BatchRows(encode, userID, req[i..i + n])
      && (r.err == None <==> i + n == |req|)
      && (r.err != None ==> (i + n in faults || req[i + n].url in URLs(r.table)))
      && (r.err == None || r.err == Some(UniqueViolation) || r.err == Some(DriverFailure))
    decreases |req| - i
  {
    if i < |req| {
      var e := Insert(t, userID, encode(req[i].url), req[i].url, i in faults);
      if e.err == None {
        SaveBatchPrefix(e.table, encode, userID, req, faults, i + 1);
        var r := InsertFrom(e.table, encode, userID, req, faults, i + 1);
        var n := |r.table| - |e.table|;
        assert InsertFrom(t, encode, userID, req, faults, i) == r;
        assert BatchRows(encode, userID, req[i..i + n + 1])
            == [Row(userID, encode(req[i].url), req[i].url, false)] + BatchRows(encode, userID, req[i + 1..i + 1 + n]);
      } else {
        assert req[i..i] == [];
      }
    } else {
      assert req[i..i] == [];
    }
  }

  /** The batch succeeds exactly when no statement faults and its URLs are new and distinct;
      a url already stored, or repeated within the batch, fails on the url key. */
  lemma {:induction false} SaveBatchSucceeds(t: Table, encode: Codec, userID: string,
                                              req: seq<BatchRequest>, faults: set<nat>, i: nat)
    requires i <= |req|
    ensures InsertFrom(t, encode, userID, req, faults, i).err == None <==>
      FirstFault(faults, i, |req|) == |req| && NewURLs(URLs(t), req, i)
    decreases |req| - i
  {
    if i < |req| {
      var row := Row(userID, encode(req[i].url), req[i].url, false);
      assert URLs(t + [row]) == URLs(t) + {req[i].url};
      SaveBatchSucceeds(t + [row], encode, userID, req, faults, i + 1);
    }
  }

  /** Each item's own UserID is ignored: only the batch-level userID is stored. */
  lemma {:induction false} SaveBatchIgnoresItemUser(t: Table, encode: Codec, userID: string,
                                                     req: seq<BatchRequest>, req': seq<BatchRequest>,
                                                     faults: set<nat>, i: nat)
    requires i <= |req| == |req'|
    requires forall k :: 0 <= k < |req| ==> req[k].url == req'[k].url
    ensures InsertFrom(t, encode, userID, req, faults, i) == InsertFrom(t, encode, userID, req', faults, i)
    decreases |req| - i
  {
    if i < |req| {
      var e := Insert(t, userID, encode(req[i].url), req[i].url, i in faults);
      SaveBatchIgnoresItemUser(e.table, encode, userID, req, req', faults, i + 1);
    }
  }

  // ---------------------------------------------------------------- tombstones

  /** `UPDATE urls SET deleted = true WHERE user_id = $1 AND short_url = $2`. */
  function Tombstone(t: Table, rec: DeleteRecord): Table {
    seq(|t|, i requires 0 <= i < |t| =>
      if t[i].userID == rec.userID && t[i].shortURL == rec.shortURL then t[i].(deleted := true) else t[i])
  }

  /** The table after the updates of every record, in order. */
  function TombstoneAll(t: Table, recs: seq<DeleteRecord>): Table
    decreases |recs|
  {
    if recs == [] then t else TombstoneAll(Tombstone(t, recs[0]), recs[1..])
  }

  /** A row is targeted by a record list when some record names its user and code. */
  predicate Targeted(row: Row, recs: seq<DeleteRecord>) {
    DeleteRecord(row.userID, row.shortURL) in recs
  }

  /** The updates of Delete from record i on; statement i fails when i is in `faults`. */
  function DeleteFrom(t: Table, recs: seq<DeleteRecord>, faults: set<nat>, i: nat): Exec
    requires i <= |recs|
    decreases |recs| - i
  {
    if i == |recs| then Exec(t, None)
    else if i in faults then Exec(t, Some(DriverFailure))
    else DeleteFrom(Tombstone(t, recs[i]), recs, faults, i + 1)
  }

  /** Storage.Delete: one tombstone update per record, in order, returning at the first error. */
  method Delete(t: Table, recs: seq<DeleteRecord>, faults: set<nat>) returns (r: Exec)
    ensures r == DeleteFrom(t, recs, faults, 0)
  {
    var cur := t;
    for i := 0 to |recs|
      invariant DeleteFrom(t, recs, faults, 0) == DeleteFrom(cur, recs, faults, i)
    {
      if i in faults {
        return Exec(cur, Some(DriverFailure));
      }
      cur := Tombstone(cur, recs[i]);
    }
    return Exec(cur, None);
  }

  /** The updates apply in order up to the first failing statement; the records after it are not applied. */
  lemma {:induction false} DeleteStopsAtFirstError(t: Table, recs: seq<DeleteRecord>, faults: set<nat>, i: nat)
    requires i <= |recs|
    ensures var k := FirstFault(faults, i, |recs|);
      DeleteFrom(t, recs, faults, i) ==
        Exec(TombstoneAll(t, recs[i..k]), if k < |recs| then Some(DriverFailure) else None)
    decreases |recs| - i
  {
    if i < |recs| && i !in faults {
      DeleteStopsAtFirstError(Tombstone(t, recs[i]), recs, faults, i + 1);
      var k := FirstFault(faults, i, |recs|);
      assert recs[i..k][1..] == recs[i + 1..k];
    } else {
      assert recs[i..i] == [];
    }
  }

  /** Every row keeps its user, code and url; its deleted flag becomes true
      exactly when it was already true or some record names its user and code. */
  lemma {:induction false} TombstoneAllRows(t: Table, recs: seq<DeleteRecord>)
    ensures |TombstoneAll(t, recs)| == |t|
    ensures forall i :: 0 <= i < |t| ==>
      var r := TombstoneAll(t, recs)[i];
      && r.userID == t[i].userID && r.shortURL == t[i].shortURL && r.url == t[i].url
      && r.deleted == (t[i].deleted || Targeted(t[i], recs))
    decreases |recs|
  {
    if recs != [] {
      var t1 := Tombstone(t, recs[0]);
      TombstoneAllRows(t1, recs[1..]);
      forall i | 0 <= i < |t|
        ensures Targeted(t[i], recs) <==>
          (t[i].userID == recs[0].userID && t[i].shortURL == recs[0].shortURL) || Targeted(t1[i], recs[1..])
      {
        assert recs == [recs[0]] + recs[1..];
      }
    }
  }

  /** Tombstones are monotonic: no update sets deleted back to false. */
  lemma TombstonesMonotonic(t: Table, recs: seq<DeleteRecord>)
    ensures |TombstoneAll(t, recs)| == |t|
    ensures forall i :: 0 <= i < |t| && t[i].deleted ==> TombstoneAll(t, recs)[i].deleted
  {
    TombstoneAllRows(t, recs);
  }

  /** Records matching no row change nothing. */
  lemma TombstoneNoMatch(t: Table, recs: seq<DeleteRecord>)
    requires forall i :: 0 <= i < |t| ==> !Targeted(t[i], recs) || t[i].deleted
    ensures TombstoneAll(t, recs) == t
  {
    TombstoneAllRows(t, recs);
    var r := TombstoneAll(t, recs);
    assert forall i :: 0 <= i < |t| ==> r[i] == t[i];
  }

  /** Applying the same record list twice gives the table of applying it once. */
  lemma TombstoneIdempotent(t: Table, recs: seq<DeleteRecord>)
    ensures TombstoneAll(TombstoneAll(t, recs), recs) == TombstoneAll(t, recs)
  {
    var once := TombstoneAll(t, recs);
    TombstoneAllRows(t, recs);
    TombstoneAllRows(once, recs);
    var twice := TombstoneAll(once, recs);
    assert forall i :: 0 <= i < |t| ==> twice[i] == once[i];
  }

  // ---------------------------------------------------------------- listing

  /** The (short_url, url) pairs of `SELECT short_url, url FROM urls WHERE user_id = $1`, in table order. */
  function Listing(t: Table, userID: string): seq<UserURL>
    decreases |t|
  {
    if t == [] then []
    else (if t[0].userID == userID then [UserURL(t[0].shortURL, t[0].url)] else []) + Listing(t[1..], userID)
  }

  /** A pair is listed exactly when some row of the user, tombstoned or not, holds it. */
  lemma {:induction false} ListingRows(t: Table, userID: string, x: UserURL)
    ensures x in Listing(t, userID) <==>
      exists i :: 0 <= i < |t| && t[i].userID == userID && x == UserURL(t[i].shortURL, t[i].url)
    decreases |t|
  {
    if t != [] {
      ListingRows(t[1..], userID, x);
      if exists i :: 1 <= i < |t| && t[i].userID == userID && x == UserURL(t[i].shortURL, t[i].url) {
        var i :| 1 <= i < |t| && t[i].userID == userID && x == UserURL(t[i].shortURL, t[i].url);
        assert t[1..][i - 1] == t[i];
      }
      if exists i :: 0 <= i < |t| - 1 && t[1..][i].userID == userID && x == UserURL(t[1..][i].shortURL, t[1..][i].url) {
        var i :| 0 <= i < |t| - 1 && t[1..][i].userID == userID && x == UserURL(t[1..][i].shortURL, t[1..][i].url);
        assert t[i + 1] == t[1..][i];
      }
    }
  }

  /** There is no filter on deleted: tombstoning leaves every user's listing as it was. */
  lemma {:induction false} ListingIgnoresTombstones(t: Table, recs: seq<DeleteRecord>, userID: string)
    ensures Listing(TombstoneAll(t, recs), userID) == Listing(t, userID)
  {
    TombstoneAllRows(t, recs);
    SameColumnsSameListing(t, TombstoneAll(t, recs), userID);
  }

  lemma {:induction false} SameColumnsSameListing(t: Table, t': Table, userID: string)
    requires |t| == |t'|
    requires forall i :: 0 <= i < |t| ==>
      t[i].userID == t'[i].userID && t[i].shortURL == t'[i].shortURL && t[i].url == t'[i].url
    ensures Listing(t, userID) == Listing(t', userID)
    decreases |t|
  {
    if t != [] {
      SameColumnsSameListing(t[1..], t'[1..], userID);
    }
  }

  /** Storage.GetMultiple: runs the listing query and appends one pair per scanned
      row to the caller's slice; a failed query leaves the slice as it was, a failed
      scan leaves the rows appended before it, and rows.Err is checked after the last row. */
  method GetMultiple(t: Table, userID: string, res: seq<UserURL>, f: QueryFaults)
    returns (out: seq<UserURL>, err: Option<Error>)
    ensures f.query ==> out == res && err == Some(DriverFailure)
    ensures !f.query ==>
      var rows := Listing(t, userID);
      var k := FirstFault(f.scans, 0, |rows|);
      if k < |rows| then out == res + rows[..k] && err == Some(DriverFailure)
      else out == res + rows && err == (if f.rowsErr then Some(DriverFailure) else None)
  {
    if f.query {
      return res, Some(DriverFailure);
    }
    var rows := Listing(t, userID);
    out := res;
    var i := 0;
    while i < |rows|
      invariant 0 <= i <= |rows|
      invariant out == res + rows[..i]
      invariant FirstFault(f.scans, 0, |rows|) == FirstFault(f.scans, i, |rows|)
    {
      if i in f.scans {
        return out, Some(DriverFailure);
      }
      assert rows[..i + 1] == rows[..i] + [rows[i]];
      out := out + [rows[i]];
      i := i + 1;
    }
    assert rows[..i] == rows;
    if f.rowsErr {
      return out, Some(DriverFailure);
    }
    return out, None;
  }

  // ---------------------------------------------------------------- statistics

  /** Storage.Stats: `COUNT(DISTINCT url)` and `COUNT(DISTINCT user_id)`; if either
      query fails the result is the zero value and the error, never partly filled. */
  function Stats(t: Table, urlFault: bool, userFault: bool): (r: StatsAnswer)
    ensures r.err != None ==> r.stats == Models.Stats(0, 0) && r.err == Some(DriverFailure)
    ensures r.err == None <==> !urlFault && !userFault
    ensures r.err == None ==> r.stats.urls == |URLs(t)| && r.stats.users == |Users(t)|
  {
    if urlFault then StatsAnswer(Models.Stats(0, 0), Some(DriverFailure))
    else if userFault then StatsAnswer(Models.Stats(0, 0), Some(DriverFailure))
    else StatsAnswer(Models.Stats(|URLs(t)|, |Users(t)|), None)
  }

  /** With url as primary key every row is one distinct url. */
  lemma {:induction false} DistinctURLsOfKeyedTable(t: Table)
    requires UniqueURLs(t)
    ensures |URLs(t)| == |t|
    decreases |t|
  {
    if t != [] {
      var rest := t[1..];
      assert UniqueURLs(rest) by {
        forall i, j | 0 <= i < j < |rest| ensures rest[i].url != rest[j].url {
          assert rest[i] == t[i + 1] && rest[j] == t[j + 1];
        }
      }
      DistinctURLsOfKeyedTable(rest);
      URLsOfCons(t);
      assert t[0].url !in URLs(rest) by {
        forall r | r in rest ensures r.url != t[0].url {
          var j :| 0 <= j < |rest| && rest[j] == r;
          assert t[j + 1] == r;
        }
      }
    }
  }

  lemma URLsOfCons(t: Table)
    requires t != []
    ensures URLs(t) == URLs(t[1..]) + {t[0].url}
  {
    assert t == [t[0]] + t[1..];
    forall u ensures u in URLs(t) <==> u in URLs(t[1..]) + {t[0].url} {
      if u in URLs(t) {
        var r :| r in t && r.url == u;
        assert r == t[0] || r in t[1..];
      }
    }
  }

  /** Tombstoned rows are still counted: updates never change either count. */
  lemma StatsIgnoreTombstones(t: Table, recs: seq<DeleteRecord>, urlFault: bool, userFault: bool)
    ensures Stats(TombstoneAll(t, recs), urlFault, userFault) == Stats(t, urlFault, userFault)
  {
    var t' := TombstoneAll(t, recs);
    TombstoneAllRows(t, recs);
    assert URLs(t') == URLs(t) by {
      forall u ensures u in URLs(t') <==> u in URLs(t) {
        if u in URLs(t') {
          var r :| r in t' && r.url == u;
          var j :| 0 <= j < |t'| && t'[j] == r;
          assert t[j] in t;
        }
        if u in URLs(t) {
          var r :| r in t && r.url == u;
          var j :| 0 <= j < |t| && t[j] == r;
          assert t'[j] in t';
        }
      }
    }
    assert Users(t') == Users(t) by {
      forall u ensures u in Users(t') <==> u in Users(t) {
        if u in Users(t') {
          var r :| r in t' && r.userID == u;
          var j :| 0 <= j < |t'| && t'[j] == r;
          assert t[j] in t;
        }
        if u in Users(t) {
          var r :| r in t && r.userID == u;
          var j :| 0 <= j < |t| && t[j] == r;
          assert t'[j] in t';
        }
      }
    }
  }

  // ---------------------------------------------------------------- round trip

  /** A saved url whose code no other row carries is found by its code, until a
      delete by its owner tombstones it; from then on the lookup reports it deleted. */
  lemma SaveGetDeleteRoundTrip(t: Table, rec: URLRecord, recs: seq<DeleteRecord>)
    requires rec.url != "" && rec.url !in URLs(t)
    requires forall i :: 0 <= i < |t| ==> t[i].shortURL != rec.shortURL
    ensures var saved := Save(t, rec, false).table;
      && Get(saved, rec.shortURL, false) == Answer(rec.url, None)
      && (DeleteRecord(rec.userID, rec.shortURL) in recs ==>
            Get(TombstoneAll(saved, recs), rec.shortURL, false) == Answer("", Some(ErrorURLDeleted)))
  {
    var row := Row(rec.userID, rec.shortURL, rec.url, false);
    var saved := t + [row];
    FindAppend(t, row, rec.shortURL);
    if DeleteRecord(rec.userID, rec.shortURL) in recs {
      var gone := TombstoneAll(saved, recs);
      TombstoneAllRows(saved, recs);
      assert gone[|t|].shortURL == rec.shortURL && gone[|t|].deleted;
      assert forall i :: 0 <= i < |t| ==> gone[i].shortURL != rec.shortURL;
      var f := Find(gone, rec.shortURL);
      assert f.Some?;
      var j :| 0 <= j < |gone| && gone[j] == f.value;
    }
  }
}
